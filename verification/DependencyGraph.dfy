/** The dependency graph object: forward and reverse edge indexes over a node table. */
module DependencyGraph {
  import opened Sequences
  import opened Digraphs
  import opened ImpactAnalysis
  import CycleDetection
  import CycleAgreement
  import KahnSort

  datatype SortEntry = Emitted(id: Id) | CycleMarker(remaining: seq<Id>, cycles: seq<seq<Id>>)

  function Link(index: Index, u: Id, v: Id): Index {
    index[u := Targets(index, u) + {v}]
  }

  /** Forward index after a run of `_add_edge` calls. */
  function LinkAll(index: Index, pairs: seq<(Id, Id)>): Index {
    if pairs == [] then index else Link(LinkAll(index, pairs[..|pairs| - 1]), pairs[|pairs| - 1].0, pairs[|pairs| - 1].1)
  }

  function Flipped(pairs: seq<(Id, Id)>): (r: seq<(Id, Id)>)
    ensures |r| == |pairs| && forall i :: 0 <= i < |r| ==> r[i] == (pairs[i].1, pairs[i].0)
  {
    seq(|pairs|, i requires 0 <= i < |pairs| => (pairs[i].1, pairs[i].0))
  }

  ghost predicate Converse(edges: Index, reverse: Index) {
    forall u, v :: Linked(edges, u, v) <==> Linked(reverse, v, u)
  }

  lemma {:induction false} LinkAllRelation(index: Index, pairs: seq<(Id, Id)>)
    ensures forall u, v :: Linked(LinkAll(index, pairs), u, v) <==> Linked(index, u, v) || (u, v) in pairs
  {
    if pairs != [] {
      var n := |pairs| - 1;
      LinkAllRelation(index, pairs[..n]);
      assert pairs == pairs[..n] + [pairs[n]];
    }
  }

  /** After any run of `_add_edge` from an empty graph both indexes hold exactly the added pairs,
      each the converse of the other. */
  lemma RunKeepsConverse(edges: Index, reverse: Index, pairs: seq<(Id, Id)>)
    requires Converse(edges, reverse)
    ensures Converse(LinkAll(edges, pairs), LinkAll(reverse, Flipped(pairs)))
    ensures edges == map[] ==> forall u, v :: Linked(LinkAll(edges, pairs), u, v) <==> (u, v) in pairs
  {
    LinkAllRelation(edges, pairs);
    LinkAllRelation(reverse, Flipped(pairs));
    forall u, v ensures (u, v) in pairs <==> (v, u) in Flipped(pairs) {
      if (u, v) in pairs {
        var i :| 0 <= i < |pairs| && pairs[i] == (u, v);
        assert Flipped(pairs)[i] == (v, u);
      }
      if (v, u) in Flipped(pairs) {
        var i :| 0 <= i < |pairs| && Flipped(pairs)[i] == (v, u);
        assert pairs[i] == (u, v);
      }
    }
  }

  /** `order` and `lists` give the iteration order of the node set and of every edge set. */
  ghost predicate Enumerates(order: seq<Id>, lists: map<Id, seq<Id>>, relevant: set<Id>, edges: Index) {
    && Distinct(order) && Elements(order) == relevant
    && lists.Keys == edges.Keys
    && forall u :: u in lists ==> Distinct(lists[u]) && Elements(lists[u]) == edges[u]
  }

  /** Each id of `c` is followed, round and round, by one that it has an edge to. */
  ghost predicate FollowsEdges(edges: Index, c: seq<Id>) {
    |c| > 0 && Linked(edges, c[|c| - 1], c[0]) && forall i :: 0 < i < |c| ==> LinkAt(edges, c, i)
  }

  lemma CycleStaysInDomain(g: Digraph, edges: Index, c: seq<Id>)
    requires g.IsElementaryCycle(c)
    requires g.succ.Keys == edges.Keys && forall u :: u in g.succ ==> Elements(g.succ[u]) == edges[u]
    ensures FollowsEdges(edges, c) && forall x :: x in c ==> x in g.nodes
  {
    forall i | 0 < i < |c| ensures LinkAt(edges, c, i) {
      assert g.StepAt(c, i);
      assert c[i] in Elements(g.succ[c[i - 1]]);
    }
    assert c[0] in Elements(g.succ[c[|c| - 1]]);
  }

  class Graph {
    var nodes: map<Id, Node>
    var edges: Index
    var reverse: Index

    constructor (nodes: Option<map<Id, Node>>, edges: Option<Index>, reverse: Option<Index>)
      ensures this.nodes == (if nodes.Some? then nodes.value else map[])
      ensures this.edges == (if edges.Some? then edges.value else map[])
      ensures this.reverse == (if reverse.Some? then reverse.value else map[])
    {
      this.nodes := if nodes.Some? then nodes.value else map[];
      this.edges := if edges.Some? then edges.value else map[];
      this.reverse := if reverse.Some? then reverse.value else map[];
    }

    method AddEdge(fromId: Id, toId: Id)
      modifies this`edges, this`reverse
      ensures edges == Link(old(edges), fromId, toId)
      ensures reverse == Link(old(reverse), toId, fromId)
    {
      if fromId !in edges {
        edges := edges[fromId := {}];
      }
      edges := edges[fromId := edges[fromId] + {toId}];
      if toId !in reverse {
        reverse := reverse[toId := {}];
      }
      reverse := reverse[toId := reverse[toId] + {fromId}];
    }

    /** The loop of `build` over the scanned import pairs. */
    method AddEdges(pairs: seq<(Id, Id)>)
      modifies this`edges, this`reverse
      ensures edges == LinkAll(old(edges), pairs)
      ensures reverse == LinkAll(old(reverse), Flipped(pairs))
      ensures old(Converse(edges, reverse)) ==> Converse(edges, reverse)
    {
      ghost var flipped := Flipped(pairs);
      for i := 0 to |pairs|
        invariant edges == LinkAll(old(edges), pairs[..i])
        invariant reverse == LinkAll(old(reverse), flipped[..i])
      {
        AddEdge(pairs[i].0, pairs[i].1);
        assert pairs[..i + 1][..i] == pairs[..i] && flipped[..i + 1][..i] == flipped[..i];
      }
      assert pairs[..|pairs|] == pairs && flipped[..|pairs|] == flipped;
      if old(Converse(edges, reverse)) {
        RunKeepsConverse(old(edges), old(reverse), pairs);
      }
    }

    /** The nodes of one domain, or all of them when no domain (or the empty one) is given. */
    function Relevant(domain: Option<string>): (r: set<Id>)
      reads this
      ensures forall x :: x in r <==> x in nodes && (domain == None || domain == Some("") || domain == Some(nodes[x].domain))
    {
      if domain.Some? && domain.value != "" then set x | x in nodes && nodes[x].domain == domain.value
      else nodes.Keys
    }

    /** A node of the graph, and of the domain if one is asked for. */
    ghost predicate InDomain(domain: Option<string>, x: Id)
      reads this
    {
      x in nodes && (domain.None? || domain.value == "" || nodes[x].domain == domain.value)
    }

    method DetectCycles(domain: Option<string>, order: seq<Id>, lists: map<Id, seq<Id>>) returns (cycles: seq<seq<Id>>)
      requires Enumerates(order, lists, Relevant(domain), edges)
      ensures CycleReport(Digraph(Relevant(domain), lists), cycles) && Distinct(cycles)
      ensures forall c, x :: c in cycles && x in c ==> InDomain(domain, x)
      ensures forall c :: c in cycles ==> FollowsEdges(edges, c)
    {
      hide CutsEveryCycle, ClosedOnce, Digraph.Cyclic;
      cycles := CycleDetection.DetectCycles(order, lists);
      var g := Digraph(Relevant(domain), lists);
      NoCycleTwice(g, cycles);
      forall c | c in cycles ensures FollowsEdges(edges, c) && forall x :: x in c ==> InDomain(domain, x) {
        CycleStaysInDomain(g, edges, c);
      }
    }

    /** As coded, an id comes after every id that has an edge to it; the marker carries the left-over
        ids together with the reported cycles, of which there is then at least one. */
    method TopologicalSort(domain: Option<string>, order: seq<Id>, lists: map<Id, seq<Id>>)
      returns (result: seq<SortEntry>)
      requires Enumerates(order, lists, Relevant(domain), edges)
      ensures exists emitted, remaining, cycles ::
        SortResult(Digraph(Relevant(domain), lists), order, result, emitted, remaining, cycles)
      ensures forall x :: ListedIn(result, x) <==> InDomain(domain, x)
    {
      hide KahnSort.KahnResult, CycleReport;
      var emitted, remaining := KahnSort.Sort(order, lists);
      result := seq(|emitted|, i requires 0 <= i < |emitted| => SortEntry.Emitted(emitted[i]));
      var cycles := [];
      if remaining != [] {
        cycles := DetectCycles(domain, order, lists);
        result := result + [CycleMarker(remaining, cycles)];
      }
      SelectDistinct(order, v => v !in emitted);
      assert SortResult(Digraph(Relevant(domain), lists), order, result, emitted, remaining, cycles);
      ListsAllNodes(Digraph(Relevant(domain), lists), order, result, emitted, remaining, cycles);
    }

    /** The levels of what depends on `id`, down to `depth`: the listing of some walk from it. */
    method ImpactAnalysis(id: Id, depth: int) returns (levels: map<int, seq<Node>>)
      ensures exists trace :: ImpactResult(nodes, reverse, id, depth, levels, trace)
    {
      hide StackOk, DistinctIds, CalledAt, SeenBy, Listing;
      var walk := new ImpactWalk(nodes, reverse, id, depth);
      walk.Collect(id, 0, []);
      levels := walk.levels;
      assert ImpactResult(nodes, reverse, id, depth, levels, walk.trace);
    }
  }

  /** The ids left over are listed once each, in the order of `order`. */
  ghost predicate SortResult(g: Digraph, order: seq<Id>, result: seq<SortEntry>, emitted: seq<Id>, remaining: seq<Id>,
                             cycles: seq<seq<Id>>) {
    && KahnSort.KahnResult(g, emitted, remaining)
    && Distinct(remaining) && remaining == Select(order, v => v !in emitted)
    && |result| == |emitted| + (if remaining == [] then 0 else 1)
    && (forall i :: 0 <= i < |emitted| ==> result[i] == SortEntry.Emitted(emitted[i]))
    && (remaining != [] ==> result[|emitted|] == CycleMarker(remaining, cycles) && CycleReport(g, cycles))
  }

  ghost predicate ListedIn(result: seq<SortEntry>, x: Id) {
    exists i :: 0 <= i < |result| &&
      (result[i] == SortEntry.Emitted(x) || (result[i].CycleMarker? && x in result[i].remaining))
  }

  lemma ListsAllNodes(g: Digraph, order: seq<Id>, result: seq<SortEntry>, emitted: seq<Id>, remaining: seq<Id>, cycles: seq<seq<Id>>)
    requires SortResult(g, order, result, emitted, remaining, cycles)
    ensures forall x :: ListedIn(result, x) <==> x in g.nodes
  {
    hide CycleReport, Digraph.Cyclic, Digraph.ReachedFromCycle, KahnSort.SourcesFirst, KahnSort.ByDepth;
    forall x ensures ListedIn(result, x) <==> x in g.nodes {
      if x in emitted {
        var i :| 0 <= i < |emitted| && emitted[i] == x;
        assert result[i] == SortEntry.Emitted(x) && x in Elements(emitted);
      } else if x in g.nodes {
        assert x in remaining;
        assert result[|emitted|].CycleMarker?;
      }
      if i :| 0 <= i < |result| && (result[i] == SortEntry.Emitted(x) || (result[i].CycleMarker? && x in result[i].remaining)) {
        if i < |emitted| {
          assert emitted[i] in Elements(emitted);
        } else {
          assert x in remaining;
        }
      }
    }
  }

  /** The marker always comes with cycles, and these account for every id it lists. */
  lemma MarkerCarriesItsCycles(g: Digraph, order: seq<Id>, result: seq<SortEntry>, emitted: seq<Id>, remaining: seq<Id>,
                               cycles: seq<seq<Id>>)
    requires SortResult(g, order, result, emitted, remaining, cycles)
    ensures |result| > |emitted| <==> g.Cyclic()
    ensures |result| > |emitted| ==> cycles != []
    ensures |result| > |emitted| ==> forall v :: v in remaining <==> CycleAgreement.BehindReport(g, cycles, v)
  {
    if remaining != [] {
      CycleAgreement.RemainingLieBehindReport(g, cycles, emitted, remaining);
    }
  }
}
