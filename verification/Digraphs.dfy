/** Directed graphs given by a node set and adjacency lists.  An adjacency list may repeat a
    target and may name ids outside the node set; the latter are not edges. */
module Digraphs {
  import opened Sequences

  type Id = string

  datatype Digraph = Digraph(nodes: set<Id>, succ: map<Id, seq<Id>>)
  {
    function Successors(u: Id): seq<Id> {
      if u in succ then succ[u] else []
    }

    predicate Edge(u: Id, v: Id) {
      u in nodes && v in nodes && v in Successors(u)
    }

    ghost predicate StepAt(p: seq<Id>, i: int) {
      0 < i < |p| && Edge(p[i - 1], p[i])
    }

    ghost predicate IsWalk(p: seq<Id>) {
      && |p| > 0
      && (forall i :: 0 <= i < |p| ==> p[i] in nodes)
      && (forall i :: 0 < i < |p| ==> StepAt(p, i))
    }

    /** A closed walk, written without repeating its first node at the end. */
    ghost predicate IsCycle(c: seq<Id>) {
      IsWalk(c) && Edge(c[|c| - 1], c[0])
    }

    ghost predicate IsElementaryCycle(c: seq<Id>) {
      IsCycle(c) && Distinct(c)
    }

    ghost predicate Cyclic() {
      exists c :: IsCycle(c)
    }

    ghost predicate ReachedFromCycle(v: Id) {
      exists c, p :: IsCycle(c) && IsWalk(p) && p[0] == c[0] && p[|p| - 1] == v
    }
  }

  /** Some cycle in `cycles` starts at `v` and ends at `u`, that is, it closes with the edge u -> v. */
  ghost predicate Closes(cycles: seq<seq<Id>>, u: Id, v: Id) {
    exists c :: c in cycles && |c| > 0 && c[|c| - 1] == u && c[0] == v
  }

  /** The closed walk `c` goes from `u` to `v` in one step. */
  ghost predicate HasStep(c: seq<Id>, u: Id, v: Id) {
    exists i :: 0 <= i < |c| && c[i] == u && c[if i + 1 == |c| then 0 else i + 1] == v
  }

  /** Every directed cycle of the graph uses the closing edge of some listed cycle: dropping the
      closing edges of `cycles` leaves an acyclic graph. */
  ghost predicate CutsEveryCycle(g: Digraph, cycles: seq<seq<Id>>) {
    forall c {:trigger UsesClosingEdge(c, cycles)} :: g.IsCycle(c) ==> UsesClosingEdge(c, cycles)
  }

  ghost predicate UsesClosingEdge(c: seq<Id>, cycles: seq<seq<Id>>) {
    exists u, v :: HasStep(c, u, v) && Closes(cycles, u, v)
  }

  /** How many of the cycles close with the edge u -> v. */
  function Closings(cycles: seq<seq<Id>>, u: Id, v: Id): nat {
    if cycles == [] then 0
    else
      var c := cycles[|cycles| - 1];
      Closings(cycles[..|cycles| - 1], u, v) + (if |c| > 0 && c[|c| - 1] == u && c[0] == v then 1 else 0)
  }

  /** No closing edge is reported more often, nor less often, than the graph lists it. */
  ghost predicate ClosedOnce(g: Digraph, cycles: seq<seq<Id>>, u: Id) {
    forall v {:trigger Closings(cycles, u, v)} ::
      Closings(cycles, u, v) == 0 || Closings(cycles, u, v) == multiset(g.Successors(u))[v]
  }

  /** What cycle detection promises: genuine elementary cycles, enough of them to cut every cycle,
      some exactly when there is a cycle at all, and none twice for the same listed edge. */
  ghost predicate CycleReport(g: Digraph, cycles: seq<seq<Id>>) {
    && (forall c :: c in cycles ==> g.IsElementaryCycle(c))
    && CutsEveryCycle(g, cycles)
    && (cycles != [] <==> g.Cyclic())
    && (forall u :: ClosedOnce(g, cycles, u))
  }

  /** Where no successor is listed twice, at most one cycle is reported for an edge, and so none twice. */
  lemma NoCycleTwice(g: Digraph, cycles: seq<seq<Id>>)
    requires CycleReport(g, cycles) && forall u :: u in g.succ ==> Distinct(g.succ[u])
    ensures Distinct(cycles)
  {
    forall i, j | 0 <= i < j < |cycles| ensures cycles[i] != cycles[j] {
      var c := cycles[i];
      assert cycles[i] in cycles && g.IsElementaryCycle(c);
      if cycles[i] == cycles[j] {
        var u, v := c[|c| - 1], c[0];
        ClosingsOfTwo(cycles, i, j, u, v);
        assert ClosedOnce(g, cycles, u);
        AtMostOnce(g.Successors(u), v);
        assert false;
      }
    }
  }

  lemma {:induction false} ClosingsOfOne(cycles: seq<seq<Id>>, i: nat, u: Id, v: Id)
    requires i < |cycles| && |cycles[i]| > 0 && cycles[i][|cycles[i]| - 1] == u && cycles[i][0] == v
    ensures Closings(cycles, u, v) >= 1
  {
    if i < |cycles| - 1 {
      ClosingsOfOne(cycles[..|cycles| - 1], i, u, v);
    }
  }

  lemma {:induction false} ClosingsOfTwo(cycles: seq<seq<Id>>, i: nat, j: nat, u: Id, v: Id)
    requires i < j < |cycles| && cycles[i] == cycles[j]
    requires |cycles[i]| > 0 && cycles[i][|cycles[i]| - 1] == u && cycles[i][0] == v
    ensures Closings(cycles, u, v) >= 2
  {
    if j < |cycles| - 1 {
      ClosingsOfTwo(cycles[..|cycles| - 1], i, j, u, v);
    } else {
      ClosingsOfOne(cycles[..|cycles| - 1], i, u, v);
    }
  }

  lemma {:induction false} AtMostOnce(s: seq<Id>, x: Id)
    requires Distinct(s)
    ensures multiset(s)[x] <= 1
  {
    if s != [] {
      var n := |s| - 1;
      AtMostOnce(s[..n], x);
      assert s == s[..n] + [s[n]];
      assert s[n] !in s[..n];
    }
  }

  /** Ranks fall along every edge that no listed cycle closes. */
  ghost predicate Ranks(g: Digraph, cycles: seq<seq<Id>>, rank: map<Id, nat>) {
    && rank.Keys == g.nodes
    && forall u, v :: g.Edge(u, v) ==> rank[v] < rank[u] || Closes(cycles, u, v)
  }

  lemma {:induction false} RankFallsAlong(g: Digraph, cycles: seq<seq<Id>>, rank: map<Id, nat>, c: seq<Id>, n: nat)
    requires Ranks(g, cycles, rank) && g.IsCycle(c) && n < |c|
    requires forall u, v :: HasStep(c, u, v) ==> !Closes(cycles, u, v)
    ensures rank[c[n]] + n <= rank[c[0]]
  {
    if n > 0 {
      RankFallsAlong(g, cycles, rank, c, n - 1);
      assert g.StepAt(c, n);
      assert HasStep(c, c[n - 1], c[n]) by {
        assert c[if n - 1 + 1 == |c| then 0 else n - 1 + 1] == c[n];
      }
    }
  }

  lemma RanksCutEveryCycle(g: Digraph, cycles: seq<seq<Id>>, rank: map<Id, nat>)
    requires Ranks(g, cycles, rank)
    ensures CutsEveryCycle(g, cycles)
  {
    forall c | g.IsCycle(c) ensures UsesClosingEdge(c, cycles) {
      if forall u, v :: HasStep(c, u, v) ==> !Closes(cycles, u, v) {
        var n := |c| - 1;
        RankFallsAlong(g, cycles, rank, c, n);
        assert false;
      }
    }
  }

  /** `pred` names, for every node of `stuck`, a predecessor in `stuck`. */
  ghost predicate PredecessorsWithin(g: Digraph, stuck: set<Id>, pred: Id -> Id) {
    forall v {:trigger pred(v)} :: v in stuck ==> pred(v) in stuck && g.Edge(pred(v), v)
  }

  lemma WalkPrefix(g: Digraph, p: seq<Id>, k: nat)
    requires g.IsWalk(p) && k < |p|
    ensures g.IsWalk(p[..k + 1])
  {
    var q := p[..k + 1];
    forall i | 0 < i < |q| ensures g.StepAt(q, i) {
      assert g.StepAt(p, i);
    }
  }

  lemma WalkFromRepeatedNode(g: Digraph, p: seq<Id>, k: nat)
    requires g.IsWalk(p) && k < |p| && g.Edge(p[k], p[0])
    ensures g.ReachedFromCycle(p[|p| - 1])
  {
    var c := p[..k + 1];
    WalkPrefix(g, p, k);
    assert g.IsCycle(c) && p[0] == c[0];
  }

  lemma WalkExtendsBackwards(g: Digraph, u: Id, p: seq<Id>)
    requires g.IsWalk(p) && g.Edge(u, p[0])
    ensures g.IsWalk([u] + p)
  {
    var q := [u] + p;
    forall i | 0 < i < |q| ensures g.StepAt(q, i) {
      if i > 1 {
        assert g.StepAt(p, i - 1);
      }
    }
  }

  /** Where every member has a predecessor, there is a cycle behind every member.
      `p` is a walk already built backwards from its last node. */
  lemma {:induction false} CycleBehind(g: Digraph, stuck: set<Id>, pred: Id -> Id, p: seq<Id>)
    requires PredecessorsWithin(g, stuck, pred)
    requires g.IsWalk(p) && Distinct(p) && forall x :: x in p ==> x in stuck
    ensures g.ReachedFromCycle(p[|p| - 1])
    decreases |stuck| - |p|
  {
    var u := pred(p[0]);
    if u in p {
      var k :| 0 <= k < |p| && p[k] == u;
      WalkFromRepeatedNode(g, p, k);
    } else {
      var q := [u] + p;
      assert q[|q| - 1] == p[|p| - 1];
      assert |p| < |stuck| by { DistinctFits(q, stuck); }
      assert g.IsWalk(q) by { WalkExtendsBackwards(g, u, p); }
      CycleBehind(g, stuck, pred, q);
    }
  }
}
