/** Three-colour depth-first search that reports a cycle for every back edge it meets. */
module CycleDetection {
  import opened Sequences
  import opened Digraphs

  datatype Color = White | Gray | Black

  /** `path` is the chain of active calls: its nodes are the gray ones, and the parent links lead
      back along it. */
  ghost predicate OnPath(g: Digraph, color: map<Id, Color>, parent: map<Id, Id>, path: seq<Id>) {
    && color.Keys == g.nodes
    && Distinct(path)
    && (forall x :: x in path ==> x in color)
    && (forall x :: x in color ==> (color[x] == Gray <==> x in path))
    && (forall i :: 0 < i < |path| ==> LinkAt(parent, path, i) && g.StepAt(path, i))
  }

  ghost predicate LinkAt(parent: map<Id, Id>, path: seq<Id>, i: int) {
    0 < i < |path| && path[i] in parent && parent[path[i]] == path[i - 1]
  }

  /** A black node finished after the targets of its edges, except along the closed edges. */
  ghost predicate Finished(g: Digraph, color: map<Id, Color>, finish: map<Id, nat>, closed: set<(Id, Id)>) {
    && (forall x :: x in finish <==> x in color && color[x] == Black)
    && (forall x :: x in finish ==> finish[x] < |finish|)
    && (forall u, v :: u in finish && g.Edge(u, v) ==> Done(finish, closed, u, v))
  }

  ghost predicate Done(finish: map<Id, nat>, closed: set<(Id, Id)>, u: Id, v: Id) {
    (u, v) in closed || (u in finish && v in finish && finish[v] < finish[u])
  }

  /** Every reported list is an elementary cycle, and every closed edge closes a reported cycle. */
  ghost predicate Reported(g: Digraph, cycles: seq<seq<Id>>, closed: set<(Id, Id)>) {
    && (forall c :: c in cycles ==> g.IsElementaryCycle(c))
    && (forall u, v :: (u, v) in closed ==> Closes(cycles, u, v))
  }

  /** Unvisited nodes have closed nothing; a finished one has closed each of its edges never or as often
      as it is listed. */
  ghost predicate Tallied(g: Digraph, color: map<Id, Color>, cycles: seq<seq<Id>>) {
    && (forall u, v {:trigger Closings(cycles, u, v)} :: u !in color || color[u] == White ==> Closings(cycles, u, v) == 0)
    && (forall u :: u in color && color[u] == Black ==> ClosedOnce(g, cycles, u))
  }

  ghost predicate SameClosings(us: set<Id>, cycles: seq<seq<Id>>, cycles': seq<seq<Id>>) {
    forall u, v {:trigger Closings(cycles', u, v)} :: u in us ==> Closings(cycles', u, v) == Closings(cycles, u, v)
  }

  /** So far `u` has closed its edges to the nodes of the active path, and no others, once for every
      time they occur in `deps`. */
  ghost predicate ClosedAlong(cycles: seq<seq<Id>>, u: Id, path: seq<Id>, deps: seq<Id>) {
    forall v {:trigger Closings(cycles, u, v)} :: Closings(cycles, u, v) == if v in path then multiset(deps)[v] else 0
  }

  lemma ClosingsOneMore(cycles: seq<seq<Id>>, c: seq<Id>, u: Id, v: Id)
    ensures Closings(cycles + [c], u, v) ==
      Closings(cycles, u, v) + (if |c| > 0 && c[|c| - 1] == u && c[0] == v then 1 else 0)
  {
    assert (cycles + [c])[..|cycles|] == cycles;
  }

  lemma ReportKeepsTally(g: Digraph, color: map<Id, Color>, cycles: seq<seq<Id>>, c: seq<Id>, nid: Id)
    requires Tallied(g, color, cycles) && |c| > 0 && c[|c| - 1] == nid && nid in color && color[nid] == Gray
    ensures Tallied(g, color, cycles + [c])
    ensures forall us :: nid !in us ==> SameClosings(us, cycles, cycles + [c])
  {
    forall u, v ensures u != nid ==> Closings(cycles + [c], u, v) == Closings(cycles, u, v) {
      ClosingsOneMore(cycles, c, u, v);
    }
    forall u | u in color && color[u] == Black ensures ClosedOnce(g, cycles + [c], u) {
      assert ClosedOnce(g, cycles, u);
    }
  }

  lemma ClosedOneMore(cycles: seq<seq<Id>>, cycles': seq<seq<Id>>, u: Id, path: seq<Id>, deps: seq<Id>, i: nat)
    requires i < |deps| && ClosedAlong(cycles, u, path, deps[..i])
    requires forall v {:trigger Closings(cycles', u, v)} ::
      Closings(cycles', u, v) == Closings(cycles, u, v) + (if v == deps[i] && v in path then 1 else 0)
    ensures ClosedAlong(cycles', u, path, deps[..i + 1])
  {
    assert deps[..i + 1] == deps[..i] + [deps[i]];
  }

  lemma StartKeepsTally(g: Digraph, color: map<Id, Color>, cycles: seq<seq<Id>>, nid: Id, path: seq<Id>)
    requires Tallied(g, color, cycles) && nid in color && color[nid] == White
    ensures Tallied(g, color[nid := Gray], cycles) && ClosedAlong(cycles, nid, path, [])
  {
  }

  lemma EndKeepsTally(g: Digraph, color: map<Id, Color>, cycles: seq<seq<Id>>, nid: Id, path: seq<Id>)
    requires Tallied(g, color, cycles) && nid in color && ClosedAlong(cycles, nid, path, g.Successors(nid))
    ensures Tallied(g, color[nid := Black], cycles)
  {
    assert ClosedOnce(g, cycles, nid);
  }

  /** Each of the targets `deps` of `nid` inside the graph is finished or closes a cycle. */
  ghost predicate Followed(nodes: set<Id>, done: set<Id>, closed: set<(Id, Id)>, nid: Id, deps: seq<Id>) {
    forall v :: v in deps && v in nodes ==> v in done || (nid, v) in closed
  }

  lemma FollowedIsDone(g: Digraph, done: set<Id>, closed: set<(Id, Id)>, nid: Id)
    requires Followed(g.nodes, done, closed, nid, g.Successors(nid))
    ensures forall v :: g.Edge(nid, v) ==> v in done || (nid, v) in closed
  {
  }

  lemma FollowedOneMore(nodes: set<Id>, done: set<Id>, done': set<Id>, closed: set<(Id, Id)>, closed': set<(Id, Id)>,
                        nid: Id, deps: seq<Id>, i: nat)
    requires i < |deps| && done <= done' && closed <= closed'
    requires Followed(nodes, done, closed, nid, deps[..i])
    requires deps[i] in nodes ==> deps[i] in done' || (nid, deps[i]) in closed'
    ensures Followed(nodes, done', closed', nid, deps[..i + 1])
  {
  }

  lemma PathGrows(g: Digraph, color: map<Id, Color>, parent: map<Id, Id>, path: seq<Id>, nid: Id)
    requires OnPath(g, color, parent, path) && nid in color && color[nid] == White
    requires |path| > 0 ==> nid in parent && parent[nid] == path[|path| - 1] && g.Edge(path[|path| - 1], nid)
    ensures OnPath(g, color[nid := Gray], parent, path + [nid])
  {
    var path' := path + [nid];
    forall i | 0 < i < |path'| ensures LinkAt(parent, path', i) && g.StepAt(path', i) {
      if i < |path| {
        assert LinkAt(parent, path, i) && g.StepAt(path, i);
      }
    }
    assert path'[|path|] == nid;
    assert forall x :: x in path' <==> x in path || x == nid;
  }

  lemma PathShrinks(g: Digraph, color: map<Id, Color>, parent: map<Id, Id>, path: seq<Id>, nid: Id)
    requires OnPath(g, color, parent, path + [nid])
    ensures OnPath(g, color[nid := Black], parent, path)
  {
    var path' := path + [nid];
    assert path'[|path|] == nid && nid in path';
    forall i | 0 < i < |path| ensures LinkAt(parent, path, i) && g.StepAt(path, i) {
      assert LinkAt(parent, path', i) && g.StepAt(path', i);
    }
    assert forall x :: x in path' <==> x in path || x == nid;
    assert path == path'[..|path|];
    assert Distinct(path);
  }

  lemma PathKeepsParents(g: Digraph, color: map<Id, Color>, parent: map<Id, Id>, path: seq<Id>, dep: Id, nid: Id)
    requires OnPath(g, color, parent, path) && dep in color && color[dep] == White
    ensures OnPath(g, color, parent[dep := nid], path)
  {
    assert dep !in path;
    var parent' := parent[dep := nid];
    forall i | 0 < i < |path| ensures LinkAt(parent', path, i) {
      assert LinkAt(parent, path, i) && path[i] in path;
    }
  }

  lemma ReportAnother(g: Digraph, cycles: seq<seq<Id>>, closed: set<(Id, Id)>, cycle: seq<Id>)
    requires Reported(g, cycles, closed) && g.IsElementaryCycle(cycle)
    ensures Reported(g, cycles + [cycle], closed + {(cycle[|cycle| - 1], cycle[0])})
  {
  }

  lemma ClosingKeepsFinished(g: Digraph, color: map<Id, Color>, finish: map<Id, nat>, closed: set<(Id, Id)>, e: (Id, Id))
    requires Finished(g, color, finish, closed)
    ensures Finished(g, color, finish, closed + {e})
  {
  }

  lemma BlackenKeepsFinished(g: Digraph, color: map<Id, Color>, finish: map<Id, nat>, closed: set<(Id, Id)>, nid: Id)
    requires Finished(g, color, finish, closed) && nid in color && color[nid] != Black
    requires forall v :: g.Edge(nid, v) ==> v in finish || (nid, v) in closed
    ensures Finished(g, color[nid := Black], finish[nid := |finish|], closed)
  {
  }

  lemma PathFromAncestor(g: Digraph, color: map<Id, Color>, parent: map<Id, Id>, path: seq<Id>, d: nat)
    requires OnPath(g, color, parent, path) && d < |path|
    requires g.Edge(path[|path| - 1], path[d])
    ensures g.IsElementaryCycle(path[d..])
  {
    var c := path[d..];
    forall i | 0 < i < |c| ensures g.StepAt(c, i) {
      assert g.StepAt(path, d + i);
    }
  }

  /** An edge from the end of the active path back to a gray node: reporting the stretch of the path
      between them keeps everything in order. */
  lemma BackEdge(g: Digraph, color: map<Id, Color>, parent: map<Id, Id>, finish: map<Id, nat>,
                 cycles: seq<seq<Id>>, closed: set<(Id, Id)>, path: seq<Id>, dep: Id) returns (d: nat)
    requires OnPath(g, color, parent, path) && Finished(g, color, finish, closed) && Reported(g, cycles, closed)
    requires |path| > 0 && g.Edge(path[|path| - 1], dep) && dep in color && color[dep] == Gray
    ensures d < |path| && path[d] == dep && Distinct(path)
    ensures forall i :: 0 < i < |path| ==> LinkAt(parent, path, i)
    ensures Finished(g, color, finish, closed + {(path[|path| - 1], dep)})
    ensures Reported(g, cycles + [path[d..]], closed + {(path[|path| - 1], dep)})
  {
    d :| d < |path| && path[d] == dep;
    PathFromAncestor(g, color, parent, path, d);
    hide OnPath, Finished, Reported;
    ReportAnother(g, cycles, closed, path[d..]);
    ClosingKeepsFinished(g, color, finish, closed, (path[|path| - 1], dep));
  }

  lemma OnPathIsGray(g: Digraph, color: map<Id, Color>, parent: map<Id, Id>, path: seq<Id>, nid: Id)
    requires OnPath(g, color, parent, path) && nid in path
    ensures nid in color && color[nid] == Gray
  {
  }

  lemma NothingClosed(us: set<Id>, cycles: seq<seq<Id>>)
    ensures SameClosings(us, cycles, cycles)
  {
  }

  lemma SameClosingsStep(us: set<Id>, us': set<Id>, cycles: seq<seq<Id>>, cycles': seq<seq<Id>>, cycles'': seq<seq<Id>>)
    requires us <= us' && SameClosings(us, cycles, cycles') && SameClosings(us', cycles', cycles'')
    ensures SameClosings(us, cycles, cycles'')
  {
  }

  /** Collects the nodes from `nid` back to its ancestor `dep` along the parent links. */
  method CycleThrough(parent: map<Id, Id>, nid: Id, dep: Id, ghost path: seq<Id>, ghost d: nat) returns (cycle: seq<Id>)
    requires Distinct(path) && d < |path| && path[d] == dep && path[|path| - 1] == nid
    requires forall i :: 0 < i < |path| ==> LinkAt(parent, path, i)
    ensures cycle == path[d..]
  {
    ghost var k := |path| - 1;
    cycle := [];
    var cur := nid;
    while cur != dep
      invariant d <= k < |path| && path[k] == cur
      invariant Reversed(cycle) == path[k + 1..]
      decreases k
    {
      ReversedSnoc(cycle, cur);
      cycle := cycle + [cur];
      assert LinkAt(parent, path, k);
      if cur !in parent {
        assert false;  // every node of the path but the first has a parent, and `dep` comes earlier
        break;
      }
      cur := parent[cur];
      k := k - 1;
    }
    ReversedSnoc(cycle, dep);
    assert path[d..] == [dep] + path[d + 1..];
    cycle := Reversed(cycle + [dep]);
  }

  function WhiteNodes(color: map<Id, Color>): set<Id> {
    set x | x in color && color[x] == White
  }

  function BegunNodes(color: map<Id, Color>): set<Id> {
    set x | x in color && color[x] != White
  }

  lemma BlackenKeepsSets(color: map<Id, Color>, nid: Id)
    requires nid in color && color[nid] == Gray
    ensures WhiteNodes(color[nid := Black]) == WhiteNodes(color) && BegunNodes(color[nid := Black]) == BegunNodes(color)
  {
  }

  class CycleSearch {
    const graph: Digraph
    var color: map<Id, Color>
    var parent: map<Id, Id>
    var cycles: seq<seq<Id>>
    ghost var finish: map<Id, nat>        // the order in which nodes turned black
    ghost var closed: set<(Id, Id)>       // the back edges met so far

    constructor (graph: Digraph)
      ensures this.graph == graph && cycles == [] && Valid([])
    {
      this.graph := graph;
      color := map x | x in graph.nodes :: White;
      parent := map[];
      cycles := [];
      finish := map[];
      closed := {};
    }

    ghost predicate Valid(path: seq<Id>)
      reads this
    {
      && OnPath(graph, color, parent, path)
      && Finished(graph, color, finish, closed)
      && Reported(graph, cycles, closed)
      && Tallied(graph, color, cycles)
    }

    /** The nodes whose visit has begun. */
    ghost function Begun(): set<Id>
      reads this
    {
      BegunNodes(color)
    }

    ghost function Whites(): set<Id>
      reads this
    {
      WhiteNodes(color)
    }

    /** The cycle that the edge from the end of `path` to the gray node `dep` closes. */
    method ReportCycle(nid: Id, dep: Id, ghost path: seq<Id>)
      requires Valid(path) && |path| > 0 && path[|path| - 1] == nid
      requires graph.Edge(nid, dep) && dep in color && color[dep] == Gray
      modifies this`cycles, this`closed
      ensures Valid(path) && closed == old(closed) + {(nid, dep)}
      ensures exists d :: 0 <= d < |path| && path[d] == dep && cycles == old(cycles) + [path[d..]]
      ensures SameClosings(old(Begun()) - {nid}, old(cycles), cycles)
      ensures forall v {:trigger Closings(cycles, nid, v)} ::
        Closings(cycles, nid, v) == Closings(old(cycles), nid, v) + (if v == dep then 1 else 0)
    {
      OnPathIsGray(graph, color, parent, path, nid);
      hide OnPath, Finished, Reported, Tallied, Closings, SameClosings;
      ghost var d := BackEdge(graph, color, parent, finish, cycles, closed, path, dep);
      var cycle := CycleThrough(parent, nid, dep, path, d);
      ReportKeepsTally(graph, color, cycles, cycle, nid);
      forall v ensures Closings(cycles + [cycle], nid, v) == Closings(cycles, nid, v) + (if v == dep then 1 else 0) {
        ClosingsOneMore(cycles, cycle, nid, v);
      }
      cycles := cycles + [cycle];
      closed := closed + {(nid, dep)};
    }

    /** One turn of the loop in `Dfs`: follows the edge from the end of `path` to `dep`. */
    method Follow(nid: Id, dep: Id, ghost path: seq<Id>)
      requires Valid(path) && |path| > 0 && path[|path| - 1] == nid && dep in graph.Successors(nid)
      modifies this
      ensures Valid(path) && Whites() <= old(Whites())
      ensures old(finish.Keys) <= finish.Keys && old(closed) <= closed
      ensures dep in graph.nodes ==> dep in finish.Keys || (nid, dep) in closed
      ensures old(Begun()) <= Begun() && SameClosings(old(Begun()) - {nid}, old(cycles), cycles)
      ensures forall v {:trigger Closings(cycles, nid, v)} ::
        Closings(cycles, nid, v) == Closings(old(cycles), nid, v) + (if v == dep && v in path then 1 else 0)
      decreases Whites(), 1
    {
      hide Tallied, Closings;
      assert nid in path;
      if dep !in color {
        return;
      }
      if color[dep] == Gray {
        ReportCycle(nid, dep, path);
      } else if color[dep] == White {
        PathKeepsParents(graph, color, parent, path, dep, nid);
        parent := parent[dep := nid];
        Dfs(dep, path);
      }
    }

    /** Visits `nid` and everything white that it leads to. */
    method Dfs(nid: Id, ghost path: seq<Id>)
      requires Valid(path) && nid in graph.nodes && color[nid] == White
      requires |path| > 0 ==> nid in parent && parent[nid] == path[|path| - 1] && graph.Edge(path[|path| - 1], nid)
      modifies this
      ensures Valid(path) && nid in finish.Keys && Whites() < old(Whites())
      ensures old(finish.Keys) <= finish.Keys && old(closed) <= closed
      ensures old(Begun()) <= Begun() && SameClosings(old(Begun()), old(cycles), cycles)
      decreases Whites(), 0
    {
      hide OnPath, Finished, Reported, Tallied, SameClosings, ClosedAlong;
      ghost var begun, cycles0 := Begun(), cycles;
      NothingClosed(begun, cycles);
      ghost var path', whites, done0, back0 := path + [nid], Whites(), finish.Keys, closed;
      StartVisit(nid, path);
      var deps := graph.Successors(nid);
      for i := 0 to |deps|
        invariant Valid(path') && Whites() < whites && done0 <= finish.Keys && back0 <= closed
        invariant Followed(graph.nodes, finish.Keys, closed, nid, deps[..i])
        invariant begun <= Begun() && nid in Begun() && SameClosings(begun, cycles0, cycles)
        invariant ClosedAlong(cycles, nid, path', deps[..i])
      {
        ghost var done, back, begun', cycles' := finish.Keys, closed, Begun(), cycles;
        Follow(nid, deps[i], path');
        ClosedOneMore(cycles', cycles, nid, path', deps, i);
        SameClosingsStep(begun, begun' - {nid}, cycles0, cycles', cycles);
        FollowedOneMore(graph.nodes, done, finish.Keys, back, closed, nid, deps, i);
      }
      assert deps[..|deps|] == deps;
      EndVisit(nid, path);
    }

    method StartVisit(nid: Id, ghost path: seq<Id>)
      requires Valid(path) && nid in graph.nodes && color[nid] == White
      requires |path| > 0 ==> nid in parent && parent[nid] == path[|path| - 1] && graph.Edge(path[|path| - 1], nid)
      modifies this`color
      ensures Valid(path + [nid]) && Whites() < old(Whites())
      ensures Begun() == old(Begun()) + {nid} && nid !in old(Begun())
      ensures ClosedAlong(cycles, nid, path + [nid], [])
    {
      StartKeepsTally(graph, color, cycles, nid, path + [nid]);
      PathGrows(graph, color, parent, path, nid);
      assert nid in Whites();
      color := color[nid := Gray];
      assert nid !in Whites();
    }

    method EndVisit(nid: Id, ghost path: seq<Id>)
      requires Valid(path + [nid])
      requires Followed(graph.nodes, finish.Keys, closed, nid, graph.Successors(nid))
      requires ClosedAlong(cycles, nid, path + [nid], graph.Successors(nid))
      modifies this`color, this`finish
      ensures Valid(path) && Whites() == old(Whites()) && Begun() == old(Begun())
      ensures finish.Keys == old(finish.Keys) + {nid}
    {
      assert (path + [nid])[|path|] == nid;
      OnPathIsGray(graph, color, parent, path + [nid], nid);
      BlackenKeepsSets(color, nid);
      FollowedIsDone(graph, finish.Keys, closed, nid);
      hide OnPath, Finished, Reported, Tallied, ClosedAlong, Closings, Followed, WhiteNodes, BegunNodes;
      PathShrinks(graph, color, parent, path, nid);
      EndKeepsTally(graph, color, cycles, nid, path + [nid]);
      BlackenKeepsFinished(graph, color, finish, closed, nid);
      color := color[nid := Black];
      finish := finish[nid := |finish|];
    }

    method Search(order: seq<Id>)
      requires Valid([]) && Elements(order) == graph.nodes
      modifies this
      ensures Valid([]) && finish.Keys == graph.nodes
    {
      ColorsCoverNodes(graph, color, parent, finish, closed);
      hide OnPath, Finished, Reported, Tallied, WhiteNodes, BegunNodes, SameClosings;
      for i := 0 to |order|
        invariant Valid([]) && finish.Keys <= graph.nodes
        invariant Elements(order[..i]) <= finish.Keys
      {
        assert order[i] in Elements(order) && Elements(order[..i + 1]) == Elements(order[..i]) + {order[i]};
        ColorsCoverNodes(graph, color, parent, finish, closed);
        if color[order[i]] == White {
          Dfs(order[i], []);
          ColorsCoverNodes(graph, color, parent, finish, closed);
        }
      }
      assert order[..|order|] == order;
    }
  }

  /** Outside any visit a node is white or finished. */
  lemma ColorsCoverNodes(g: Digraph, color: map<Id, Color>, parent: map<Id, Id>, finish: map<Id, nat>, closed: set<(Id, Id)>)
    requires OnPath(g, color, parent, []) && Finished(g, color, finish, closed)
    ensures color.Keys == g.nodes && finish.Keys <= g.nodes
    ensures forall x :: x in g.nodes ==> color[x] == White || x in finish
  {
  }

  lemma SearchCutsEveryCycle(g: Digraph, color: map<Id, Color>, finish: map<Id, nat>, cycles: seq<seq<Id>>, closed: set<(Id, Id)>)
    requires Finished(g, color, finish, closed) && Reported(g, cycles, closed) && finish.Keys == g.nodes
    ensures CutsEveryCycle(g, cycles)
  {
    forall u, v | g.Edge(u, v) ensures finish[v] < finish[u] || Closes(cycles, u, v) {
      assert Done(finish, closed, u, v);
    }
    RanksCutEveryCycle(g, cycles, finish);
  }

  lemma ReportedExactlyWhenCyclic(g: Digraph, cycles: seq<seq<Id>>)
    requires CutsEveryCycle(g, cycles) && forall c :: c in cycles ==> g.IsElementaryCycle(c)
    ensures cycles != [] <==> g.Cyclic()
  {
    if cycles != [] {
      assert cycles[0] in cycles;
    }
    if g.Cyclic() {
      var c :| g.IsCycle(c);
      assert UsesClosingEdge(c, cycles);
    }
  }

  /** The cycles reported for the graph on the listed nodes, visited in that order. */
  method DetectCycles(order: seq<Id>, edges: map<Id, seq<Id>>) returns (cycles: seq<seq<Id>>)
    ensures CycleReport(Digraph(Elements(order), edges), cycles)
  {
    var g := Digraph(Elements(order), edges);
    var search := new CycleSearch(g);
    search.Search(order);
    cycles := search.cycles;
    SearchCutsEveryCycle(g, search.color, search.finish, cycles, search.closed);
    ReportedExactlyWhenCyclic(g, cycles);
  }
}
