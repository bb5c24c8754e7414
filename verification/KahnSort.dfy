/** Kahn's in-degree sort, with the nodes it cannot order left over. */
module KahnSort {
  import opened Sequences
  import opened Digraphs

  /** How many edges, counted with repetition, lead into `v` from the listed nodes outside `skip`. */
  ghost function Pending(order: seq<Id>, skip: set<Id>, edges: map<Id, seq<Id>>, v: Id): nat
  {
    if order == [] then 0
    else (if order[0] in skip || order[0] !in edges then 0 else multiset(edges[order[0]])[v])
         + Pending(order[1..], skip, edges, v)
  }

  /** Skipping one more node takes exactly its edges out of the count. */
  lemma {:induction false} PendingWithout(order: seq<Id>, skip: set<Id>, edges: map<Id, seq<Id>>, u: Id, v: Id)
    requires Distinct(order) && u !in skip
    ensures Pending(order, skip, edges, v) == Pending(order, skip + {u}, edges, v)
              + (if u in order && u in edges then multiset(edges[u])[v] else 0)
  {
    if order != [] {
      PendingWithout(order[1..], skip, edges, u, v);
      assert u in order <==> u == order[0] || u in order[1..];
      assert u == order[0] ==> u !in order[1..];
    }
  }

  lemma {:induction false} PendingFrom(order: seq<Id>, skip: set<Id>, edges: map<Id, seq<Id>>, u: Id, v: Id)
    requires u in order && u !in skip && u in edges && v in edges[u]
    ensures Pending(order, skip, edges, v) > 0
  {
    if order[0] != u {
      PendingFrom(order[1..], skip, edges, u, v);
    }
  }

  /** A positive count has a node to show for it. */
  lemma {:induction false} PendingSource(order: seq<Id>, skip: set<Id>, edges: map<Id, seq<Id>>, v: Id) returns (u: Id)
    requires Pending(order, skip, edges, v) > 0
    ensures u in order && u !in skip && u in edges && v in edges[u]
  {
    if order[0] !in skip && order[0] in edges && v in edges[order[0]] {
      u := order[0];
    } else {
      u := PendingSource(order[1..], skip, edges, v);
    }
  }

  lemma {:induction false} PendingNone(order: seq<Id>, skip: set<Id>, edges: map<Id, seq<Id>>, v: Id)
    requires forall u :: u in order && u in edges ==> u in skip
    ensures Pending(order, skip, edges, v) == 0
  {
    if order != [] {
      PendingNone(order[1..], skip, edges, v);
    }
  }

  /** Every count in the table is the number of pending edges. */
  ghost predicate Counts(order: seq<Id>, skip: set<Id>, edges: map<Id, seq<Id>>, degree: map<Id, int>) {
    degree.Keys == Elements(order) && forall v :: v in degree ==> degree[v] == Pending(order, skip, edges, v)
  }

  /** The in-degree table before any node is emitted. */
  method InDegrees(order: seq<Id>, edges: map<Id, seq<Id>>) returns (degree: map<Id, int>)
    requires Distinct(order)
    ensures Counts(order, {}, edges, degree)
  {
    hide Pending;
    degree := map x | x in order :: 0;
    var left := edges.Keys;
    forall v | v in degree ensures Pending(order, left, edges, v) == 0 {
      PendingNone(order, left, edges, v);
    }
    while left != {}
      invariant left <= edges.Keys
      invariant Counts(order, left, edges, degree)
      decreases left
    {
      var fromId :| fromId in left;
      ghost var before := degree;
      if fromId in degree {
        degree := AddTargets(edges[fromId], degree);
      }
      assert left - {fromId} + {fromId} == left;
      forall v | v in degree ensures degree[v] == Pending(order, left - {fromId}, edges, v) {
        assert before[v] == Pending(order, left, edges, v);
        PendingWithout(order, left - {fromId}, edges, fromId, v);
        assert fromId in degree <==> fromId in order;
      }
      left := left - {fromId};
    }
  }

  /** The inner loop: one more for every occurrence of a known target. */
  method AddTargets(targets: seq<Id>, degree: map<Id, int>) returns (degree': map<Id, int>)
    ensures degree'.Keys == degree.Keys
    ensures forall v :: v in degree ==> degree'[v] == degree[v] + multiset(targets)[v]
  {
    degree' := degree;
    for i := 0 to |targets|
      invariant degree'.Keys == degree.Keys
      invariant forall v :: v in degree ==> degree'[v] == degree[v] + multiset(targets[..i])[v]
    {
      var toId := targets[i];
      assert targets[..i + 1] == targets[..i] + [toId];
      if toId in degree' {
        degree' := degree'[toId := degree'[toId] + 1];
      }
    }
    assert targets[..|targets|] == targets;
  }

  /** Takes the edges of an emitted node out of the table; targets that drop to zero join the queue. */
  method Release(deps: seq<Id>, degree: map<Id, int>) returns (degree': map<Id, int>, freed: seq<Id>)
    requires forall v :: v in degree ==> degree[v] >= multiset(deps)[v]
    ensures degree'.Keys == degree.Keys
    ensures forall v :: v in degree ==> degree'[v] == degree[v] - multiset(deps)[v]
    ensures Distinct(freed)
    ensures forall v :: v in freed <==> v in degree && degree[v] > 0 && degree'[v] == 0
  {
    degree', freed := degree, [];
    for i := 0 to |deps|
      invariant degree'.Keys == degree.Keys
      invariant forall v :: v in degree ==> degree'[v] == degree[v] - multiset(deps[..i])[v]
      invariant Distinct(freed)
      invariant forall v :: v in freed <==> v in degree && degree[v] > 0 && degree'[v] == 0
    {
      var dep := deps[i];
      assert deps == deps[..i] + [dep] + deps[i + 1..];
      assert deps[..i + 1] == deps[..i] + [dep];
      if dep in degree' {
        degree' := degree'[dep := degree'[dep] - 1];
        if degree'[dep] == 0 {
          freed := freed + [dep];
        }
      }
    }
    assert deps[..|deps|] == deps;
  }

  /** Every edge into an emitted node comes from a node emitted strictly earlier. */
  ghost predicate SourcesFirst(g: Digraph, emitted: seq<Id>) {
    forall i, u :: 0 <= i < |emitted| && g.Edge(u, emitted[i]) ==> u in emitted[..i]
  }

  /** Between turns of the main loop: the table counts the edges from nodes not yet emitted, and the
      zero entries are the nodes emitted or queued. */
  ghost predicate Sorting(order: seq<Id>, edges: map<Id, seq<Id>>, degree: map<Id, int>, result: seq<Id>, queue: seq<Id>) {
    && Counts(order, Elements(result), edges, degree)
    && Distinct(result + queue)
    && (forall v :: v in result + queue <==> v in degree && degree[v] == 0)
  }

  /** A node with count zero has all its sources emitted. */
  lemma NothingPending(order: seq<Id>, edges: map<Id, seq<Id>>, degree: map<Id, int>, result: seq<Id>, u: Id, v: Id)
    requires Counts(order, Elements(result), edges, degree) && v in degree && degree[v] == 0
    requires Digraph(Elements(order), edges).Edge(u, v)
    ensures u in result
  {
    if u !in result {
      assert u in order && u !in Elements(result);
      PendingFrom(order, Elements(result), edges, u, v);
    }
  }

  lemma EmittedFit(order: seq<Id>, edges: map<Id, seq<Id>>, degree: map<Id, int>, result: seq<Id>, queue: seq<Id>)
    requires Sorting(order, edges, degree, result, queue)
    ensures |result| <= |Elements(order)|
  {
    assert result == (result + queue)[..|result|];
    forall v | v in result ensures v in Elements(order) {
      assert v in result + queue;
    }
    DistinctFits(result, Elements(order));
  }

  /** Emitting `node` takes its edges out of every count. */
  lemma CountsAfter(order: seq<Id>, edges: map<Id, seq<Id>>, degree: map<Id, int>, result: seq<Id>, node: Id, deps: seq<Id>, v: Id)
    requires Distinct(order) && Counts(order, Elements(result), edges, degree)
    requires node in order && node !in result && v in degree
    requires deps == if node in edges then edges[node] else []
    ensures degree[v] == Pending(order, Elements(result + [node]), edges, v) + multiset(deps)[v]
  {
    PendingWithout(order, Elements(result), edges, node, v);
    assert Elements(result) + {node} == Elements(result + [node]);
  }

  lemma HeadIsNew(result: seq<Id>, queue: seq<Id>)
    requires Distinct(result + queue) && queue != []
    ensures queue[0] !in result && queue[0] in result + queue
  {
    var all := result + queue;
    assert all[|result|] == queue[0];
    assert forall k :: 0 <= k < |result| ==> all[k] == result[k];
  }

  lemma SourcesFirstExtends(g: Digraph, result: seq<Id>, node: Id)
    requires SourcesFirst(g, result) && forall u :: g.Edge(u, node) ==> u in result
    ensures SourcesFirst(g, result + [node])
  {
    var result' := result + [node];
    forall i, u | 0 <= i < |result'| && g.Edge(u, result'[i]) ensures u in result'[..i] {
      assert i < |result| ==> result'[..i] == result[..i];
      assert i == |result| ==> result'[..i] == result;
    }
  }

  // ---------- Emission level by level ----------

  /** `level` is the length of the longest chain of edges behind a node. */
  ghost predicate LevelAt(g: Digraph, level: map<Id, nat>, v: Id) {
    && v in level
    && (forall u :: g.Edge(u, v) ==> u in level && level[u] < level[v])
    && (level[v] > 0 ==> HasSourceAt(g, level, v))
  }

  ghost predicate HasSourceAt(g: Digraph, level: map<Id, nat>, v: Id) {
    exists u :: g.Edge(u, v) && u in level && v in level && level[u] + 1 == level[v]
  }

  ghost predicate Rising(level: map<Id, nat>, all: seq<Id>) {
    && (forall x :: x in all ==> x in level)
    && forall i, j :: 0 <= i < j < |all| ==> level[all[i]] <= level[all[j]]
  }

  /** The nodes emitted or queued rise level by level, and the queue holds at most two levels. */
  ghost predicate Layered(g: Digraph, level: map<Id, nat>, result: seq<Id>, queue: seq<Id>) {
    && Rising(level, result + queue)
    && (forall x :: x in result + queue ==> LevelAt(g, level, x))
    && (forall x :: x in level ==> x in result + queue)
    && (forall x :: x in queue ==> level[x] <= level[queue[0]] + 1)
  }

  /** What becomes free with `node`: it leads there, and so does nothing that is not emitted yet. */
  ghost predicate FreedBy(g: Digraph, result: seq<Id>, node: Id, freed: seq<Id>) {
    forall v :: v in freed ==> g.Edge(node, v) && forall u :: g.Edge(u, v) ==> u in result || u == node
  }

  lemma LevelsGrow(g: Digraph, level: map<Id, nat>, level': map<Id, nat>, v: Id)
    requires LevelAt(g, level, v) && forall x :: x in level ==> x in level' && level'[x] == level[x]
    ensures LevelAt(g, level', v)
  {
    if level[v] > 0 {
      var u :| g.Edge(u, v) && u in level && v in level && level[u] + 1 == level[v];
      assert HasSourceAt(g, level', v);
    }
  }

  /** The levels after `freed` has been queued, one above `top`. */
  function Raised(level: map<Id, nat>, freed: seq<Id>, top: nat): (level': map<Id, nat>)
    ensures forall x :: x in level' <==> x in level || x in freed
    ensures forall x :: x in level' ==> level'[x] == if x in level then level[x] else top + 1
  {
    map x | x in level.Keys + Elements(freed) :: if x in level then level[x] else top + 1
  }

  lemma FreedIsLevel(g: Digraph, level: map<Id, nat>, result: seq<Id>, node: Id, freed: seq<Id>, v: Id)
    requires node in level && FreedBy(g, result, node, freed) && v in freed && v !in level
    requires forall u :: u in result ==> u in level && level[u] <= level[node]
    ensures LevelAt(g, Raised(level, freed, level[node]), v)
  {
    assert g.Edge(node, v);
    assert HasSourceAt(g, Raised(level, freed, level[node]), v);
  }

  lemma RisingAppend(level: map<Id, nat>, all: seq<Id>, freed: seq<Id>, top: nat)
    requires Rising(level, all) && (forall x :: x in all ==> level[x] <= top + 1) && forall x :: x in freed ==> x !in level
    ensures Rising(Raised(level, freed, top), all + freed)
  {
    var level', all' := Raised(level, freed, top), all + freed;
    forall i, j | 0 <= i < j < |all'| ensures level'[all'[i]] <= level'[all'[j]] {
      assert i < |all| ==> all'[i] == all[i] && all[i] in all;
      assert j < |all| ==> all'[j] == all[j] && all[j] in all;
      assert j >= |all| ==> all'[j] in freed;
    }
  }

  lemma LevelsBelowHead(level: map<Id, nat>, result: seq<Id>, queue: seq<Id>)
    requires queue != [] && Rising(level, result + queue)
    ensures queue[0] in level && forall u :: u in result ==> u in level && level[u] <= level[queue[0]]
    ensures forall x :: x in queue ==> x in level && level[x] >= level[queue[0]]
  {
    var all := result + queue;
    assert all[|result|] == queue[0];
    forall u | u in result ensures u in level && level[u] <= level[queue[0]] {
      var i :| 0 <= i < |result| && result[i] == u;
      assert all[i] == u && u in all;
    }
    forall x | x in queue ensures x in level && level[x] >= level[queue[0]] {
      var i :| 0 <= i < |queue| && queue[i] == x;
      assert all[|result| + i] == x;
    }
  }

  lemma EmitKeepsLayers(g: Digraph, level: map<Id, nat>, result: seq<Id>, queue: seq<Id>, freed: seq<Id>) returns (level': map<Id, nat>)
    requires queue != [] && Layered(g, level, result, queue) && FreedBy(g, result, queue[0], freed)
    requires forall v :: v in freed ==> v !in result + queue
    ensures Layered(g, level', result + [queue[0]], queue[1..] + freed)
  {
    var node, all := queue[0], result + queue;
    LevelsBelowHead(level, result, queue);
    level' := Raised(level, freed, level[node]);
    var result', queue' := result + [node], queue[1..] + freed;
    assert result' + queue' == all + freed;
    RisingAppend(level, all, freed, level[node]);
    hide Rising, LevelAt, FreedBy;
    forall v | v in all + freed ensures LevelAt(g, level', v) {
      if v in all {
        LevelsGrow(g, level, level', v);
      } else {
        FreedIsLevel(g, level, result, node, freed, v);
      }
    }
    forall x | x in queue' ensures level'[x] <= level'[queue'[0]] + 1 {
      assert queue'[0] in queue' && (queue'[0] in queue || queue'[0] in freed);
    }
  }

  ghost predicate WalkTo(g: Digraph, p: seq<Id>, v: Id) {
    g.IsWalk(p) && p[|p| - 1] == v
  }

  /** To no walk that ends at `u` does `v` lack one at least as long. */
  ghost predicate NoDeeper(g: Digraph, u: Id, v: Id) {
    forall p :: WalkTo(g, p, u) ==> exists q :: WalkTo(g, q, v) && |q| >= |p|
  }

  /** Nodes come in the order of the longest chain of edges that leads to them. */
  ghost predicate ByDepth(g: Digraph, emitted: seq<Id>) {
    forall i, j :: 0 <= i < j < |emitted| ==> NoDeeper(g, emitted[i], emitted[j])
  }

  lemma {:induction false} WalkBelowLevel(g: Digraph, level: map<Id, nat>, p: seq<Id>, v: Id)
    requires forall x :: x in level ==> LevelAt(g, level, x)
    requires WalkTo(g, p, v) && v in level
    ensures |p| <= level[v] + 1
  {
    var n := |p| - 1;
    if n > 0 {
      assert g.StepAt(p, n) && LevelAt(g, level, v);
      WalkPrefix(g, p, n - 1);
      assert p[..n][n - 1] == p[n - 1];
      WalkBelowLevel(g, level, p[..n], p[n - 1]);
    }
  }

  lemma {:induction false} WalkOfLevel(g: Digraph, level: map<Id, nat>, v: Id) returns (q: seq<Id>)
    requires forall x :: x in level ==> LevelAt(g, level, x)
    requires v in level && v in g.nodes
    ensures WalkTo(g, q, v) && |q| == level[v] + 1
    decreases level[v]
  {
    assert LevelAt(g, level, v);
    if level[v] == 0 {
      q := [v];
    } else {
      assert HasSourceAt(g, level, v);
      var u :| g.Edge(u, v) && u in level && v in level && level[u] + 1 == level[v];
      var p := WalkOfLevel(g, level, u);
      q := p + [v];
      forall i | 0 < i < |q| ensures g.StepAt(q, i) {
        if i < |p| {
          assert g.StepAt(p, i);
        }
      }
    }
  }

  lemma RisingIsByDepth(g: Digraph, level: map<Id, nat>, emitted: seq<Id>)
    requires Layered(g, level, emitted, []) && Elements(emitted) <= g.nodes
    ensures ByDepth(g, emitted)
  {
    assert emitted + [] == emitted;
    hide LevelAt;
    forall i, j | 0 <= i < j < |emitted| ensures NoDeeper(g, emitted[i], emitted[j]) {
      var u, v := emitted[i], emitted[j];
      assert u in emitted && v in Elements(emitted);
      var q := WalkOfLevel(g, level, v);
      hide WalkTo;
      forall p | WalkTo(g, p, u) ensures exists q :: WalkTo(g, q, v) && |q| >= |p| {
        WalkBelowLevel(g, level, p, u);
      }
    }
  }

  /** Before anything is emitted the queue holds the nodes without sources, all at level zero. */
  lemma FirstLayer(g: Digraph, queue: seq<Id>) returns (level: map<Id, nat>)
    requires forall u, v :: v in queue ==> !g.Edge(u, v)
    ensures Layered(g, level, [], queue)
  {
    level := map x | x in queue :: 0;
    assert [] + queue == queue;
  }

  /** One turn of the main loop. */
  method Emit(order: seq<Id>, edges: map<Id, seq<Id>>, degree: map<Id, int>, result: seq<Id>, queue: seq<Id>)
    returns (degree': map<Id, int>, result': seq<Id>, queue': seq<Id>, ghost freed: seq<Id>)
    requires Distinct(order) && Sorting(order, edges, degree, result, queue) && queue != []
    requires SourcesFirst(Digraph(Elements(order), edges), result)
    ensures Sorting(order, edges, degree', result', queue') && result' == result + [queue[0]]
    ensures SourcesFirst(Digraph(Elements(order), edges), result')
    ensures queue' == queue[1..] + freed && FreedBy(Digraph(Elements(order), edges), result, queue[0], freed)
    ensures forall v :: v in freed ==> v !in result + queue
  {
    var node := queue[0];
    HeadIsNew(result, queue);
    result' := result + [node];
    var deps := if node in edges then edges[node] else [];
    forall v | v in degree ensures degree[v] == Pending(order, Elements(result'), edges, v) + multiset(deps)[v] {
      CountsAfter(order, edges, degree, result, node, deps, v);
    }
    var released;
    degree', released := Release(deps, degree);
    queue' := queue[1..] + released;
    freed := released;
    assert result' + queue' == (result + queue) + freed;
    DistinctConcat(result + queue, freed);
    forall u | Digraph(Elements(order), edges).Edge(u, node) ensures u in result {
      NothingPending(order, edges, degree, result, u, node);
    }
    SourcesFirstExtends(Digraph(Elements(order), edges), result, node);
    FreedAreFree(order, edges, degree', result, node, freed);
    hide FreedBy, SourcesFirst, Pending;
  }

  lemma FreedAreFree(order: seq<Id>, edges: map<Id, seq<Id>>, degree: map<Id, int>, result: seq<Id>, node: Id, freed: seq<Id>)
    requires Counts(order, Elements(result + [node]), edges, degree) && node in order
    requires forall v :: v in freed ==> v in degree && degree[v] == 0 && node in edges && v in edges[node]
    ensures FreedBy(Digraph(Elements(order), edges), result, node, freed)
  {
    forall u, v | v in freed && Digraph(Elements(order), edges).Edge(u, v) ensures u in result || u == node {
      NothingPending(order, edges, degree, result + [node], u, v);
    }
    hide Pending;
  }

  /** Following a walk back from an emitted node leads to ever earlier emitted nodes. */
  lemma {:induction false} EmittedBackAlong(g: Digraph, emitted: seq<Id>, p: seq<Id>, k: nat, i: nat) returns (j: nat)
    requires SourcesFirst(g, emitted) && g.IsWalk(p) && k < |p| && i < |emitted| && emitted[i] == p[k]
    ensures j <= i && emitted[j] == p[0]
  {
    if k == 0 {
      j := i;
    } else {
      assert g.StepAt(p, k);
      assert p[k - 1] in emitted[..i];
      var i' :| 0 <= i' < i && emitted[i'] == p[k - 1];
      j := EmittedBackAlong(g, emitted, p, k - 1, i');
    }
  }

  lemma NoCycleEmitted(g: Digraph, emitted: seq<Id>, c: seq<Id>)
    requires SourcesFirst(g, emitted) && Distinct(emitted) && g.IsCycle(c)
    ensures c[0] !in emitted
  {
    if c[0] in emitted {
      var i :| 0 <= i < |emitted| && emitted[i] == c[0];
      assert c[|c| - 1] in emitted[..i];
      var i' :| 0 <= i' < i && emitted[i'] == c[|c| - 1];
      var j := EmittedBackAlong(g, emitted, c, |c| - 1, i');
      assert false;
    }
  }

  lemma ReachedFromCycleNotEmitted(g: Digraph, emitted: seq<Id>, v: Id)
    requires SourcesFirst(g, emitted) && Distinct(emitted) && g.ReachedFromCycle(v)
    ensures v in g.nodes && v !in emitted
  {
    var c, p :| g.IsCycle(c) && g.IsWalk(p) && p[0] == c[0] && p[|p| - 1] == v;
    NoCycleEmitted(g, emitted, c);
    if v in emitted {
      var i :| 0 <= i < |emitted| && emitted[i] == v;
      var j := EmittedBackAlong(g, emitted, p, |p| - 1, i);
      assert false;
    }
  }

  ghost predicate HasSource(g: Digraph, stuck: set<Id>, v: Id) {
    exists u :: u in stuck && g.Edge(u, v)
  }

  ghost function SourceIn(g: Digraph, stuck: set<Id>, v: Id): (u: Id)
    ensures HasSource(g, stuck, v) ==> u in stuck && g.Edge(u, v)
  {
    if HasSource(g, stuck, v) then var u :| u in stuck && g.Edge(u, v); u else v
  }

  lemma NotEmittedReachedFromCycle(g: Digraph, stuck: set<Id>, v: Id)
    requires v in stuck && stuck <= g.nodes
    requires forall x {:trigger HasSource(g, stuck, x)} :: x in stuck ==> HasSource(g, stuck, x)
    ensures g.ReachedFromCycle(v)
  {
    var pred := x => SourceIn(g, stuck, x);
    forall x {:trigger pred(x)} | x in stuck ensures pred(x) in stuck && g.Edge(pred(x), x) {
      assert HasSource(g, stuck, x);
    }
    assert PredecessorsWithin(g, stuck, pred);
    CycleBehind(g, stuck, pred, [v]);
  }

  /** What the sort promises about its two output lists. */
  ghost predicate KahnResult(g: Digraph, emitted: seq<Id>, remaining: seq<Id>) {
    SourcesFirstThenStuck(g, emitted, remaining) && ByDepth(g, emitted)
  }

  ghost predicate SourcesFirstThenStuck(g: Digraph, emitted: seq<Id>, remaining: seq<Id>) {
    && Distinct(emitted) && Elements(emitted) <= g.nodes
    && SourcesFirst(g, emitted)
    && (forall v {:trigger v in remaining} :: v in remaining <==> v in g.nodes && v !in emitted)
    && (forall v {:trigger g.ReachedFromCycle(v)} :: v in remaining <==> g.ReachedFromCycle(v))
    && (remaining != [] <==> g.Cyclic())
  }

  lemma RemainderMeansCycle(g: Digraph, remaining: seq<Id>)
    requires forall v {:trigger g.ReachedFromCycle(v)} :: v in remaining <==> g.ReachedFromCycle(v)
    ensures remaining != [] <==> g.Cyclic()
  {
    if remaining != [] {
      assert g.ReachedFromCycle(remaining[0]);
    }
    if g.Cyclic() {
      var c :| g.IsCycle(c);
      assert g.IsWalk([c[0]]) && g.ReachedFromCycle(c[0]);
    }
  }

  lemma StuckExactlyBehindCycles(order: seq<Id>, edges: map<Id, seq<Id>>, degree: map<Id, int>, emitted: seq<Id>, remaining: seq<Id>)
    requires Sorting(order, edges, degree, emitted, []) && SourcesFirst(Digraph(Elements(order), edges), emitted)
    requires forall v :: v in remaining <==> v in order && v !in emitted
    ensures SourcesFirstThenStuck(Digraph(Elements(order), edges), emitted, remaining)
  {
    hide Digraph.ReachedFromCycle, Digraph.Cyclic, SourcesFirst;
    var g := Digraph(Elements(order), edges);
    assert emitted + [] == emitted;
    var stuck := g.nodes - Elements(emitted);
    forall x | x in stuck ensures HasSource(g, stuck, x) {
      var u := PendingSource(order, Elements(emitted), edges, x);
      assert u in stuck && g.Edge(u, x);
    }
    forall v | v in stuck ensures g.ReachedFromCycle(v) {
      NotEmittedReachedFromCycle(g, stuck, v);
    }
    forall v | g.ReachedFromCycle(v) ensures v in g.nodes && v !in emitted {
      ReachedFromCycleNotEmitted(g, emitted, v);
    }
    RemainderMeansCycle(g, remaining);
  }

  /** The order the documentation asks for: whatever a file imports is listed before it. */
  ghost predicate DependenciesFirst(g: Digraph, emitted: seq<Id>) {
    forall i, j :: 0 <= i < |emitted| && 0 <= j < |emitted| && g.Edge(emitted[i], emitted[j]) ==> j < i
  }

  /** The sort lists importers first, so the documented order comes out only when no edge leads to an
      emitted node: exactly when every imported file lies behind a cycle. */
  lemma DependenciesFirstExactly(g: Digraph, emitted: seq<Id>, remaining: seq<Id>)
    requires KahnResult(g, emitted, remaining)
    ensures DependenciesFirst(g, emitted) <==> (forall u, v :: g.Edge(u, v) ==> g.ReachedFromCycle(v))
  {
    hide Digraph.ReachedFromCycle, Digraph.Cyclic, ByDepth;
    if DependenciesFirst(g, emitted) {
      forall u, v | g.Edge(u, v) ensures g.ReachedFromCycle(v) {
        assert v in remaining;
      }
    }
    if forall u, v :: g.Edge(u, v) ==> g.ReachedFromCycle(v) {
      forall i, j | 0 <= i < |emitted| && 0 <= j < |emitted| && g.Edge(emitted[i], emitted[j]) ensures j < i {
        assert emitted[j] in remaining;
      }
    }
  }

  const ONE_IMPORT := Digraph({"a", "b"}, map["a" := ["b"]])

  lemma OneImportIsAcyclic()
    ensures !ONE_IMPORT.Cyclic()
  {
    assert "a" != "b";
    forall c ensures !ONE_IMPORT.IsCycle(c) {
      assert ONE_IMPORT.IsCycle(c) && |c| > 1 ==> ONE_IMPORT.StepAt(c, 1);
    }
  }

  /** Two files, one importing the other: whatever the sort returns, the importer comes first, which
      is not the documented order. */
  lemma ImporterComesFirst(emitted: seq<Id>, remaining: seq<Id>)
    requires KahnResult(ONE_IMPORT, emitted, remaining)
    ensures emitted == ["a", "b"] && !DependenciesFirst(ONE_IMPORT, emitted)
  {
    OneImportIsAcyclic();
    hide Digraph.ReachedFromCycle, Digraph.Cyclic, ByDepth;
    assert "a" != "b";
    assert "b" in ["b"] && ONE_IMPORT.Edge("a", "b");
    assert remaining == [] && "a" !in remaining && "b" !in remaining;
    assert "a" in emitted && "b" in emitted;
    var j :| 0 <= j < |emitted| && emitted[j] == "b";
    assert "a" in emitted[..j];
    DistinctFits(emitted, {"a", "b"});
    assert |{"a", "b"}| == 2;
  }

  /** The nodes in emission order and, in list order, those that were never emitted. */
  method Sort(order: seq<Id>, edges: map<Id, seq<Id>>) returns (emitted: seq<Id>, remaining: seq<Id>)
    requires Distinct(order)
    ensures KahnResult(Digraph(Elements(order), edges), emitted, remaining)
    ensures remaining == Select(order, v => v !in emitted)
  {
    var degree := InDegrees(order, edges);
    ghost var g := Digraph(Elements(order), edges);
    var isZero := v => v in degree && degree[v] == 0;
    var queue := Select(order, isZero);
    SelectDistinct(order, isZero);
    emitted := [];
    assert Elements(emitted) == {} && emitted + queue == queue;
    forall u, v | v in queue && g.Edge(u, v) ensures false {
      NothingPending(order, edges, degree, [], u, v);
    }
    ghost var level := FirstLayer(g, queue);
    hide Layered;
    while queue != []
      invariant Sorting(order, edges, degree, emitted, queue) && SourcesFirst(g, emitted)
      invariant Layered(g, level, emitted, queue)
      decreases |Elements(order)| - |emitted|
    {
      ghost var emitted0, queue0, freed := emitted, queue, [];
      degree, emitted, queue, freed := Emit(order, edges, degree, emitted, queue);
      level := EmitKeepsLayers(g, level, emitted0, queue0, freed);
      EmittedFit(order, edges, degree, emitted, queue);
    }
    assert emitted + queue == emitted;
    var isStuck := v => v in degree && degree[v] > 0;
    remaining := Select(order, isStuck);
    SelectAgrees(order, isStuck, v => v !in emitted);
    StuckExactlyBehindCycles(order, edges, degree, emitted, remaining);
    RisingIsByDepth(g, level, emitted);
  }
}
