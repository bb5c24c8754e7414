/** The depth-bounded walk over the reverse edge index. */
module ImpactAnalysis {
  import opened Sequences
  import opened Digraphs

  /** A node record; the graph algorithms read nothing else of it. */
  datatype Node = Node(id: Id, domain: string)

  type Index = map<Id, set<Id>>

  predicate Linked(index: Index, u: Id, v: Id) {
    u in index && v in index[u]
  }

  function Targets(index: Index, u: Id): set<Id> {
    if u in index then index[u] else {}
  }

  // ---------- The walk as a list of visits ----------

  /** One id entering the `visited` set, and the level of the call that entered it. */
  datatype Visit = Visit(id: Id, level: nat)

  function Ids(trace: seq<Visit>): (r: set<Id>)
    ensures forall x :: x in r <==> exists i :: 0 <= i < |trace| && trace[i].id == x
  {
    set i | 0 <= i < |trace| :: trace[i].id
  }

  /** The `levels` dictionary after a list of visits: a level appears with its first visit, and
      known ids are listed under it in the order of their visits. */
  function Listing(nodes: map<Id, Node>, trace: seq<Visit>): map<int, seq<Node>> {
    if trace == [] then map[]
    else
      var n := |trace| - 1;
      var earlier, v := Listing(nodes, trace[..n]), trace[n];
      var row := if v.level in earlier then earlier[v.level] else [];
      earlier[v.level := if v.id in nodes then row + [nodes[v.id]] else row]
  }

  ghost predicate DistinctIds(trace: seq<Visit>) {
    forall i, j :: 0 <= i < j < |trace| ==> trace[i].id != trace[j].id
  }

  /** Visit `j` was called from the last visit before it that is one level up. */
  ghost predicate CalledAt(reverse: Index, trace: seq<Visit>, j: int) {
    0 <= j < |trace| && exists i :: CalledFrom(reverse, trace, j, i)
  }

  ghost predicate CalledFrom(reverse: Index, trace: seq<Visit>, j: int, i: int) {
    && 0 <= i < j < |trace| && trace[i].level + 1 == trace[j].level
    && Linked(reverse, trace[i].id, trace[j].id)
    && forall m :: i < m < j ==> trace[m].level >= trace[j].level
  }

  /** By the time visit `i` returned, `y` had been visited: before it, or below it. */
  ghost predicate SeenBy(trace: seq<Visit>, i: nat, y: Id)
    requires i < |trace|
  {
    exists j :: 0 <= j < |trace| && trace[j].id == y && forall m :: i < m <= j ==> trace[m].level > trace[i].level
  }

  /** A depth-first walk from `root`, cut off below `depth`, that never enters an id twice. */
  ghost predicate WalkTrace(reverse: Index, root: Id, depth: int, trace: seq<Visit>) {
    && DistinctIds(trace)
    && (if depth < 0 then trace == [] else trace != [] && trace[0] == Visit(root, 0))
    && (forall j :: 0 < j < |trace| ==> CalledAt(reverse, trace, j) && trace[j].level <= depth)
    && (forall i: nat, y :: i < |trace| && trace[i].level < depth && Linked(reverse, trace[i].id, y) ==> SeenBy(trace, i, y))
  }

  /** What `impact_analysis` returns: the listing of such a walk. */
  ghost predicate ImpactResult(nodes: map<Id, Node>, reverse: Index, root: Id, depth: int,
                               levels: map<int, seq<Node>>, trace: seq<Visit>) {
    WalkTrace(reverse, root, depth, trace) && levels == Listing(nodes, trace)
  }

  // ---------- The walk itself ----------

  /** `stack` holds the indices of the visits still active, one a level; everything visited since
      lies below them. */
  ghost predicate StackOk(trace: seq<Visit>, stack: seq<nat>) {
    forall k :: 0 <= k < |stack| ==>
      stack[k] < |trace| && trace[stack[k]].level == k && forall m :: stack[k] < m < |trace| ==> trace[m].level > k
  }

  /** The walk so far: as above, except that active visits may have dependents still to come. */
  ghost predicate Walking(reverse: Index, root: Id, depth: int, trace: seq<Visit>, stack: seq<nat>) {
    && DistinctIds(trace) && StackOk(trace, stack)
    && (trace != [] ==> depth >= 0 && trace[0] == Visit(root, 0))
    && (forall j :: 0 < j < |trace| ==> CalledAt(reverse, trace, j) && trace[j].level <= depth)
    && (forall i: nat, y :: i < |trace| && trace[i].level < depth && i !in stack && Linked(reverse, trace[i].id, y) ==> SeenBy(trace, i, y))
  }

  /** `current` is about to be collected from the top of the stack, or as the root. */
  ghost predicate Calls(reverse: Index, root: Id, trace: seq<Visit>, stack: seq<nat>, current: Id) {
    if stack == [] then trace == [] && current == root
    else stack[|stack| - 1] < |trace| && Linked(reverse, trace[stack[|stack| - 1]].id, current)
  }

  lemma SeenByGrows(trace: seq<Visit>, v: Visit, i: nat, y: Id)
    requires i < |trace| && SeenBy(trace, i, y)
    ensures SeenBy(trace + [v], i, y)
  {
    var j :| 0 <= j < |trace| && trace[j].id == y && forall m :: i < m <= j ==> trace[m].level > trace[i].level;
    var trace' := trace + [v];
    assert trace'[j].id == y && forall m :: i < m <= j ==> trace'[m].level > trace'[i].level;
  }

  lemma CalledAtGrows(reverse: Index, trace: seq<Visit>, v: Visit, j: int)
    requires CalledAt(reverse, trace, j)
    ensures CalledAt(reverse, trace + [v], j)
  {
    var i :| CalledFrom(reverse, trace, j, i);
    assert CalledFrom(reverse, trace + [v], j, i);
  }

  lemma NewVisitIsCalled(reverse: Index, root: Id, trace: seq<Visit>, stack: seq<nat>, current: Id)
    requires StackOk(trace, stack) && Calls(reverse, root, trace, stack, current) && trace != []
    ensures CalledAt(reverse, trace + [Visit(current, |stack|)], |trace|)
  {
    var trace' := trace + [Visit(current, |stack|)];
    assert trace'[|trace|] == Visit(current, |stack|);
    assert CalledFrom(reverse, trace', |trace|, stack[|stack| - 1]);
  }

  lemma PushKeepsStack(trace: seq<Visit>, stack: seq<nat>, current: Id)
    requires StackOk(trace, stack)
    ensures StackOk(trace + [Visit(current, |stack|)], stack + [|trace|])
    ensures forall i :: i in stack + [|trace|] <==> i in stack || i == |trace|
  {
    assert forall k :: 0 <= k < |stack| ==> (stack + [|trace|])[k] == stack[k];
  }

  lemma NewVisitIsDistinct(trace: seq<Visit>, v: Visit)
    requires DistinctIds(trace) && v.id !in Ids(trace)
    ensures DistinctIds(trace + [v])
  {
    assert forall i :: 0 <= i < |trace| ==> trace[i].id in Ids(trace);
  }

  lemma VisitKeepsWalking(reverse: Index, root: Id, depth: int, trace: seq<Visit>, stack: seq<nat>, current: Id)
    requires Walking(reverse, root, depth, trace, stack) && Calls(reverse, root, trace, stack, current)
    requires current !in Ids(trace) && |stack| <= depth
    ensures Walking(reverse, root, depth, trace + [Visit(current, |stack|)], stack + [|trace|])
  {
    var v := Visit(current, |stack|);
    var trace', stack' := trace + [v], stack + [|trace|];
    NewVisitIsDistinct(trace, v);
    PushKeepsStack(trace, stack, current);
    if trace != [] {
      NewVisitIsCalled(reverse, root, trace, stack, current);
    }
    assert trace == [] ==> stack == [] && v == Visit(root, 0);
    hide StackOk, DistinctIds, CalledAt, SeenBy, Calls;
    forall j | 0 < j < |trace'| ensures CalledAt(reverse, trace', j) && trace'[j].level <= depth {
      if j < |trace| {
        CalledAtGrows(reverse, trace, v, j);
      }
    }
    forall i: nat, y | i < |trace'| && trace'[i].level < depth && i !in stack' && Linked(reverse, trace'[i].id, y)
      ensures SeenBy(trace', i, y)
    {
      SeenByGrows(trace, v, i, y);
    }
  }

  lemma PopKeepsStack(trace: seq<Visit>, stack: seq<nat>, c: nat)
    requires StackOk(trace, stack + [c])
    ensures StackOk(trace, stack) && c < |trace| && trace[c].level == |stack|
    ensures forall m :: c < m < |trace| ==> trace[m].level > trace[c].level
    ensures forall i :: i in stack + [c] <==> i in stack || i == c
  {
    var stack' := stack + [c];
    assert stack'[|stack|] == c;
    assert forall k :: 0 <= k < |stack| ==> stack'[k] == stack[k];
  }

  lemma SeenBelow(trace: seq<Visit>, c: nat, y: Id)
    requires c < |trace| && y in Ids(trace) && forall m :: c < m < |trace| ==> trace[m].level > trace[c].level
    ensures SeenBy(trace, c, y)
  {
    var j :| 0 <= j < |trace| && trace[j].id == y;
    assert forall m :: c < m <= j ==> trace[m].level > trace[c].level;
  }

  lemma ReturnKeepsWalking(reverse: Index, root: Id, depth: int, trace: seq<Visit>, stack: seq<nat>, c: nat)
    requires Walking(reverse, root, depth, trace, stack + [c]) && c < |trace|
    requires trace[c].level == depth || forall y :: Linked(reverse, trace[c].id, y) ==> y in Ids(trace)
    ensures Walking(reverse, root, depth, trace, stack)
  {
    PopKeepsStack(trace, stack, c);
    hide StackOk, DistinctIds, CalledAt, SeenBy, Ids;
    forall i: nat, y | i < |trace| && trace[i].level < depth && i !in stack && Linked(reverse, trace[i].id, y)
      ensures SeenBy(trace, i, y)
    {
      if i == c {
        SeenBelow(trace, c, y);
      }
    }
  }

  class ImpactWalk {
    const nodes: map<Id, Node>
    const reverse: Index
    const root: Id
    const depth: int
    var visited: set<Id>
    var levels: map<int, seq<Node>>
    ghost var trace: seq<Visit>

    constructor (nodes: map<Id, Node>, reverse: Index, root: Id, depth: int)
      ensures this.nodes == nodes && this.reverse == reverse && this.root == root && this.depth == depth
      ensures Valid([]) && trace == []
    {
      this.nodes, this.reverse, this.root, this.depth := nodes, reverse, root, depth;
      visited, levels, trace := {}, map[], [];
    }

    ghost predicate Valid(stack: seq<nat>)
      reads this
    {
      && visited == Ids(trace) && levels == Listing(nodes, trace)
      && Walking(reverse, root, depth, trace, stack)
    }

    method Enter(current: Id, level: nat, ghost stack: seq<nat>)
      requires Valid(stack) && Calls(reverse, root, trace, stack, current) && |stack| == level
      requires level <= depth && current !in visited
      modifies this
      ensures Valid(stack + [|old(trace)|]) && trace == old(trace) + [Visit(current, level)]
    {
      hide Walking, Calls, Listing, Ids;
      VisitKeepsWalking(reverse, root, depth, trace, stack, current);
      EnteredIds(trace, Visit(current, level));
      ListingOneMore(nodes, trace, Visit(current, level));
      visited := visited + {current};
      if level !in levels {
        levels := levels[level := []];
      }
      if current in nodes {
        levels := levels[level := levels[level] + [nodes[current]]];
      }
      trace := trace + [Visit(current, level)];
    }

    method Collect(current: Id, level: nat, ghost stack: seq<nat>)
      requires Valid(stack) && Calls(reverse, root, trace, stack, current) && |stack| == level
      modifies this
      ensures Valid(stack) && old(trace) <= trace
      ensures if level <= depth then current in visited else trace == old(trace)
      decreases if level > depth then 0 else depth - level + 1
    {
      hide Walking, Listing;
      if level > depth || current in visited {
        return;
      }
      ghost var c := |trace|;
      Enter(current, level, stack);
      ghost var stack', start := stack + [c], trace;
      var todo := Targets(reverse, current);
      while todo != {}
        invariant Valid(stack') && start <= trace
        invariant forall y :: y in Targets(reverse, current) && y !in todo ==> y in visited || level == depth
        decreases todo
      {
        var dep :| dep in todo;
        assert stack'[|stack'| - 1] == c && trace[c] == Visit(current, level);
        assert Linked(reverse, current, dep);
        Collect(dep, level + 1, stack');
        todo := todo - {dep};
      }
      assert trace[c] == Visit(current, level) && stack'[|stack|] == c;
      ReturnKeepsWalking(reverse, root, depth, trace, stack, c);
    }
  }

  lemma ListingOneMore(nodes: map<Id, Node>, trace: seq<Visit>, v: Visit)
    ensures var earlier := Listing(nodes, trace);
      var row := if v.level in earlier then earlier[v.level] else [];
      Listing(nodes, trace + [v]) == earlier[v.level := if v.id in nodes then row + [nodes[v.id]] else row]
  {
    assert (trace + [v])[..|trace|] == trace;
  }

  lemma EnteredIds(trace: seq<Visit>, v: Visit)
    ensures Ids(trace + [v]) == Ids(trace) + {v.id}
  {
    var trace' := trace + [v];
    assert trace'[|trace|] == v;
    forall x | x in Ids(trace) ensures x in Ids(trace') {
      var i :| 0 <= i < |trace| && trace[i].id == x;
      assert trace'[i].id == x;
    }
  }

  // ---------- What such a walk finds ----------

  ghost predicate LinkAt(reverse: Index, p: seq<Id>, i: int) {
    0 < i < |p| && Linked(reverse, p[i - 1], p[i])
  }

  /** Each id of `p` after the first depends directly on the one before it. */
  ghost predicate Chain(reverse: Index, p: seq<Id>) {
    |p| > 0 && forall i :: 0 < i < |p| ==> LinkAt(reverse, p, i)
  }

  /** A repeat-free chain of exactly `k` steps leads from `root` to `x`. */
  ghost predicate SimpleChain(reverse: Index, root: Id, x: Id, k: int) {
    exists p :: Chain(reverse, p) && Distinct(p) && |p| == k + 1 && p[0] == root && p[k] == x
  }

  ghost predicate Dependent(reverse: Index, root: Id, x: Id) {
    exists p :: Chain(reverse, p) && p[0] == root && p[|p| - 1] == x
  }

  predicate VisitedAt(trace: seq<Visit>, x: Id, k: int) {
    k >= 0 && Visit(x, k) in trace
  }

  lemma ChainSnoc(reverse: Index, p: seq<Id>, y: Id)
    requires Chain(reverse, p) && Linked(reverse, p[|p| - 1], y)
    ensures Chain(reverse, p + [y])
  {
    var q := p + [y];
    forall i | 0 < i < |q| ensures LinkAt(reverse, q, i) {
      if i < |p| {
        assert LinkAt(reverse, p, i);
      }
    }
  }

  /** The calls that led to visit `j`: a repeat-free chain, one id a level, made of earlier visits. */
  lemma {:induction false} CallChain(reverse: Index, root: Id, depth: int, trace: seq<Visit>, j: nat) returns (p: seq<Id>)
    requires WalkTrace(reverse, root, depth, trace) && j < |trace|
    ensures Chain(reverse, p) && Distinct(p) && |p| == trace[j].level + 1 && p[0] == root && p[trace[j].level] == trace[j].id
    ensures forall k :: 0 <= k < |p| ==> exists i :: 0 <= i <= j && trace[i] == Visit(p[k], k)
  {
    hide SeenBy;
    if j == 0 {
      p := [root];
    } else {
      assert CalledAt(reverse, trace, j);
      var i :| CalledFrom(reverse, trace, j, i);
      var q := CallChain(reverse, root, depth, trace, i);
      hide WalkTrace, CalledAt;
      assert DistinctIds(trace);
      ChainSnoc(reverse, q, trace[j].id);
      p := q + [trace[j].id];
      DistinctConcat(q, [trace[j].id]);
    }
  }

  /** The known ids visited at level `k`, in the order of their visits. */
  function RowIds(nodes: map<Id, Node>, trace: seq<Visit>, k: int): seq<Id> {
    if trace == [] then []
    else
      var n := |trace| - 1;
      RowIds(nodes, trace[..n], k) + (if trace[n].level == k && trace[n].id in nodes then [trace[n].id] else [])
  }

  function Records(nodes: map<Id, Node>, ids: seq<Id>): (r: seq<Node>)
    requires forall x :: x in ids ==> x in nodes
    ensures |r| == |ids|
  {
    seq(|ids|, i requires 0 <= i < |ids| => nodes[ids[i]])
  }

  lemma {:induction false} RowIdsAreVisited(nodes: map<Id, Node>, trace: seq<Visit>, k: int)
    requires DistinctIds(trace)
    ensures Distinct(RowIds(nodes, trace, k))
    ensures forall x :: x in RowIds(nodes, trace, k) <==> x in nodes && VisitedAt(trace, x, k)
  {
    if trace != [] {
      var n := |trace| - 1;
      var earlier := RowIds(nodes, trace[..n], k);
      RowIdsAreVisited(nodes, trace[..n], k);
      assert trace == trace[..n] + [trace[n]];
      if trace[n].level == k && trace[n].id in nodes {
        assert forall i :: 0 <= i < n ==> trace[..n][i].id != trace[n].id;
        assert trace[n].id !in earlier;
        DistinctConcat(earlier, [trace[n].id]);
      }
    }
  }

  /** Some id was visited at level `k`. */
  ghost predicate Reached(trace: seq<Visit>, k: int) {
    exists x :: VisitedAt(trace, x, k)
  }

  lemma ReachedOneMore(trace: seq<Visit>, v: Visit, k: int)
    ensures Reached(trace + [v], k) <==> Reached(trace, k) || v.level == k
  {
    if Reached(trace, k) {
      var x :| VisitedAt(trace, x, k);
      assert VisitedAt(trace + [v], x, k);
    }
    if Reached(trace + [v], k) {
      var x :| VisitedAt(trace + [v], x, k);
      assert Visit(x, k) == v || VisitedAt(trace, x, k);
    }
    if v.level == k {
      assert (trace + [v])[|trace|] == v;
      assert VisitedAt(trace + [v], v.id, k);
    }
  }

  lemma {:induction false} ListingRows(nodes: map<Id, Node>, trace: seq<Visit>, k: int)
    requires forall x :: x in RowIds(nodes, trace, k) ==> x in nodes
    ensures k in Listing(nodes, trace) <==> Reached(trace, k)
    ensures k in Listing(nodes, trace) ==> Listing(nodes, trace)[k] == Records(nodes, RowIds(nodes, trace, k))
    ensures k !in Listing(nodes, trace) ==> RowIds(nodes, trace, k) == []
  {
    if trace != [] {
      var n := |trace| - 1;
      ListingRows(nodes, trace[..n], k);
      assert trace == trace[..n] + [trace[n]];
      ReachedOneMore(trace[..n], trace[n], k);
      hide Reached;
    }
  }

  lemma VisitIsChained(reverse: Index, root: Id, depth: int, trace: seq<Visit>, x: Id, k: int)
    requires WalkTrace(reverse, root, depth, trace) && VisitedAt(trace, x, k)
    ensures 0 <= k <= depth && SimpleChain(reverse, root, x, k)
  {
    var j :| 0 <= j < |trace| && trace[j] == Visit(x, k);
    var p := CallChain(reverse, root, depth, trace, j);
  }

  lemma VisitedOnce(trace: seq<Visit>, x: Id, k: int, k': int)
    requires DistinctIds(trace) && VisitedAt(trace, x, k) && VisitedAt(trace, x, k')
    ensures k == k'
  {
    var i :| 0 <= i < |trace| && trace[i] == Visit(x, k);
    var j :| 0 <= j < |trace| && trace[j] == Visit(x, k');
  }

  /** Soundness, for any depth: the dictionary has exactly the levels visited; under level `k` it
      lists the records of distinct known ids, to each of which a repeat-free chain of exactly `k`
      steps leads; and no id is listed under two levels. */
  lemma ImpactIsSound(nodes: map<Id, Node>, reverse: Index, root: Id, depth: int, levels: map<int, seq<Node>>, trace: seq<Visit>)
    requires ImpactResult(nodes, reverse, root, depth, levels, trace)
    ensures forall k :: k in levels <==> Reached(trace, k)
    ensures forall k, x :: x in RowIds(nodes, trace, k) ==>
              x in nodes && 0 <= k <= depth && SimpleChain(reverse, root, x, k)
    ensures forall k :: k in levels ==>
              Distinct(RowIds(nodes, trace, k)) && levels[k] == Records(nodes, RowIds(nodes, trace, k))
    ensures forall k, k', x :: x in RowIds(nodes, trace, k) && x in RowIds(nodes, trace, k') ==> k == k'
  {
    assert WalkTrace(reverse, root, depth, trace) && DistinctIds(trace) && levels == Listing(nodes, trace);
    hide ImpactResult, WalkTrace, DistinctIds, Listing, SimpleChain, RowIds, VisitedAt, Reached, Distinct;
    forall k
      ensures Distinct(RowIds(nodes, trace, k))
      ensures forall x :: x in RowIds(nodes, trace, k) <==> x in nodes && VisitedAt(trace, x, k)
    {
      RowIdsAreVisited(nodes, trace, k);
    }
    forall k, x | VisitedAt(trace, x, k) ensures 0 <= k <= depth && SimpleChain(reverse, root, x, k) {
      VisitIsChained(reverse, root, depth, trace, x, k);
    }
    forall k
      ensures k in levels <==> Reached(trace, k)
      ensures k in levels ==> levels[k] == Records(nodes, RowIds(nodes, trace, k))
    {
      ListingRows(nodes, trace, k);
    }
    forall k, k', x | VisitedAt(trace, x, k) && VisitedAt(trace, x, k') ensures k == k' {
      VisitedOnce(trace, x, k, k');
    }
  }

  /** A dependent visited later than an id above the depth bound lies below it. */
  lemma LaterDependentsLieBelow(reverse: Index, root: Id, depth: int, trace: seq<Visit>, i: nat, j: nat)
    requires WalkTrace(reverse, root, depth, trace) && i < j < |trace|
    requires trace[i].level < depth && Linked(reverse, trace[i].id, trace[j].id)
    ensures trace[j].level > trace[i].level
  {
    assert SeenBy(trace, i, trace[j].id);
  }

  /** Following a chain from the root, one reaches visited ids only, up to the first one that was
      visited at the depth bound. */
  lemma {:induction false} ChainVisited(reverse: Index, root: Id, depth: int, trace: seq<Visit>, p: seq<Id>, n: nat)
    requires WalkTrace(reverse, root, depth, trace) && depth >= 0
    requires Chain(reverse, p) && p[0] == root && n < |p|
    ensures p[n] in Ids(trace) || exists i :: 0 <= i < n && VisitedAt(trace, p[i], depth)
  {
    if n == 0 {
      assert trace[0].id == root;
    } else {
      ChainVisited(reverse, root, depth, trace, p, n - 1);
      if p[n - 1] in Ids(trace) {
        var j: nat :| j < |trace| && trace[j].id == p[n - 1];
        assert LinkAt(reverse, p, n) && trace[j] in trace;
        if trace[j].level < depth {
          assert SeenBy(trace, j, p[n]);
        } else {
          assert j > 0 ==> CalledAt(reverse, trace, j);
          assert VisitedAt(trace, p[n - 1], depth);
        }
      }
    }
  }

  /** No id of the chain, but possibly its last, was visited at the depth bound. */
  ghost predicate Unblocked(trace: seq<Visit>, depth: int, p: seq<Id>) {
    forall i :: 0 <= i < |p| - 1 ==> !VisitedAt(trace, p[i], depth)
  }

  /** Exactly what is found: an id is visited if and only if some chain from the root leads to it that
      meets no id visited at the depth bound on its way. */
  lemma VisitedExactly(reverse: Index, root: Id, depth: int, trace: seq<Visit>, x: Id)
    requires WalkTrace(reverse, root, depth, trace) && depth >= 0
    ensures x in Ids(trace) <==>
      exists p :: Chain(reverse, p) && p[0] == root && p[|p| - 1] == x && Unblocked(trace, depth, p)
  {
    if x in Ids(trace) {
      var j: nat :| j < |trace| && trace[j].id == x;
      var p := CallChain(reverse, root, depth, trace, j);
      CallChainIsUnblocked(reverse, root, depth, trace, j, p);
    }
    if exists p :: Chain(reverse, p) && p[0] == root && p[|p| - 1] == x && Unblocked(trace, depth, p) {
      var p :| Chain(reverse, p) && p[0] == root && p[|p| - 1] == x && Unblocked(trace, depth, p);
      ChainVisited(reverse, root, depth, trace, p, |p| - 1);
    }
  }

  lemma CallChainIsUnblocked(reverse: Index, root: Id, depth: int, trace: seq<Visit>, j: nat, p: seq<Id>)
    requires WalkTrace(reverse, root, depth, trace) && j < |trace| && |p| == trace[j].level + 1
    requires forall k :: 0 <= k < |p| ==> exists i :: 0 <= i <= j && trace[i] == Visit(p[k], k)
    ensures Unblocked(trace, depth, p)
  {
    assert VisitedAt(trace, trace[j].id, trace[j].level);
    VisitIsChained(reverse, root, depth, trace, trace[j].id, trace[j].level);
    forall k | 0 <= k < |p| - 1 ensures !VisitedAt(trace, p[k], depth) {
      var i :| 0 <= i <= j && trace[i] == Visit(p[k], k);
      assert VisitedAt(trace, p[k], k);
      if VisitedAt(trace, p[k], depth) {
        VisitedOnce(trace, p[k], k, depth);
      }
    }
  }

  /** A dependent within the depth is missed only by a detour: on every chain of at most `depth`
      steps to it lies an id, not the root, that is fewer than `depth` steps along that chain but was
      visited at the depth bound, by a repeat-free chain of exactly `depth` steps. */
  lemma MissedOnlyByDetour(reverse: Index, root: Id, depth: int, trace: seq<Visit>, p: seq<Id>)
    requires WalkTrace(reverse, root, depth, trace)
    requires Chain(reverse, p) && p[0] == root && |p| - 1 <= depth && p[|p| - 1] !in Ids(trace)
    ensures exists i :: 0 < i < |p| - 1 && VisitedAt(trace, p[i], depth) && SimpleChain(reverse, root, p[i], depth)
  {
    ChainVisited(reverse, root, depth, trace, p, |p| - 1);
    var i :| 0 <= i < |p| - 1 && VisitedAt(trace, p[i], depth);
    VisitIsChained(reverse, root, depth, trace, p[i], depth);
    assert trace[0] == Visit(root, 0) && VisitedAt(trace, root, 0);
    if i == 0 {
      VisitedOnce(trace, root, 0, depth);
    }
  }

  /** Some chain of fewer than `depth` steps leads from the root to `x`. */
  ghost predicate Nearer(reverse: Index, root: Id, depth: int, x: Id) {
    exists p :: Chain(reverse, p) && p[0] == root && p[|p| - 1] == x && |p| - 1 < depth
  }

  /** A condition on the graph alone: where no nearer id also ends a repeat-free chain of exactly
      `depth` steps, every walk finds everything within the depth. */
  lemma CompleteWithoutDetours(reverse: Index, root: Id, depth: int, trace: seq<Visit>, p: seq<Id>)
    requires WalkTrace(reverse, root, depth, trace)
    requires forall x :: Nearer(reverse, root, depth, x) ==> !SimpleChain(reverse, root, x, depth)
    requires Chain(reverse, p) && p[0] == root && |p| - 1 <= depth
    ensures p[|p| - 1] in Ids(trace)
  {
    assert |p| > 0;
    hide WalkTrace, Chain, SimpleChain, Nearer, Ids;
    if p[|p| - 1] !in Ids(trace) {
      MissedOnlyByDetour(reverse, root, depth, trace, p);
      var i :| 0 < i < |p| - 1 && VisitedAt(trace, p[i], depth) && SimpleChain(reverse, root, p[i], depth);
      NearerOnTheWay(reverse, root, depth, p, i);
      assert false;
    }
  }

  lemma NearerOnTheWay(reverse: Index, root: Id, depth: int, p: seq<Id>, i: nat)
    requires Chain(reverse, p) && p[0] == root && i < |p| - 1 <= depth
    ensures Nearer(reverse, root, depth, p[i])
  {
    hide Linked;
    var q := p[..i + 1];
    forall k | 0 < k < |q| ensures LinkAt(reverse, q, k) {
      assert LinkAt(reverse, p, k);
    }
    assert Chain(reverse, q) && q[0] == root && q[|q| - 1] == p[i] && |q| - 1 < depth;
  }

  /** Two ids that depend on each other, each with a dependent of its own. */
  function Crossing(r: Id, a: Id, b: Id, y: Id, z: Id): Index {
    map[r := {a, b}, a := {b, y}, b := {a, z}]
  }

  /** A visited id on which only `a` is depended upon was called from `a`. */
  lemma OnlyCaller(reverse: Index, root: Id, depth: int, trace: seq<Visit>, y: Id, a: Id) returns (i: nat)
    requires WalkTrace(reverse, root, depth, trace) && y in Ids(trace) && y != root
    requires forall u :: Linked(reverse, u, y) ==> u == a
    ensures i < |trace| && trace[i].id == a && trace[i].level < depth && (a != root ==> trace[i].level > 0)
  {
    var j: nat :| j < |trace| && trace[j].id == y;
    assert CalledAt(reverse, trace, j);
    i :| CalledFrom(reverse, trace, j, i);
    assert i > 0 ==> CalledAt(reverse, trace, i);
  }

  lemma CrossingLinks(r: Id, a: Id, b: Id, y: Id, z: Id)
    requires Distinct([r, a, b, y, z])
    ensures r != a && r != b && r != y && r != z && a != b
    ensures var g := Crossing(r, a, b, y, z);
      && Linked(g, r, a) && Linked(g, r, b) && Linked(g, a, b) && Linked(g, b, a) && Linked(g, a, y) && Linked(g, b, z)
      && (forall u :: Linked(g, u, y) ==> u == a) && (forall u :: Linked(g, u, z) ==> u == b)
  {
    var s := [r, a, b, y, z];
    assert s[0] == r && s[1] == a && s[2] == b && s[3] == y && s[4] == z;
  }

  lemma TwoSteps(reverse: Index, u: Id, v: Id, w: Id)
    requires Linked(reverse, u, v) && Linked(reverse, v, w)
    ensures Chain(reverse, [u, v, w])
  {
    assert LinkAt(reverse, [u, v, w], 1) && LinkAt(reverse, [u, v, w], 2);
  }

  /** On that graph a walk of depth two always misses `y` or `z`, although both are two steps from the
      root: whichever of `a` and `b` is entered first takes the other to the depth bound. */
  lemma CrossingMissesWithinDepth(r: Id, a: Id, b: Id, y: Id, z: Id, trace: seq<Visit>)
    requires Distinct([r, a, b, y, z]) && WalkTrace(Crossing(r, a, b, y, z), r, 2, trace)
    ensures Chain(Crossing(r, a, b, y, z), [r, a, y]) && Chain(Crossing(r, a, b, y, z), [r, b, z])
    ensures y !in Ids(trace) || z !in Ids(trace)
  {
    hide *;
    var g := Crossing(r, a, b, y, z);
    CrossingLinks(r, a, b, y, z);
    TwoSteps(g, r, a, y);
    TwoSteps(g, r, b, z);
    if y in Ids(trace) && z in Ids(trace) {
      var i := OnlyCaller(g, r, 2, trace, y, a);
      var j := OnlyCaller(g, r, 2, trace, z, b);
      if i < j {
        LaterDependentsLieBelow(g, r, 2, trace, i, j);
      } else {
        LaterDependentsLieBelow(g, r, 2, trace, j, i);
      }
      assert false;
    }
  }

  /** The ids that occur at either end of an edge. */
  ghost function RelationIds(index: Index): (r: set<Id>)
    ensures forall u, v :: Linked(index, u, v) ==> u in r && v in r
  {
    (set u, v | u in index && v in index[u] :: u) + (set u, v | u in index && v in index[u] :: v)
  }

  lemma NoChainOfAllIds(reverse: Index, root: Id, depth: int, p: seq<Id>, i: nat)
    requires depth >= |RelationIds(reverse)| && Chain(reverse, p) && p[0] == root && i < |p| - 1
    ensures !SimpleChain(reverse, root, p[i], depth)
  {
    var ids := RelationIds(reverse);
    if SimpleChain(reverse, root, p[i], depth) {
      assert LinkAt(reverse, p, i + 1);
      var q :| Chain(reverse, q) && Distinct(q) && |q| == depth + 1 && q[0] == root && q[depth] == p[i];
      forall j | 0 <= j < |q| ensures q[j] in ids {
        if j > 0 {
          assert LinkAt(reverse, q, j);
        } else if |q| > 1 {
          assert LinkAt(reverse, q, 1);
        }
      }
      DistinctFits(q, ids);
      assert false;
    }
  }

  /** With a depth of at least the number of ids in the edge relation nothing is missed: the visited
      ids are the root and everything that depends on it. */
  lemma CompleteAtLargeDepth(reverse: Index, root: Id, depth: int, trace: seq<Visit>)
    requires WalkTrace(reverse, root, depth, trace) && depth >= |RelationIds(reverse)|
    ensures forall x :: x in Ids(trace) <==> Dependent(reverse, root, x)
  {
    forall x ensures x in Ids(trace) <==> Dependent(reverse, root, x) {
      VisitedExactly(reverse, root, depth, trace, x);
      if Dependent(reverse, root, x) {
        var p :| Chain(reverse, p) && p[0] == root && p[|p| - 1] == x;
        ChainVisited(reverse, root, depth, trace, p, |p| - 1);
        if i :| 0 <= i < |p| - 1 && VisitedAt(trace, p[i], depth) {
          VisitIsChained(reverse, root, depth, trace, p[i], depth);
          NoChainOfAllIds(reverse, root, depth, p, i);
        }
      }
    }
  }
}
