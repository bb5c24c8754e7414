/** How the cycle report and the in-degree sort of one graph fit together. */
module CycleAgreement {
  import opened Sequences
  import opened Digraphs
  import KahnSort

  /** From any node of a cycle one can walk to where the cycle starts, and on. */
  lemma WalkOnFromCycle(g: Digraph, c: seq<Id>, k: nat, p: seq<Id>)
    requires g.IsCycle(c) && k < |c| && g.IsWalk(p) && p[0] == c[0]
    ensures g.IsWalk(c[k..] + p)
  {
    var q := c[k..] + p;
    forall i | 0 < i < |q| ensures g.StepAt(q, i) {
      if i < |c| - k {
        assert g.StepAt(c, k + i);
      } else if i > |c| - k {
        assert g.StepAt(p, i - (|c| - k));
      }
    }
  }

  /** The walk `p` leads from the start of one of the reported cycles to `v`. */
  ghost predicate BehindReport(g: Digraph, cycles: seq<seq<Id>>, v: Id) {
    exists c, p :: c in cycles && |c| > 0 && g.IsWalk(p) && p[0] == c[0] && p[|p| - 1] == v
  }

  lemma RemainingIsBehindReport(g: Digraph, cycles: seq<seq<Id>>, v: Id)
    requires CutsEveryCycle(g, cycles) && g.ReachedFromCycle(v)
    ensures BehindReport(g, cycles, v)
  {
    var c, p :| g.IsCycle(c) && g.IsWalk(p) && p[0] == c[0] && p[|p| - 1] == v;
    assert UsesClosingEdge(c, cycles);
    var u, w :| HasStep(c, u, w) && Closes(cycles, u, w);
    var r :| r in cycles && |r| > 0 && r[|r| - 1] == u && r[0] == w;
    var i :| 0 <= i < |c| && c[i] == u && c[if i + 1 == |c| then 0 else i + 1] == w;
    var k := if i + 1 == |c| then 0 else i + 1;
    WalkOnFromCycle(g, c, k, p);
    hide Digraph.IsWalk, Digraph.IsCycle, CutsEveryCycle;
    var q := c[k..] + p;
    assert q[0] == r[0] && q[|q| - 1] == v;
  }

  lemma ReportedNodeIsReached(g: Digraph, c: seq<Id>, x: Id)
    requires g.IsCycle(c) && x in c
    ensures g.ReachedFromCycle(x)
  {
    var k :| 0 <= k < |c| && c[k] == x;
    var p := c[..k + 1];
    WalkPrefix(g, c, k);
    hide Digraph.IsWalk, Digraph.IsCycle;
    assert p[0] == c[0] && p[|p| - 1] == x;
  }

  /** The two algorithms agree: what the sort leaves over is what lies behind a reported cycle, so
      one reports a cycle exactly when the other leaves a node over. */
  lemma RemainingLieBehindReport(g: Digraph, cycles: seq<seq<Id>>, emitted: seq<Id>, remaining: seq<Id>)
    requires CycleReport(g, cycles) && KahnSort.KahnResult(g, emitted, remaining)
    ensures forall v :: v in remaining <==> BehindReport(g, cycles, v)
    ensures remaining != [] <==> cycles != []
    ensures forall c, x :: c in cycles && x in c ==> x in remaining
  {
    forall v ensures v in remaining <==> BehindReport(g, cycles, v) {
      if v in remaining {
        RemainingIsBehindReport(g, cycles, v);
      }
      if BehindReport(g, cycles, v) {
        var c, p :| c in cycles && |c| > 0 && g.IsWalk(p) && p[0] == c[0] && p[|p| - 1] == v;
        assert g.IsElementaryCycle(c);
        assert g.ReachedFromCycle(v);
      }
    }
    forall c, x | c in cycles && x in c ensures x in remaining {
      assert g.IsElementaryCycle(c);
      ReportedNodeIsReached(g, c, x);
    }
  }
}
