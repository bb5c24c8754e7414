/** Round-robin selection among the healthy candidates. */
module RoundRobin {
  import opened Sequences

  datatype ChannelRef = ChannelRef(id: string, isHealthy: bool)

  predicate IsHealthy(c: ChannelRef) {
    c.isHealthy
  }

  /** The entries to rotate over: the healthy ones, or all of them when none is healthy. */
  function Pool(candidates: seq<ChannelRef>): (pool: seq<ChannelRef>)
    ensures forall c :: c in pool ==> c in candidates
    ensures (exists c :: c in candidates && c.isHealthy) ==> forall c :: c in pool <==> c in candidates && c.isHealthy
    ensures pool == [] <==> candidates == []
  {
    var healthy := Select(candidates, IsHealthy);
    assert healthy != [] ==> healthy[0] in healthy;
    if healthy == [] then candidates else healthy
  }

  ghost predicate SomeHealthy(candidates: seq<ChannelRef>) {
    exists i :: 0 <= i < |candidates| && candidates[i].isHealthy
  }

  /** Exactly the positions of the candidates that may be chosen, from left to right. */
  ghost predicate PositionsOf(candidates: seq<ChannelRef>, positions: seq<nat>) {
    && Increasing(positions)
    && (forall i: nat :: i in positions <==> i < |candidates| && (SomeHealthy(candidates) ==> candidates[i].isHealthy))
  }

  ghost predicate Picked(candidates: seq<ChannelRef>, positions: seq<nat>, pool: seq<ChannelRef>) {
    |pool| == |positions| && forall j :: 0 <= j < |pool| ==> positions[j] < |candidates| && pool[j] == candidates[positions[j]]
  }

  lemma OnePositionMore(positions: seq<nat>, n: nat)
    requires Increasing(positions) && forall i :: i in positions ==> i < n
    ensures Increasing(positions + [n]) && forall i :: i in positions + [n] <==> i in positions || i == n
  {
    var positions' := positions + [n];
    forall j, k | 0 <= j < k < |positions'| ensures positions'[j] < positions'[k] {
      assert positions[j] in positions;
    }
  }

  lemma NoneArePicked(candidates: seq<ChannelRef>)
    ensures Increasing([]) && Picked(candidates, [], [])
  {
  }

  lemma OneMorePicked(candidates: seq<ChannelRef>, positions: seq<nat>, pool: seq<ChannelRef>, n: nat)
    requires Picked(candidates, positions, pool) && n < |candidates|
    ensures Picked(candidates, positions + [n], pool + [candidates[n]])
  {
  }

  /** The positions of the healthy ones among the first `n` candidates. */
  function HealthyPositions(candidates: seq<ChannelRef>, n: nat): seq<nat>
    requires n <= |candidates|
  {
    if n == 0 then []
    else if candidates[n - 1].isHealthy then HealthyPositions(candidates, n - 1) + [n - 1]
    else HealthyPositions(candidates, n - 1)
  }

  lemma {:induction false} HealthyPositionsAre(candidates: seq<ChannelRef>, n: nat)
    requires n <= |candidates|
    ensures var positions := HealthyPositions(candidates, n);
      Increasing(positions) && forall i: nat :: i in positions <==> i < n && candidates[i].isHealthy
  {
    hide Increasing;
    if n == 0 {
      NoneArePicked(candidates);
    } else {
      HealthyPositionsAre(candidates, n - 1);
      OnePositionMore(HealthyPositions(candidates, n - 1), n - 1);
    }
  }

  lemma {:induction false} HealthyAreSelected(candidates: seq<ChannelRef>, n: nat)
    requires n <= |candidates|
    ensures Picked(candidates, HealthyPositions(candidates, n), Select(candidates[..n], IsHealthy))
  {
    if n == 0 {
      assert candidates[..0] == [];
    } else {
      hide Picked, Select;
      HealthyAreSelected(candidates, n - 1);
      OneMoreSelected(candidates, HealthyPositions(candidates, n - 1), n - 1);
    }
  }

  lemma OneMoreSelected(candidates: seq<ChannelRef>, positions: seq<nat>, n: nat)
    requires n < |candidates| && Picked(candidates, positions, Select(candidates[..n], IsHealthy))
    ensures Picked(candidates, if candidates[n].isHealthy then positions + [n] else positions, Select(candidates[..n + 1], IsHealthy))
  {
    hide Picked, Select;
    assert candidates[..n + 1] == candidates[..n] + [candidates[n]];
    SelectSnoc(candidates[..n], candidates[n], IsHealthy);
    OneMorePicked(candidates, positions, Select(candidates[..n], IsHealthy), n);
  }

  lemma {:induction false} AllPositions(n: nat) returns (positions: seq<nat>)
    ensures Increasing(positions) && |positions| == n
    ensures forall j :: 0 <= j < n ==> positions[j] == j
    ensures forall i: nat :: i in positions <==> i < n
  {
    if n == 0 {
      positions := [];
    } else {
      positions := AllPositions(n - 1);
      OnePositionMore(positions, n - 1);
      positions := positions + [n - 1];
    }
  }

  lemma PickedAlike(candidates: seq<ChannelRef>, positions: seq<nat>, pool: seq<ChannelRef>)
    requires Picked(candidates, positions, pool)
    ensures pool == [] <==> positions == []
  {
  }

  lemma AllArePicked(candidates: seq<ChannelRef>, positions: seq<nat>)
    requires |positions| == |candidates| && forall j :: 0 <= j < |positions| ==> positions[j] == j
    ensures Picked(candidates, positions, candidates)
  {
  }

  /** The pool is the candidates at those positions, in their order: none twice, none left out. */
  lemma PoolPositions(candidates: seq<ChannelRef>) returns (positions: seq<nat>)
    ensures PositionsOf(candidates, positions) && Picked(candidates, positions, Pool(candidates))
  {
    hide Increasing, Picked, HealthyPositions, Select;
    var n := |candidates|;
    positions := HealthyPositions(candidates, n);
    HealthyPositionsAre(candidates, n);
    HealthyAreSelected(candidates, n);
    assert candidates[..n] == candidates;
    PickedAlike(candidates, positions, Select(candidates, IsHealthy));
    if positions != [] {
      assert positions[0] in positions;
    } else {
      forall i: nat | i < n ensures !candidates[i].isHealthy {
        assert i !in positions;
      }
      positions := AllPositions(n);
      AllArePicked(candidates, positions);
    }
  }

  class RoundRobinStrategy {
    var index: nat

    constructor ()
      ensures index == 0
    {
      index := 0;
    }

    method Choose(candidates: seq<ChannelRef>) returns (chosen: Option<ChannelRef>)
      modifies this
      ensures chosen.None? <==> candidates == []
      ensures candidates == [] ==> index == old(index)
      ensures candidates != [] ==>
        index == old(index) + 1 && Pool(candidates) != [] && chosen == Some(Pool(candidates)[old(index) % |Pool(candidates)|])
    {
      var healthy := Select(candidates, IsHealthy);
      if healthy == [] {
        healthy := candidates;
      }
      if healthy == [] {
        return None;
      }
      var idx := index % |healthy|;
      index := index + 1;
      chosen := Some(healthy[idx]);
    }

    /** A caller that selects `n` times from one list: what it is given, and how often each entry of
        the pool is among it. */
    method ChooseMany(candidates: seq<ChannelRef>, n: nat) returns (chosen: seq<Option<ChannelRef>>)
      modifies this
      ensures candidates == [] ==> index == old(index) && chosen == seq(n, _ => None)
      ensures candidates != [] ==> Pool(candidates) != [] && index == old(index) + n
      ensures candidates != [] ==> |chosen| == n && InTurn(Pool(candidates), old(index), chosen)
      ensures candidates != [] ==>
        forall c :: FairShare(n, |Pool(candidates)|, multiset(Pool(candidates))[c], multiset(chosen)[Some(c)])
      ensures candidates != [] ==> exists positions, picks :: FairlyPicked(candidates, positions, picks, chosen)
    {
      hide Pool, InTurn, FairShare, FairlyPicked;
      chosen := [];
      for i := 0 to n
        invariant candidates == [] ==> index == old(index) && chosen == seq(i, _ => None)
        invariant candidates != [] ==>
          Pool(candidates) != [] && index == old(index) + i && chosen == Selections(Pool(candidates), old(index), i)
      {
        var one := Choose(candidates);
        chosen := chosen + [one];
      }
      if candidates != [] {
        SelectionsAreInTurn(Pool(candidates), old(index), n);
        ghost var positions, picks := SelectionsArePicked(candidates, old(index), n);
        forall c ensures FairShare(n, |Pool(candidates)|, multiset(Pool(candidates))[c], multiset(chosen)[Some(c)]) {
          SelectionsAreFair(Pool(candidates), old(index), n, c);
        }
      }
    }
  }

  /** The position that selection number `i` picks. */
  function Turn(i: nat, k: nat): (p: nat)
    requires k > 0
    ensures p < k
  {
    i % k
  }

  /** One when selection number `i` picks position `p`. */
  function Hit(i: nat, k: nat, p: nat): nat
    requires k > 0
  {
    if Turn(i, k) == p then 1 else 0
  }

  lemma MultipleIsFar(q: int, k: nat)
    ensures q >= 1 ==> q * k >= k
    ensures q <= -1 ==> q * k <= 0 - k
  {
    if q >= 1 {
      assert q * k == (q - 1) * k + k && (q - 1) * k >= 0;
    } else if q <= -1 {
      assert q * k == -((-q - 1) * k) - k && (-q - 1) * k >= 0;
    }
  }

  lemma QuotientUnique(x: nat, k: nat, q: int, r: nat)
    requires r < k && x == q * k + r
    ensures x / k == q && x % k == r
  {
    var q', r' := x / k, x % k;
    assert x == q' * k + r';
    assert (q' - q) * k == q' * k - q * k;
    MultipleIsFar(q' - q, k);
  }

  lemma AddOneTurn(x: nat, k: nat)
    requires k > 0
    ensures (x + k) / k == x / k + 1 && (x + k) % k == x % k
  {
    assert x + k == (x / k + 1) * k + x % k;
    QuotientUnique(x + k, k, x / k + 1, x % k);
  }

  lemma HitRepeats(i: nat, k: nat, p: nat)
    requires k > 0
    ensures Hit(i + k, k, p) == Hit(i, k, p)
  {
    AddOneTurn(i, k);
  }

  lemma HitFirst(i: nat, k: nat, p: nat)
    requires i < k
    ensures Hit(i, k, p) == if i == p then 1 else 0
  {
    QuotientUnique(i, k, 0, i);
  }

  /** How often position `p` of a pool of `k` is chosen by `n` selections from counter `start`. */
  function Chosen(start: nat, n: nat, k: nat, p: nat): nat
    requires k > 0
  {
    if n == 0 then 0 else Chosen(start, n - 1, k, p) + Hit(start + n - 1, k, p)
  }

  lemma {:induction false} ChosenSplits(start: nat, a: nat, b: nat, k: nat, p: nat)
    requires k > 0
    ensures Chosen(start, a + b, k, p) == Chosen(start, a, k, p) + Chosen(start + a, b, k, p)
  {
    if b > 0 {
      ChosenSplits(start, a, b - 1, k, p);
    }
  }

  lemma {:induction false} FirstTurn(n: nat, k: nat, p: nat)
    requires n <= k && p < k
    ensures Chosen(0, n, k, p) == if p < n then 1 else 0
  {
    hide Hit;
    if n > 0 {
      FirstTurn(n - 1, k, p);
      HitFirst(n - 1, k, p);
    }
  }

  /** Wherever a full turn starts, it chooses every position once. */
  lemma {:induction false} FullTurn(start: nat, k: nat, p: nat)
    requires p < k
    ensures Chosen(start, k, k, p) == 1
  {
    hide Hit;
    if start == 0 {
      FirstTurn(k, k, p);
    } else {
      FullTurn(start - 1, k, p);
      ChosenSplits(start - 1, 1, k, k, p);
      assert Chosen(start - 1, 1, k, p) == Chosen(start - 1, 0, k, p) + Hit(start - 1, k, p);
      HitRepeats(start - 1, k, p);
    }
  }

  /** Fairness: over any `n` consecutive selections from an unchanged list each of the `k` positions
      is chosen n/k times, rounded down or up, wherever the counter stood. */
  lemma {:induction false} Fair(start: nat, n: nat, k: nat, p: nat)
    requires p < k
    ensures n / k <= Chosen(start, n, k, p) <= n / k + (if n % k == 0 then 0 else 1)
  {
    hide Hit;
    if n < k {
      QuotientUnique(n, k, 0, n);
      ChosenSplits(start, n, k - n, k, p);
      FullTurn(start, k, p);
      assert n == 0 ==> Chosen(start, n, k, p) == 0;
    } else {
      ChosenSplits(start, n - k, k, k, p);
      FullTurn(start + (n - k), k, p);
      Fair(start, n - k, k, p);
      AddOneTurn(n - k, k);
    }
  }

  /** What `n` consecutive selections from an unchanged pool give. */
  function Selections<T>(pool: seq<T>, start: nat, n: nat): (r: seq<Option<T>>)
    requires pool != []
    ensures |r| == n
  {
    if n == 0 then [] else Selections(pool, start, n - 1) + [Some(pool[Turn(start + n - 1, |pool|)])]
  }

  lemma {:induction false} SelectionsAreInTurn<T>(pool: seq<T>, start: nat, n: nat)
    requires pool != []
    ensures InTurn(pool, start, Selections(pool, start, n))
  {
    if n > 0 {
      SelectionsAreInTurn(pool, start, n - 1);
    }
  }

  lemma CountOneMore<T>(s: seq<T>, x: T, y: T)
    ensures multiset(s + [x])[y] == multiset(s)[y] + (if x == y then 1 else 0)
  {
  }

  /** The entries chosen follow the pool round and round. */
  ghost predicate InTurn<T>(pool: seq<T>, start: nat, chosen: seq<Option<T>>)
    requires pool != []
  {
    forall i :: 0 <= i < |chosen| ==> chosen[i] == Some(pool[(start + i) % |pool|])
  }

  /** An entry that occurs `copies` times among `k` is `times` times among `n` selections: `n / k`
      times for each copy, rounded down or up. */
  predicate FairShare(n: nat, k: nat, copies: nat, times: nat)
    requires k > 0
  {
    copies * (n / k) <= times <= copies * (n / k + (if n % k == 0 then 0 else 1))
  }

  /** How often the first `m` positions of the pool are chosen on behalf of `c`. */
  function Share<T(==)>(pool: seq<T>, c: T, start: nat, n: nat, m: nat): nat
    requires pool != [] && m <= |pool|
  {
    if m == 0 then 0
    else Share(pool, c, start, n, m - 1) + (if pool[m - 1] == c then Chosen(start, n, |pool|, m - 1) else 0)
  }

  lemma {:induction false} ShareOfOneMore<T>(pool: seq<T>, c: T, start: nat, n: nat, m: nat)
    requires pool != [] && m <= |pool|
    ensures var p := Turn(start + n, |pool|);
      Share(pool, c, start, n + 1, m) == Share(pool, c, start, n, m) + (if p < m && pool[p] == c then 1 else 0)
  {
    hide Turn;
    if m > 0 {
      ShareOfOneMore(pool, c, start, n, m - 1);
    }
  }

  lemma {:induction false} NoShareYet<T>(pool: seq<T>, c: T, start: nat, m: nat)
    requires pool != [] && m <= |pool|
    ensures Share(pool, c, start, 0, m) == 0
  {
    if m > 0 {
      NoShareYet(pool, c, start, m - 1);
    }
  }

  lemma SelectionsGrow<T>(pool: seq<T>, start: nat, n: nat)
    requires pool != []
    ensures Selections(pool, start, 0) == []
    ensures Selections(pool, start, n + 1) == Selections(pool, start, n) + [Some(pool[Turn(start + n, |pool|)])]
  {
    hide Turn;
  }

  lemma {:induction false} TimesChosen<T>(pool: seq<T>, c: T, start: nat, n: nat)
    requires pool != []
    ensures multiset(Selections(pool, start, n))[Some(c)] == Share(pool, c, start, n, |pool|)
  {
    hide Share, Turn, Selections;
    if n == 0 {
      NoShareYet(pool, c, start, |pool|);
      SelectionsGrow(pool, start, 0);
    } else {
      var before, p := Selections(pool, start, n - 1), Turn(start + (n - 1), |pool|);
      TimesChosen(pool, c, start, n - 1);
      SelectionsGrow(pool, start, n - 1);
      CountOneMore(before, Some(pool[p]), Some(c));
      ShareOfOneMore(pool, c, start, n - 1, |pool|);
    }
  }

  lemma {:induction false} ShareIsFair<T>(pool: seq<T>, c: T, start: nat, n: nat, m: nat)
    requires pool != [] && m <= |pool|
    ensures FairShare(n, |pool|, multiset(pool[..m])[c], Share(pool, c, start, n, m))
  {
    hide Hit, Chosen;
    if m > 0 {
      ShareIsFair(pool, c, start, n, m - 1);
      assert pool[..m] == pool[..m - 1] + [pool[m - 1]];
      Fair(start, n, |pool|, m - 1);
      if pool[m - 1] == c {
        OneCopyMore(n, |pool|, multiset(pool[..m - 1])[c], Share(pool, c, start, n, m - 1), Chosen(start, n, |pool|, m - 1));
      }
    }
  }

  lemma OneCopyMore(n: nat, k: nat, copies: nat, times: nat, more: nat)
    requires k > 0 && FairShare(n, k, copies, times)
    requires n / k <= more <= n / k + (if n % k == 0 then 0 else 1)
    ensures FairShare(n, k, copies + 1, times + more)
  {
    var low, high := n / k, n / k + (if n % k == 0 then 0 else 1);
    assert (copies + 1) * low == copies * low + low && (copies + 1) * high == copies * high + high;
  }

  /** Fairness of the selections themselves, for every candidate, however often it is listed. */
  lemma SelectionsAreFair<T>(pool: seq<T>, start: nat, n: nat, c: T)
    requires pool != []
    ensures FairShare(n, |pool|, multiset(pool)[c], multiset(Selections(pool, start, n))[Some(c)])
  {
    TimesChosen(pool, c, start, n);
    ShareIsFair(pool, c, start, n, |pool|);
    assert pool[..|pool|] == pool;
  }

  // ---------- Fairness by position in the list ----------

  /** Selection number `i` took the candidate at position `picks[i]`; and every position that may be
      chosen at all is picked its share of the times. */
  ghost predicate FairlyPicked(candidates: seq<ChannelRef>, positions: seq<nat>, picks: seq<Option<nat>>,
                               chosen: seq<Option<ChannelRef>>) {
    && PositionsOf(candidates, positions) && positions != [] && |picks| == |chosen|
    && (forall i :: 0 <= i < |picks| ==>
          picks[i].Some? && picks[i].value < |candidates| && chosen[i] == Some(candidates[picks[i].value]))
    && (forall p :: p in positions ==> FairShare(|chosen|, |positions|, 1, multiset(picks)[Some(p)]))
  }

  lemma {:induction false} OnceEach(positions: seq<nat>, p: nat)
    requires p in positions && Increasing(positions)
    ensures multiset(positions)[p] == 1
  {
    var n := |positions| - 1;
    assert positions == positions[..n] + [positions[n]];
    if positions[n] != p {
      OnceEach(positions[..n], p);
    } else {
      assert p !in positions[..n];
    }
  }

  lemma SelectionsArePicked(candidates: seq<ChannelRef>, start: nat, n: nat) returns (positions: seq<nat>, picks: seq<Option<nat>>)
    requires candidates != []
    ensures Pool(candidates) != [] && FairlyPicked(candidates, positions, picks, Selections(Pool(candidates), start, n))
  {
    hide Selections, FairShare, Pool, InTurn, Increasing, SomeHealthy;
    positions := PoolPositions(candidates);
    picks := Selections(positions, start, n);
    var pool := Pool(candidates);
    SelectionsAreInTurn(positions, start, n);
    SelectionsAreInTurn(pool, start, n);
    PicksMatch(candidates, positions, pool, start, picks, Selections(pool, start, n));
    hide Picked;
    forall p | p in positions ensures FairShare(n, |positions|, 1, multiset(picks)[Some(p)]) {
      OnceEach(positions, p);
      SelectionsAreFair(positions, start, n, p);
    }
  }

  lemma PicksMatch(candidates: seq<ChannelRef>, positions: seq<nat>, pool: seq<ChannelRef>, start: nat,
                   picks: seq<Option<nat>>, chosen: seq<Option<ChannelRef>>)
    requires Picked(candidates, positions, pool) && pool != [] && |picks| == |chosen|
    requires InTurn(positions, start, picks) && InTurn(pool, start, chosen)
    ensures forall i :: 0 <= i < |picks| ==>
      picks[i].Some? && picks[i].value < |candidates| && chosen[i] == Some(candidates[picks[i].value])
  {
    forall i | 0 <= i < |picks|
      ensures picks[i].Some? && picks[i].value < |candidates| && chosen[i] == Some(candidates[picks[i].value])
    {
      var t := (start + i) % |pool|;
      assert 0 <= t < |pool|;
      assert picks[i] == Some(positions[t]) && chosen[i] == Some(pool[t]);
    }
  }
}
