/** The circuit breaker: admission under a lock, guarded calls outside it, outcomes recorded under it. */
module CircuitBreaker {
  import opened Sequences

  datatype Circuit = Closed | Open | HalfOpen

  datatype Config = Config(failureThreshold: int, recoveryTimeout: real, successThreshold: int)

  datatype State = State(circuit: Circuit, failures: int, successes: int, lastFailure: Option<real>)

  const INITIAL := State(Closed, 0, 0, None)

  /** `_check_state_transition`: a stored time of zero counts as no time at all. */
  function CheckTransition(cfg: Config, s: State, now: real): State {
    if s.circuit == Open && s.lastFailure.Some? && s.lastFailure.value != 0.0
       && now - s.lastFailure.value >= cfg.recoveryTimeout
    then s.(circuit := HalfOpen, successes := 0) else s
  }

  function RecordSuccess(cfg: Config, s: State): State {
    if s.circuit == HalfOpen then
      var s' := s.(successes := s.successes + 1);
      if s'.successes >= cfg.successThreshold then s'.(circuit := Closed, failures := 0) else s'
    else s.(failures := if s.failures - 1 > 0 then s.failures - 1 else 0)
  }

  function RecordFailure(cfg: Config, s: State, now: real): State {
    var s' := s.(failures := s.failures + 1, lastFailure := Some(now));
    if s.circuit == HalfOpen || s'.failures >= cfg.failureThreshold then s'.(circuit := Open) else s'
  }

  /** The object as its callers share it. */
  class AsyncCircuitBreaker {
    const cfg: Config
    var circuit: Circuit
    var failures: int
    var successes: int
    var lastFailure: Option<real>

    ghost function Snapshot(): State
      reads this
    {
      State(circuit, failures, successes, lastFailure)
    }

    constructor (cfg: Config)
      ensures this.cfg == cfg && Snapshot() == INITIAL
    {
      this.cfg := cfg;
      circuit, failures, successes, lastFailure := Closed, 0, 0, None;
    }

    /** The locked head of `call`: true when the guarded function is to be run. */
    method Admit(now: real) returns (admitted: bool)
      modifies this
      ensures Snapshot() == CheckTransition(cfg, old(Snapshot()), now)
      ensures admitted <==> Snapshot().circuit != Open
    {
      if circuit == Open && lastFailure.Some? && lastFailure.value != 0.0 {
        if now - lastFailure.value >= cfg.recoveryTimeout {
          circuit := HalfOpen;
          successes := 0;
        }
      }
      admitted := circuit != Open;
    }

    method Succeeded()
      modifies this
      ensures Snapshot() == RecordSuccess(cfg, old(Snapshot()))
    {
      if circuit == HalfOpen {
        successes := successes + 1;
        if successes >= cfg.successThreshold {
          circuit := Closed;
          failures := 0;
        }
      } else {
        failures := if failures - 1 > 0 then failures - 1 else 0;
      }
    }

    method Failed(now: real)
      modifies this
      ensures Snapshot() == RecordFailure(cfg, old(Snapshot()), now)
    {
      failures := failures + 1;
      lastFailure := Some(now);
      if circuit == HalfOpen {
        circuit := Open;
      } else if failures >= cfg.failureThreshold {
        circuit := Open;
      }
    }
  }

  /** Any number of calls may be in flight: they begin, and later succeed, fail or are cancelled (a
      cancelled call records nothing). */
  datatype Event =
    | Begin(call: nat, now: real)
    | Success(call: nat)
    | Failure(call: nat, now: real)
    | Cancel(call: nat)

  datatype World = World(breaker: State, inFlight: set<nat>)

  function Next(cfg: Config, w: World, e: Event): World {
    match e
    case Begin(call, now) =>
      if call in w.inFlight then w
      else
        var s := CheckTransition(cfg, w.breaker, now);
        World(s, if s.circuit == Open then w.inFlight else w.inFlight + {call})
    case Success(call) =>
      if call in w.inFlight then World(RecordSuccess(cfg, w.breaker), w.inFlight - {call}) else w
    case Failure(call, now) =>
      if call in w.inFlight then World(RecordFailure(cfg, w.breaker, now), w.inFlight - {call}) else w
    case Cancel(call) => w.(inFlight := w.inFlight - {call})
  }

  function Run(cfg: Config, events: seq<Event>): World {
    if events == [] then World(INITIAL, {})
    else Next(cfg, Run(cfg, events[..|events| - 1]), events[|events| - 1])
  }

  /** The outcome that event `e` records, if any: true for a failure. */
  function Outcome(w: World, e: Event): Option<bool> {
    if e.Success? && e.call in w.inFlight then Some(false)
    else if e.Failure? && e.call in w.inFlight then Some(true)
    else None
  }

  function At(cfg: Config, events: seq<Event>, i: nat): World
    requires i <= |events|
  {
    Run(cfg, events[..i])
  }

  lemma AtStep(cfg: Config, events: seq<Event>, i: nat)
    requires i < |events|
    ensures At(cfg, events, i + 1) == Next(cfg, At(cfg, events, i), events[i])
  {
    assert events[..i + 1][..i] == events[..i];
  }

  // ---------- Counting while closed ----------

  /** The outcomes recorded since the circuit was last closed. */
  function SinceClosed(cfg: Config, events: seq<Event>): seq<bool> {
    if events == [] then []
    else
      var n := |events| - 1;
      var w, earlier := Run(cfg, events[..n]), SinceClosed(cfg, events[..n]);
      if w.breaker.circuit != Closed then []
      else
        match Outcome(w, events[n])
        case Some(failed) => earlier + [failed]
        case None => earlier
  }

  /** Failures minus successes. */
  function Balance(outcomes: seq<bool>): int {
    if outcomes == [] then 0
    else Balance(outcomes[..|outcomes| - 1]) + (if outcomes[|outcomes| - 1] then 1 else -1)
  }

  ghost predicate MaxSuffixBalance(outcomes: seq<bool>, m: int) {
    && (exists k :: 0 <= k <= |outcomes| && Balance(outcomes[k..]) == m)
    && (forall k :: 0 <= k <= |outcomes| ==> Balance(outcomes[k..]) <= m)
  }

  lemma SuffixSnoc(outcomes: seq<bool>, failed: bool, k: nat)
    requires k <= |outcomes|
    ensures Balance((outcomes + [failed])[k..]) == Balance(outcomes[k..]) + (if failed then 1 else -1)
  {
    var t := (outcomes + [failed])[k..];
    assert t[..|t| - 1] == outcomes[k..];
  }

  lemma MaxSuffixSnoc(outcomes: seq<bool>, failed: bool, m: int)
    requires MaxSuffixBalance(outcomes, m) && m >= 0
    ensures MaxSuffixBalance(outcomes + [failed], if failed then m + 1 else if m - 1 > 0 then m - 1 else 0)
  {
    var all := outcomes + [failed];
    var m' := if failed then m + 1 else if m - 1 > 0 then m - 1 else 0;
    forall k | 0 <= k <= |all| ensures Balance(all[k..]) <= m' {
      if k < |all| {
        SuffixSnoc(outcomes, failed, k);
      }
    }
    var k :| 0 <= k <= |outcomes| && Balance(outcomes[k..]) == m;
    SuffixSnoc(outcomes, failed, k);
    assert Balance(all[|all|..]) == 0;
  }

  /** While the circuit is closed its failure count is the largest excess of failures over successes
      in any suffix of the outcomes recorded since it closed. */
  lemma {:induction false} FailureCountIsMaxExcess(cfg: Config, events: seq<Event>)
    ensures Run(cfg, events).breaker.failures >= 0
    ensures Run(cfg, events).breaker.circuit == Closed ==>
              MaxSuffixBalance(SinceClosed(cfg, events), Run(cfg, events).breaker.failures)
  {
    var none: seq<bool> := [];
    assert Balance(none[0..]) == 0 && MaxSuffixBalance(none, 0);
    if events != [] {
      var n := |events| - 1;
      var w := Run(cfg, events[..n]);
      FailureCountIsMaxExcess(cfg, events[..n]);
      if w.breaker.circuit == Closed && Outcome(w, events[n]).Some? {
        MaxSuffixSnoc(SinceClosed(cfg, events[..n]), Outcome(w, events[n]).value, w.breaker.failures);
      }
    }
  }

  ghost predicate SomeSuffixReaches(outcomes: seq<bool>, threshold: int) {
    exists k :: 0 <= k <= |outcomes| && Balance(outcomes[k..]) >= threshold
  }

  lemma MaxDecides(outcomes: seq<bool>, m: int, threshold: int)
    requires MaxSuffixBalance(outcomes, m)
    ensures SomeSuffixReaches(outcomes, threshold) <==> m >= threshold
  {
  }

  /** A closed circuit opens exactly at a recorded failure with which some suffix of the outcomes
      since it closed reaches the threshold; nothing else opens it. */
  lemma OpensExactlyAtThreshold(cfg: Config, events: seq<Event>, e: Event)
    requires Run(cfg, events).breaker.circuit == Closed
    ensures var w := Run(cfg, events);
      var since := SinceClosed(cfg, events + [e]);
      var next := Run(cfg, events + [e]).breaker.circuit;
      && next != HalfOpen
      && (next == Open <==>
            Outcome(w, e) == Some(true) && SomeSuffixReaches(since, cfg.failureThreshold))
  {
    assert (events + [e])[..|events|] == events;
    var w := Run(cfg, events);
    FailureCountIsMaxExcess(cfg, events);
    hide SomeSuffixReaches, MaxSuffixBalance;
    if Outcome(w, e) == Some(true) {
      var since := SinceClosed(cfg, events + [e]);
      MaxSuffixSnoc(SinceClosed(cfg, events), true, w.breaker.failures);
      assert since == SinceClosed(cfg, events) + [true];
      MaxDecides(since, w.breaker.failures + 1, cfg.failureThreshold);
    }
  }

  lemma {:induction false} CountsBelowThresholds(cfg: Config, events: seq<Event>)
    ensures var s := Run(cfg, events).breaker;
      && (cfg.failureThreshold >= 1 && s.circuit == Closed ==> 0 <= s.failures < cfg.failureThreshold)
      && (cfg.successThreshold >= 1 && s.circuit == HalfOpen ==> 0 <= s.successes < cfg.successThreshold)
  {
    if events != [] {
      CountsBelowThresholds(cfg, events[..|events| - 1]);
    }
  }

  // ---------- Admission ----------

  /** When the most recent failure was recorded. */
  function LastFailure(cfg: Config, events: seq<Event>): Option<real> {
    if events == [] then None
    else
      var n := |events| - 1;
      if Outcome(Run(cfg, events[..n]), events[n]) == Some(true) then Some(events[n].now)
      else LastFailure(cfg, events[..n])
  }

  lemma {:induction false} LastFailureIsStored(cfg: Config, events: seq<Event>)
    ensures Run(cfg, events).breaker.lastFailure == LastFailure(cfg, events)
    ensures Run(cfg, events).breaker.circuit != Closed ==> LastFailure(cfg, events).Some?
  {
    if events != [] {
      LastFailureIsStored(cfg, events[..|events| - 1]);
    }
  }

  /** A new call meeting an open circuit is admitted exactly when the recovery time has passed since
      the last recorded failure, provided that failure was not stamped zero; a rejected call changes
      nothing.  A call meeting a circuit that is not open is always admitted. */
  lemma AdmissionRule(cfg: Config, events: seq<Event>, call: nat, now: real)
    requires call !in Run(cfg, events).inFlight
    ensures var w, w' := Run(cfg, events), Run(cfg, events + [Begin(call, now)]);
      if w.breaker.circuit == Open then
        && LastFailure(cfg, events).Some?
        && (call in w'.inFlight <==>
              LastFailure(cfg, events).value != 0.0 && now - LastFailure(cfg, events).value >= cfg.recoveryTimeout)
        && (call in w'.inFlight ==> w'.breaker.circuit == HalfOpen && w'.breaker.successes == 0)
        && (call !in w'.inFlight ==> w' == w)
      else call in w'.inFlight && w'.breaker == w.breaker
  {
    assert (events + [Begin(call, now)])[..|events|] == events;
    LastFailureIsStored(cfg, events);
  }

  /** No event of `more` records a failure. */
  ghost predicate NoFailureIn(cfg: Config, events: seq<Event>, more: seq<Event>) {
    forall j :: 0 <= j < |more| ==> Outcome(Run(cfg, events + more[..j]), more[j]) != Some(true)
  }

  lemma StepLeavesLocked(cfg: Config, w: World, e: Event)
    requires w.breaker.circuit == Open && w.breaker.lastFailure == Some(0.0) && Outcome(w, e) != Some(true)
    ensures Next(cfg, w, e).breaker.circuit == Open && Next(cfg, w, e).breaker.lastFailure == Some(0.0)
  {
  }

  /** A circuit opened by a failure stamped zero stays open until a failure is recorded: no success, no
      call and no passage of time can change that. */
  lemma {:induction false} ZeroStampLocks(cfg: Config, events: seq<Event>, more: seq<Event>)
    requires Run(cfg, events).breaker.circuit == Open && LastFailure(cfg, events) == Some(0.0)
    requires NoFailureIn(cfg, events, more)
    ensures Run(cfg, events + more).breaker.circuit == Open && LastFailure(cfg, events + more) == Some(0.0)
  {
    hide Next, Outcome, LastFailure;
    if more == [] {
      assert events + more == events;
    } else {
      var n := |more| - 1;
      assert forall j :: 0 <= j < n ==> more[..n][..j] == more[..j];
      ZeroStampLocks(cfg, events, more[..n]);
      var before := events + more[..n];
      assert (events + more)[..|events + more| - 1] == before;
      LastFailureIsStored(cfg, before);
      StepLeavesLocked(cfg, Run(cfg, before), more[n]);
      LastFailureIsStored(cfg, events + more);
    }
  }

  /** With any other stamp a late enough call gets through. */
  lemma OtherStampRecovers(cfg: Config, events: seq<Event>) returns (more: seq<Event>)
    requires Run(cfg, events).breaker.circuit == Open && LastFailure(cfg, events) != Some(0.0)
    ensures NoFailureIn(cfg, events, more) && Run(cfg, events + more).breaker.circuit == HalfOpen
  {
    var call := Unused(Run(cfg, events).inFlight);
    LastFailureIsStored(cfg, events);
    var now := LastFailure(cfg, events).value + cfg.recoveryTimeout;
    more := [Begin(call, now)];
    AdmissionRule(cfg, events, call, now);
  }

  /** The circuit is open, and stays so however the run goes on without a recorded failure. */
  ghost predicate LockedOut(cfg: Config, events: seq<Event>) {
    forall more :: NoFailureIn(cfg, events, more) ==> Run(cfg, events + more).breaker.circuit == Open
  }

  /** Exactly when an open circuit is locked out of recovery. */
  lemma LockedOutExactly(cfg: Config, events: seq<Event>)
    requires Run(cfg, events).breaker.circuit == Open
    ensures LockedOut(cfg, events) <==> LastFailure(cfg, events) == Some(0.0)
  {
    if LastFailure(cfg, events) == Some(0.0) {
      forall more | NoFailureIn(cfg, events, more) ensures Run(cfg, events + more).breaker.circuit == Open {
        ZeroStampLocks(cfg, events, more);
      }
    } else {
      var more := OtherStampRecovers(cfg, events);
    }
  }

  /** That stamp does occur: `n` calls that fail at clock value zero. */
  lemma {:induction false} FailAtZero(cfg: Config, n: nat) returns (events: seq<Event>)
    requires n <= 1 || n <= cfg.failureThreshold
    ensures Run(cfg, events) ==
      World(State(if n >= 1 && n >= cfg.failureThreshold then Open else Closed, n, 0, if n == 0 then None else Some(0.0)), {})
  {
    if n == 0 {
      events := [];
    } else {
      var before := FailAtZero(cfg, n - 1);
      var begun := before + [Begin(0, 0.0)];
      assert begun[..|before|] == before;
      events := begun + [Failure(0, 0.0)];
      assert events[..|begun|] == begun;
    }
  }

  /** For every configuration some run leaves the circuit locked out. */
  lemma ZeroStampIsReachable(cfg: Config) returns (events: seq<Event>)
    ensures Run(cfg, events).breaker.circuit == Open && LastFailure(cfg, events) == Some(0.0)
  {
    events := FailAtZero(cfg, if cfg.failureThreshold >= 1 then cfg.failureThreshold else 1);
    LastFailureIsStored(cfg, events);
  }

  // ---------- Recovery ----------

  /** Successes recorded by `events[from..]`. */
  function SuccessesFrom(cfg: Config, events: seq<Event>, from: nat): nat
    requires from <= |events|
    decreases |events|
  {
    if from == |events| then 0
    else
      var n := |events| - 1;
      SuccessesFrom(cfg, events[..n], from)
      + (if Outcome(Run(cfg, events[..n]), events[n]) == Some(false) then 1 else 0)
  }

  /** Event `h` half-opened an open circuit; it stayed half-open through event `upTo - 1`, and no
      failure was recorded in between. */
  ghost predicate HalfOpenSince(cfg: Config, events: seq<Event>, h: nat, upTo: nat) {
    && h < upTo <= |events|
    && At(cfg, events, h).breaker.circuit == Open
    && (forall j :: h < j <= upTo ==> At(cfg, events, j).breaker.circuit == HalfOpen)
    && (forall j :: h < j < upTo ==> Outcome(At(cfg, events, j), events[j]) != Some(true))
  }

  lemma HalfOpenSinceExtends(cfg: Config, events: seq<Event>, e: Event, h: nat, upTo: nat)
    requires HalfOpenSince(cfg, events, h, upTo)
    ensures HalfOpenSince(cfg, events + [e], h, upTo)
  {
    forall j | 0 <= j <= |events| ensures At(cfg, events + [e], j) == At(cfg, events, j) {
      assert (events + [e])[..j] == events[..j];
    }
  }

  lemma StepIntoHalfOpen(cfg: Config, w: World, e: Event)
    requires Next(cfg, w, e).breaker.circuit == HalfOpen
    ensures if w.breaker.circuit == HalfOpen then
        && Outcome(w, e) != Some(true)
        && Next(cfg, w, e).breaker.successes == w.breaker.successes + (if Outcome(w, e) == Some(false) then 1 else 0)
      else w.breaker.circuit == Open && Next(cfg, w, e).breaker.successes == 0
  {
  }

  lemma HalfOpenSinceOneMore(cfg: Config, events: seq<Event>, h: nat, n: nat)
    requires n < |events| && At(cfg, events, n + 1).breaker.circuit == HalfOpen
    requires if h == n then At(cfg, events, n).breaker.circuit == Open
             else HalfOpenSince(cfg, events, h, n) && Outcome(At(cfg, events, n), events[n]) != Some(true)
    ensures HalfOpenSince(cfg, events, h, n + 1)
  {
    hide At;
  }

  lemma {:induction false} HalfOpenHistory(cfg: Config, events: seq<Event>) returns (h: nat)
    requires Run(cfg, events).breaker.circuit == HalfOpen
    ensures HalfOpenSince(cfg, events, h, |events|)
    ensures Run(cfg, events).breaker.successes == SuccessesFrom(cfg, events, h + 1)
  {
    hide Next, Outcome, HalfOpenSince;
    var n := |events| - 1;
    var before := events[..n];
    StepIntoHalfOpen(cfg, Run(cfg, before), events[n]);
    assert events == before + [events[n]] && events[..|events|] == events;
    AtStep(cfg, events, n);
    if Run(cfg, before).breaker.circuit == HalfOpen {
      h := HalfOpenHistory(cfg, before);
      HalfOpenSinceExtends(cfg, before, events[n], h, n);
    } else {
      h := n;
    }
    HalfOpenSinceOneMore(cfg, events, h, n);
  }

  /** A circuit that closes was half-open for the whole time since an open circuit let a probe
      through; since then no failure was recorded, and exactly the required number of successes. */
  lemma ClosesOnlyByRecovery(cfg: Config, events: seq<Event>, e: Event) returns (h: nat)
    requires Run(cfg, events).breaker.circuit != Closed
    requires Run(cfg, events + [e]).breaker.circuit == Closed
    ensures HalfOpenSince(cfg, events, h, |events|)
    ensures Outcome(Run(cfg, events), e) == Some(false)
    ensures SuccessesFrom(cfg, events + [e], h + 1) == if cfg.successThreshold >= 1 then cfg.successThreshold else 1
  {
    assert (events + [e])[..|events|] == events;
    h := HalfOpenHistory(cfg, events);
    CountsBelowThresholds(cfg, events);
    HalfOpenCountsNothing(cfg, events);
  }

  /** With a success threshold below one the first success closes. */
  lemma {:induction false} HalfOpenCountsNothing(cfg: Config, events: seq<Event>)
    ensures var s := Run(cfg, events).breaker;
      cfg.successThreshold < 1 && s.circuit == HalfOpen ==> s.successes == 0
  {
    if events != [] {
      HalfOpenCountsNothing(cfg, events[..|events| - 1]);
    }
  }
}
