/** The retry engine: an attempt loop with capped exponential back-off, steered by a policy hook. */
module Retry {
  import opened Sequences

  datatype ErrorType = Transient | Permanent | Policy

  datatype TransportError = TransportError(errorType: ErrorType, message: string)

  /** An exception raised by the operation: a transport error, or anything else with its text. */
  datatype Fault = Transport(error: TransportError) | OtherFault(text: string)

  datatype Context = Context(sessionId: string, streamOffset: nat)

  datatype Report = Report(success: bool, context: Context, bytesSent: int, bytesReceived: int, finalOffset: int,
                           error: Option<TransportError>, retryCount: int)

  datatype Outcome = Returns(report: Report) | Raises(fault: Fault)

  datatype Decision = TryAgain | Abort | RestoreCheckpoint

  /** What calling the hook does; `None` is an exception. */
  type Hook = (Context, TransportError, int, int) -> Option<Decision>

  datatype Policy = Policy(maxAttempts: int, backoffFactor: real, initialTimeout: real, maxTimeout: real)

  /** The ranges the configuration model enforces. */
  predicate ValidPolicy(p: Policy) {
    1 <= p.maxAttempts <= 10 && p.backoffFactor > 0.0 && p.initialTimeout > 0.0 && p.maxTimeout > 0.0
  }

  datatype Engine = Engine(policy: Policy, hook: Option<Hook>, classify: string -> TransportError)

  function Classified(engine: Engine, fault: Fault): TransportError {
    if fault.Transport? then fault.error else engine.classify(fault.text)
  }

  function ConsultHook(engine: Engine, ctx: Context, err: TransportError, attempt: int): Decision {
    if engine.hook.Some? then
      match engine.hook.value(ctx, err, attempt, engine.policy.maxAttempts)
      case Some(decision) => decision
      case None => Abort
    else if err.errorType == Transient then TryAgain else Abort
  }

  function Pow(base: real, n: nat): real {
    if n == 0 then 1.0 else base * Pow(base, n - 1)
  }

  function Delay(p: Policy, attempt: nat): real
    requires attempt >= 1
  {
    var delay := p.initialTimeout * Pow(p.backoffFactor, attempt - 1);
    if delay < p.maxTimeout then delay else p.maxTimeout
  }

  /** The fault of an attempt, or `None` if it succeeded. */
  function FaultOf(outcome: Outcome): Option<Fault> {
    match outcome
    case Raises(fault) => Some(fault)
    case Returns(report) =>
      if report.success then None
      else if report.error.Some? then Some(Transport(report.error.value))
      else Some(OtherFault("Operation reported failure"))
  }

  /** The attempt ends the loop: it succeeds, or its fault draws abort or restore. */
  predicate Stops(engine: Engine, operation: nat -> Outcome, ctx: Context, attempt: nat) {
    match FaultOf(operation(attempt))
    case None => true
    case Some(fault) => ConsultHook(engine, ctx, Classified(engine, fault), attempt) != TryAgain
  }

  function FailureReport(ctx: Context, error: TransportError, retryCount: int): Report {
    Report(false, ctx, 0, 0, ctx.streamOffset, Some(error), retryCount)
  }

  /** What a run amounts to: `calls` is the first attempt that stops, or the last one allowed; it
      sleeps once between any two calls; and the report says which of the three ends it came to. */
  ghost predicate RunResult(engine: Engine, operation: nat -> Outcome, ctx: Context, report: Report, calls: nat, sleeps: seq<real>) {
    && 1 <= calls <= engine.policy.maxAttempts
    && (forall j :: 1 <= j < calls ==> !Stops(engine, operation, ctx, j))
    && |sleeps| == calls - 1 && (forall i :: 0 <= i < |sleeps| ==> sleeps[i] == Delay(engine.policy, i + 1))
    && (match FaultOf(operation(calls))
        case None => report == operation(calls).report.(retryCount := calls - 1)
        case Some(fault) =>
          if Stops(engine, operation, ctx, calls) then report == FailureReport(ctx, Classified(engine, fault), calls - 1)
          else calls == engine.policy.maxAttempts && report == FailureReport(ctx, Classified(engine, fault), calls))
  }

  /** `operation(i)` is what the i-th call of the operation comes to. */
  method ExecuteWithRetry(engine: Engine, operation: nat -> Outcome, ctx: Context)
    returns (report: Report, calls: nat, sleeps: seq<real>)
    requires engine.policy.maxAttempts >= 1
    ensures RunResult(engine, operation, ctx, report, calls, sleeps)
  {
    var lastError: Option<Fault> := None;
    calls, sleeps := 0, [];
    for attempt := 1 to engine.policy.maxAttempts + 1
      invariant calls == attempt - 1
      invariant forall j :: 1 <= j < attempt ==> !Stops(engine, operation, ctx, j)
      invariant |sleeps| == (if calls < engine.policy.maxAttempts then calls else calls - 1)
      invariant forall i :: 0 <= i < |sleeps| ==> sleeps[i] == Delay(engine.policy, i + 1)
      invariant attempt > 1 ==> lastError.Some? && lastError == FaultOf(operation(attempt - 1))
    {
      var outcome := operation(attempt);
      calls := calls + 1;
      if outcome.Returns? && outcome.report.success {
        report := outcome.report.(retryCount := attempt - 1);
        return;
      }
      lastError := FaultOf(outcome);
      var transportErr := Classified(engine, lastError.value);
      var decision := ConsultHook(engine, ctx, transportErr, attempt);
      if decision == Abort || decision == RestoreCheckpoint {
        report := FailureReport(ctx, transportErr, attempt - 1);
        return;
      }
      if decision == TryAgain && attempt < engine.policy.maxAttempts {
        sleeps := sleeps + [Delay(engine.policy, attempt)];
        continue;
      }
      break;
    }
    report := FailureReport(ctx, Classified(engine, lastError.value), engine.policy.maxAttempts);
  }

  /** The run is determined by its inputs: no two results fit the description. */
  lemma RunResultUnique(engine: Engine, operation: nat -> Outcome, ctx: Context,
                        r: Report, c: nat, s: seq<real>, r': Report, c': nat, s': seq<real>)
    requires RunResult(engine, operation, ctx, r, c, s) && RunResult(engine, operation, ctx, r', c', s')
    ensures r == r' && c == c' && s == s'
  {
    assert c < c' ==> !Stops(engine, operation, ctx, c);
    assert c' < c ==> !Stops(engine, operation, ctx, c');
    assert s == s';
  }

  ghost predicate FirstStop(engine: Engine, operation: nat -> Outcome, ctx: Context, k: nat) {
    k >= 1 && Stops(engine, operation, ctx, k) && forall j :: 1 <= j < k ==> !Stops(engine, operation, ctx, j)
  }

  /** Calls, reported retries and offset, for every end of a run: the calls stop at the first
      attempt that stops, if there is one within the limit. */
  lemma RunNumbers(engine: Engine, operation: nat -> Outcome, ctx: Context, report: Report, calls: nat, sleeps: seq<real>)
    requires RunResult(engine, operation, ctx, report, calls, sleeps)
    ensures forall k: nat :: FirstStop(engine, operation, ctx, k) && k <= engine.policy.maxAttempts ==>
              calls == k && report.retryCount == k - 1
    ensures (forall j :: 1 <= j <= engine.policy.maxAttempts ==> !Stops(engine, operation, ctx, j)) ==>
              calls == engine.policy.maxAttempts && report.retryCount == engine.policy.maxAttempts
    ensures report.success <==> FaultOf(operation(calls)).None?
    ensures !report.success ==> report.finalOffset == ctx.streamOffset && report.context == ctx && report.error.Some?
  {
    forall k: nat | FirstStop(engine, operation, ctx, k) && k <= engine.policy.maxAttempts
      ensures calls == k && report.retryCount == k - 1
    {
      assert calls < k ==> !Stops(engine, operation, ctx, calls);
      assert k < calls ==> !Stops(engine, operation, ctx, k);
    }
    if forall j :: 1 <= j <= engine.policy.maxAttempts ==> !Stops(engine, operation, ctx, j) {
      assert !Stops(engine, operation, ctx, calls);
    }
  }

  /** A failed run reports the error of its last call, classified unless it was a transport error
      already, and no bytes; a successful one passes the operation's report on. */
  lemma LastErrorIsReported(engine: Engine, operation: nat -> Outcome, ctx: Context, report: Report, calls: nat, sleeps: seq<real>)
    requires RunResult(engine, operation, ctx, report, calls, sleeps)
    ensures match operation(calls)
      case Raises(Transport(e)) => report.error == Some(e)
      case Raises(OtherFault(text)) => report.error == Some(engine.classify(text))
      case Returns(r) =>
        if r.success then report == r.(retryCount := calls - 1)
        else report.error == Some(if r.error.Some? then r.error.value else engine.classify("Operation reported failure"))
    ensures !report.success ==> report.bytesSent == report.bytesReceived == 0
  {
    hide Stops;
  }

  predicate HookAsksAgain(engine: Engine, ctx: Context, outcome: Outcome, attempt: nat)
    requires engine.hook.Some?
  {
    && FaultOf(outcome).Some?
    && engine.hook.value(ctx, Classified(engine, FaultOf(outcome).value), attempt, engine.policy.maxAttempts) == Some(TryAgain)
  }

  /** With a hook, its word decides: the run goes on exactly as long as it asks for another attempt,
      shown this context, the error, the number of the attempt and the limit. */
  lemma HookDecides(engine: Engine, operation: nat -> Outcome, ctx: Context, report: Report, calls: nat, sleeps: seq<real>)
    requires RunResult(engine, operation, ctx, report, calls, sleeps) && engine.hook.Some?
    ensures forall j :: 1 <= j < calls ==> HookAsksAgain(engine, ctx, operation(j), j)
    ensures !report.success && calls < engine.policy.maxAttempts ==> !HookAsksAgain(engine, ctx, operation(calls), calls)
  {
    forall j | 1 <= j < calls ensures HookAsksAgain(engine, ctx, operation(j), j) {
      assert !Stops(engine, operation, ctx, j);
    }
  }

  /** Without a hook exactly the transient faults are retried; a hook that raises ends the run. */
  lemma DefaultPolicy(engine: Engine, operation: nat -> Outcome, ctx: Context, report: Report, calls: nat, sleeps: seq<real>)
    requires RunResult(engine, operation, ctx, report, calls, sleeps)
    ensures engine.hook.None? ==> forall j :: 1 <= j < calls ==>
              FaultOf(operation(j)).Some? && Classified(engine, FaultOf(operation(j)).value).errorType == Transient
    ensures engine.hook.None? && !report.success && report.error.value.errorType == Transient ==>
              calls == report.retryCount == engine.policy.maxAttempts
    ensures engine.hook.Some? && (forall c, e, a, m :: engine.hook.value(c, e, a, m) == None) ==> calls == 1
  {
    forall j | 1 <= j < calls
      ensures engine.hook.None? ==>
        FaultOf(operation(j)).Some? && Classified(engine, FaultOf(operation(j)).value).errorType == Transient
    {
      assert !Stops(engine, operation, ctx, j);
    }
    assert calls > 1 ==> !Stops(engine, operation, ctx, 1);
  }

  // ---------- With the checkpoint policy ----------

  /** `CheckpointRestoreHook`. */
  function CheckpointRestoreHook(maxRestoreAttempts: nat): Hook {
    (ctx: Context, err: TransportError, attempt: int, maxAttempts: int) =>
      if err.errorType == Permanent || attempt >= maxAttempts then
        if maxRestoreAttempts > 0 then Some(RestoreCheckpoint) else Some(Abort)
      else Some(TryAgain)
  }

  /** Under the checkpoint policy the exhausted exit is never taken, so the retry count is always one
      less than the calls; and no call follows a permanent error, while a passing one within the limit
      is always retried. */
  lemma CheckpointPolicy(engine: Engine, restores: nat, operation: nat -> Outcome, ctx: Context,
                         report: Report, calls: nat, sleeps: seq<real>)
    requires engine.hook == Some(CheckpointRestoreHook(restores))
    requires RunResult(engine, operation, ctx, report, calls, sleeps)
    ensures Stops(engine, operation, ctx, calls) && report.retryCount == calls - 1
    ensures forall j :: 1 <= j < calls ==>
              FaultOf(operation(j)).Some? && Classified(engine, FaultOf(operation(j)).value).errorType != Permanent
    ensures calls < engine.policy.maxAttempts && !report.success ==> report.error.value.errorType == Permanent
  {
    forall j | 1 <= j < calls
      ensures FaultOf(operation(j)).Some? && Classified(engine, FaultOf(operation(j)).value).errorType != Permanent
    {
      assert !Stops(engine, operation, ctx, j);
    }
    if calls == engine.policy.maxAttempts {
      assert Stops(engine, operation, ctx, calls);
    }
  }

  // ---------- Back-off ----------

  function Total(sleeps: seq<real>): real {
    if sleeps == [] then 0.0 else Total(sleeps[..|sleeps| - 1]) + sleeps[|sleeps| - 1]
  }

  lemma {:induction false} PowPositive(base: real, n: nat)
    requires base > 0.0
    ensures Pow(base, n) > 0.0
  {
    if n > 0 {
      PowPositive(base, n - 1);
    }
  }

  /** Delays never shrink when the factor is at least one. */
  lemma DelaysGrow(p: Policy, attempt: nat)
    requires ValidPolicy(p) && attempt >= 1
    ensures 0.0 < Delay(p, attempt) <= p.maxTimeout
    ensures p.backoffFactor >= 1.0 ==> Delay(p, attempt) <= Delay(p, attempt + 1)
  {
    var f, pow := p.backoffFactor, Pow(p.backoffFactor, attempt - 1);
    PowPositive(f, attempt - 1);
    assert p.initialTimeout * pow > 0.0;
    if f >= 1.0 {
      assert Pow(f, attempt) == f * pow && (f - 1.0) * pow >= 0.0;
      assert p.initialTimeout * (f * pow - pow) >= 0.0;
    }
  }

  function Min(x: real, y: real): real {
    if x < y then x else y
  }

  /** Every delay from the one before: the first is the initial timeout, each next one the factor times
      the last, up to the cap, where it stays unless the factor is below one. */
  lemma DelayRecurrence(p: Policy, attempt: nat)
    requires ValidPolicy(p) && attempt >= 1
    ensures Delay(p, 1) == Min(p.initialTimeout, p.maxTimeout)
    ensures Delay(p, attempt) < p.maxTimeout ==> Delay(p, attempt + 1) == Min(p.backoffFactor * Delay(p, attempt), p.maxTimeout)
    ensures Delay(p, attempt) == p.maxTimeout ==>
      Min(p.backoffFactor, 1.0) * p.maxTimeout <= Delay(p, attempt + 1) <= p.maxTimeout
  {
    hide Delay, Uncapped;
    UncappedFacts(p, attempt - 1);
    DelayIsCapped(p, 0);
    DelayIsCapped(p, attempt - 1);
    DelayIsCapped(p, attempt);
    var f, u := p.backoffFactor, Uncapped(p, attempt - 1);
    if u >= p.maxTimeout {
      FactorScales(f, u, p.maxTimeout);
    }
  }

  lemma DelayIsCapped(p: Policy, n: nat)
    ensures Delay(p, n + 1) == Min(Uncapped(p, n), p.maxTimeout)
  {
  }

  lemma FactorScales(f: real, u: real, cap: real)
    requires f > 0.0 && u >= cap > 0.0
    ensures Min(f, 1.0) * cap <= Min(f * u, cap)
  {
    Scaled(cap, u, f);
    Scaled(Min(f, 1.0), f, cap);
    Scaled(Min(f, 1.0), 1.0, cap);
  }

  ghost predicate Backoff(p: Policy, sleeps: seq<real>) {
    forall i :: 0 <= i < |sleeps| ==> sleeps[i] == Delay(p, i + 1)
  }

  /** The time slept is bounded by the cap on each delay ... */
  lemma {:induction false} BackoffCapped(p: Policy, sleeps: seq<real>)
    requires ValidPolicy(p) && Backoff(p, sleeps)
    ensures Total(sleeps) <= |sleeps| as real * p.maxTimeout
  {
    if sleeps != [] {
      var n := |sleeps| - 1;
      BackoffCapped(p, sleeps[..n]);
      DelaysGrow(p, n + 1);
      OneMoreTimes(n, p.maxTimeout);
    }
  }

  lemma OneMoreTimes(n: nat, x: real)
    ensures (n + 1) as real * x == n as real * x + x
  {
  }

  /** The delay after `n` retries if there were no cap. */
  function Uncapped(p: Policy, n: nat): real {
    p.initialTimeout * Pow(p.backoffFactor, n)
  }

  lemma UncappedFacts(p: Policy, n: nat)
    ensures Uncapped(p, 0) == p.initialTimeout
    ensures Uncapped(p, n + 1) == p.backoffFactor * Uncapped(p, n)
    ensures Delay(p, n + 1) <= Uncapped(p, n)
  {
  }

  /** ... and, for a factor above one, by the geometric sum of the uncapped delays, here without
      the division by `factor - 1`. */
  lemma {:induction false} BackoffGeometric(p: Policy, sleeps: seq<real>)
    requires Backoff(p, sleeps) && p.backoffFactor > 1.0
    ensures Total(sleeps) * (p.backoffFactor - 1.0) <= Uncapped(p, |sleeps|) - p.initialTimeout
  {
    hide Uncapped, Delay;
    var n := |sleeps| - 1;
    if n < 0 {
      UncappedFacts(p, 0);
    } else {
      BackoffGeometric(p, sleeps[..n]);
      UncappedFacts(p, n);
      GeometricStep(p.backoffFactor, Uncapped(p, n), Uncapped(p, n + 1), p.initialTimeout, Total(sleeps[..n]), sleeps[n]);
    }
  }

  lemma Scaled(x: real, y: real, z: real)
    requires x <= y && z >= 0.0
    ensures x * z <= y * z
  {
    assert (y - x) * z >= 0.0;
    assert (y - x) * z == y * z - x * z;
  }

  lemma GeometricStep(f: real, u: real, u': real, a: real, total: real, next: real)
    requires f > 1.0 && u' == f * u && next <= u && total * (f - 1.0) <= u - a
    ensures (total + next) * (f - 1.0) <= u' - a
  {
    Scaled(next, u, f - 1.0);
    assert (total + next) * (f - 1.0) == total * (f - 1.0) + next * (f - 1.0);
    assert u * (f - 1.0) == u' - u;
  }
}
