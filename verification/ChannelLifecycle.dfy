/** The channel: lifecycle under a lock, sends and streams outside it. */
module ChannelLifecycle {
  import opened Sequences

  datatype ChannelState = Closed | Connecting | Active | Draining | Failed

  datatype Metrics = Metrics(messagesSent: int, bytesSent: int, errors: int)

  /** Where an unfinished operation is suspended: in the transporter, or (`Failing`) on the lock. */
  datatype Task = Opening | Closing | Sending | Streaming | Failing

  datatype State = State(channel: ChannelState, lock: Option<nat>, tasks: map<nat, Task>, metrics: Metrics)

  const INITIAL := State(Closed, None, map[], Metrics(0, 0, 0))

  /** One stretch of some task between two suspensions.  `connects` in `Open` says whether the
      transporter has anything to await. */
  datatype Step =
    | Open(task: nat, connects: bool)
    | OpenDone(task: nat, ok: bool)
    | Close(task: nat)
    | CloseDone(task: nat, ok: bool)
    | Send(task: nat)
    | SendReport(task: nat, success: bool, bytes: int)
    | Stream(task: nat)
    | StreamEnd(task: nat)
    | TransportError(task: nat, permanent: bool)   // raised by the transporter's send or stream
    | OtherError(task: nat)                        // any other exception there
    | MarkFailed(task: nat)                        // `_transition_to_failed`, once it holds the lock

  /** How a stretch leaves its caller. */
  datatype Result = Suspended | Returned | Raised

  predicate Waits(s: State, t: nat, task: Task) {
    t in s.tasks && s.tasks[t] == task
  }

  predicate Enabled(s: State, step: Step) {
    match step
    case Open(t, _) => t !in s.tasks && s.lock.None?
    case Close(t) => t !in s.tasks && s.lock.None?
    case OpenDone(t, _) => Waits(s, t, Opening)
    case CloseDone(t, _) => Waits(s, t, Closing)
    case Send(t) => t !in s.tasks
    case Stream(t) => t !in s.tasks
    case SendReport(t, _, _) => Waits(s, t, Sending)
    case StreamEnd(t) => Waits(s, t, Streaming)
    case TransportError(t, _) => Waits(s, t, Sending) || Waits(s, t, Streaming)
    case OtherError(t) => Waits(s, t, Sending) || Waits(s, t, Streaming)
    case MarkFailed(t) => Waits(s, t, Failing) && s.lock.None?
  }

  function CountError(s: State): State {
    s.(metrics := s.metrics.(errors := s.metrics.errors + 1))
  }

  function Next(s: State, step: Step): State
    requires Enabled(s, step)
  {
    match step
    case Open(t, connects) =>
      if s.channel == Active || s.channel == Connecting || s.channel == Draining then s
      else if connects then s.(channel := Connecting, lock := Some(t), tasks := s.tasks[t := Opening])
      else s.(channel := Active)
    case OpenDone(t, ok) =>
      var s' := s.(lock := None, tasks := s.tasks - {t});
      if ok then s'.(channel := Active) else CountError(s'.(channel := Failed))
    case Close(t) =>
      if s.channel == Closed || s.channel == Draining then s
      else s.(channel := Draining, lock := Some(t), tasks := s.tasks[t := Closing])
    case CloseDone(t, ok) =>
      var s' := s.(lock := None, tasks := s.tasks - {t});
      if ok then s'.(channel := Closed) else CountError(s'.(channel := Failed))
    case Send(t) => if s.channel == Active then s.(tasks := s.tasks[t := Sending]) else s
    case Stream(t) => if s.channel == Active then s.(tasks := s.tasks[t := Streaming]) else s
    case SendReport(t, success, bytes) =>
      var s' := s.(tasks := s.tasks - {t});
      if success then
        s'.(metrics := s.metrics.(messagesSent := s.metrics.messagesSent + 1, bytesSent := s.metrics.bytesSent + bytes))
      else s'
    case StreamEnd(t) => s.(tasks := s.tasks - {t})
    case TransportError(t, permanent) =>
      CountError(if permanent then s.(tasks := s.tasks[t := Failing]) else s.(tasks := s.tasks - {t}))
    case OtherError(t) => s.(tasks := s.tasks - {t})
    case MarkFailed(t) =>
      var s' := s.(tasks := s.tasks - {t});
      if s.channel != Failed && s.channel != Closed then s'.(channel := Failed) else s'
  }

  /** Every step of the schedule was enabled when taken. */
  ghost predicate Possible(schedule: seq<Step>)
    decreases |schedule|, 1
  {
    schedule == []
    || (Possible(schedule[..|schedule| - 1]) && Enabled(After(schedule[..|schedule| - 1]), schedule[|schedule| - 1]))
  }

  ghost function After(schedule: seq<Step>): State
    requires Possible(schedule)
    decreases |schedule|, 2
  {
    if schedule == [] then INITIAL else Next(After(schedule[..|schedule| - 1]), schedule[|schedule| - 1])
  }

  lemma OneMore(schedule: seq<Step>, step: Step)
    requires Possible(schedule) && Enabled(After(schedule), step)
    ensures Possible(schedule + [step]) && After(schedule + [step]) == Next(After(schedule), step)
  {
    assert (schedule + [step])[..|schedule|] == schedule;
  }

  /** The two transitional states are held exactly as long as an opening or closing task holds the
      lock. */
  ghost predicate Inv(s: State) {
    && (s.lock.Some? ==> Waits(s, s.lock.value, Opening) || Waits(s, s.lock.value, Closing))
    && (forall t :: t in s.tasks && (s.tasks[t] == Opening || s.tasks[t] == Closing) ==> s.lock == Some(t))
    && (s.channel == Connecting <==> s.lock.Some? && s.tasks[s.lock.value] == Opening)
    && (s.channel == Draining <==> s.lock.Some? && s.tasks[s.lock.value] == Closing)
  }

  lemma StepKeepsInv(s: State, step: Step)
    requires Inv(s) && Enabled(s, step)
    ensures Inv(Next(s, step))
  {
  }

  lemma {:induction false} RunKeepsInv(schedule: seq<Step>)
    requires Possible(schedule)
    ensures Inv(After(schedule))
  {
    if schedule != [] {
      var n := |schedule| - 1;
      RunKeepsInv(schedule[..n]);
      StepKeepsInv(After(schedule[..n]), schedule[n]);
    }
  }

  /** In every interleaving: whoever gets the lock finds no transitional state, so the guards of
      `open` and `close` against one never apply, and marking a channel failed only ever turns
      active into failed. */
  lemma LockedViewIsSettled(schedule: seq<Step>, step: Step)
    requires Possible(schedule) && Enabled(After(schedule), step)
    requires step.Open? || step.Close? || step.MarkFailed?
    ensures var s := After(schedule);
      && (s.channel == Closed || s.channel == Active || s.channel == Failed)
      && (step.MarkFailed? ==> Next(s, step).channel == if s.channel == Active then Failed else s.channel)
      && (step.Open? && s.channel != Active ==> Next(s, step).channel == if step.connects then Connecting else Active)
      && (step.Close? && s.channel != Closed ==> Next(s, step).channel == Draining)
  {
    RunKeepsInv(schedule);
  }

  /** The lifecycle diagram: the only ways a channel changes state. */
  predicate Edge(a: ChannelState, b: ChannelState) {
    match a
    case Closed => b == Connecting || b == Active
    case Connecting => b == Active || b == Failed
    case Active => b == Draining || b == Failed
    case Draining => b == Closed || b == Failed
    case Failed => b == Connecting || b == Active || b == Draining
  }

  lemma StateFollowsDiagram(schedule: seq<Step>, step: Step)
    requires Possible(schedule) && Enabled(After(schedule), step)
    ensures var s := After(schedule);
      Next(s, step).channel != s.channel ==>
        && Edge(s.channel, Next(s, step).channel)
        && (s.channel == Connecting ==> step.OpenDone?)
        && (s.channel == Draining ==> step.CloseDone?)
  {
    RunKeepsInv(schedule);
  }

  predicate Opened(step: Step) {
    (step.Open? && !step.connects) || (step.OpenDone? && step.ok)
  }

  predicate WentWrong(step: Step) {
    (step.OpenDone? || step.CloseDone?) && !step.ok
  }

  /** The last step that changed the state of the channel. */
  ghost function LastChange(schedule: seq<Step>): Option<Step>
    requires Possible(schedule)
  {
    if schedule == [] then None
    else
      var before := schedule[..|schedule| - 1];
      if After(schedule).channel != After(before).channel then Some(schedule[|schedule| - 1]) else LastChange(before)
  }

  /** In every interleaving the state tells what happened last: a channel is active exactly when the
      last change was an opening that succeeded, failed exactly when it was an opening or closing that
      did not or a mark, closed exactly when it was a closing that succeeded or there was none yet. */
  lemma {:induction false} StateTellsLastChange(schedule: seq<Step>)
    requires Possible(schedule)
    ensures var c, last := After(schedule).channel, LastChange(schedule);
      && (c == Closed <==> last.None? || (last.value.CloseDone? && last.value.ok))
      && (c == Connecting <==> last.Some? && last.value.Open? && last.value.connects)
      && (c == Active <==> last.Some? && Opened(last.value))
      && (c == Draining <==> last.Some? && last.value.Close?)
      && (c == Failed <==> last.Some? && (last.value.MarkFailed? || WentWrong(last.value)))
  {
    if schedule != [] {
      StateTellsLastChange(schedule[..|schedule| - 1]);
      RunKeepsInv(schedule[..|schedule| - 1]);
    }
  }

  // ---------- Accounting ----------

  function Successes(schedule: seq<Step>): nat {
    if schedule == [] then 0
    else
      var last := schedule[|schedule| - 1];
      Successes(schedule[..|schedule| - 1]) + (if last.SendReport? && last.success then 1 else 0)
  }

  function BytesReported(schedule: seq<Step>): int {
    if schedule == [] then 0
    else
      var last := schedule[|schedule| - 1];
      BytesReported(schedule[..|schedule| - 1]) + (if last.SendReport? && last.success then last.bytes else 0)
  }

  function Errors(schedule: seq<Step>): nat {
    if schedule == [] then 0
    else
      var last := schedule[|schedule| - 1];
      Errors(schedule[..|schedule| - 1])
      + (if last.TransportError? || (last.OpenDone? && !last.ok) || (last.CloseDone? && !last.ok) then 1 else 0)
  }

  /** The metrics are exact in every interleaving. */
  lemma {:induction false} MetricsAreExact(schedule: seq<Step>)
    requires Possible(schedule)
    ensures After(schedule).metrics == Metrics(Successes(schedule), BytesReported(schedule), Errors(schedule))
  {
    if schedule != [] {
      MetricsAreExact(schedule[..|schedule| - 1]);
    }
  }

  /** The operations now inside the transporter, and those waiting to mark the channel. */
  function InTransporter(s: State): set<nat> {
    set t | t in s.tasks && (s.tasks[t] == Sending || s.tasks[t] == Streaming)
  }

  function ToMark(s: State): set<nat> {
    set t | t in s.tasks && s.tasks[t] == Failing
  }

  /** Sends and streams let through. */
  ghost function Admitted(schedule: seq<Step>): nat
    requires Possible(schedule)
  {
    if schedule == [] then 0
    else
      var n := |schedule| - 1;
      Admitted(schedule[..n])
      + (if (schedule[n].Send? || schedule[n].Stream?) && After(schedule[..n]).channel == Active then 1 else 0)
  }

  /** Sends and streams that came back from the transporter, in whichever way. */
  function CameBack(schedule: seq<Step>): nat {
    if schedule == [] then 0
    else
      var last := schedule[|schedule| - 1];
      CameBack(schedule[..|schedule| - 1])
      + (if last.SendReport? || last.StreamEnd? || last.TransportError? || last.OtherError? then 1 else 0)
  }

  function PermanentErrors(schedule: seq<Step>): nat {
    if schedule == [] then 0
    else
      var last := schedule[|schedule| - 1];
      PermanentErrors(schedule[..|schedule| - 1]) + (if last.TransportError? && last.permanent then 1 else 0)
  }

  function Marks(schedule: seq<Step>): nat {
    if schedule == [] then 0
    else Marks(schedule[..|schedule| - 1]) + (if schedule[|schedule| - 1].MarkFailed? then 1 else 0)
  }

  lemma SizeChange(a: set<nat>, b: set<nat>, t: nat)
    requires a - {t} == b - {t}
    ensures |b| == |a| + (if t in b then 1 else 0) - (if t in a then 1 else 0)
  {
    assert a == if t in a then (a - {t}) + {t} else a - {t};
    assert b == if t in b then (b - {t}) + {t} else b - {t};
  }

  lemma StepConserves(s: State, step: Step)
    requires Enabled(s, step)
    ensures var s' := Next(s, step);
      && |InTransporter(s')| == |InTransporter(s)|
           + (if (step.Send? || step.Stream?) && s.channel == Active then 1 else 0)
           - (if step.SendReport? || step.StreamEnd? || step.TransportError? || step.OtherError? then 1 else 0)
      && |ToMark(s')| == |ToMark(s)|
           + (if step.TransportError? && step.permanent then 1 else 0) - (if step.MarkFailed? then 1 else 0)
  {
    var s' := Next(s, step);
    var t := step.task;
    SizeChange(InTransporter(s), InTransporter(s'), t);
    SizeChange(ToMark(s), ToMark(s'), t);
  }

  /** No operation is lost: everything let through has come back or is still in the transporter, and
      every permanent error has been marked or is waiting to be. */
  lemma {:induction false} OperationsAreConserved(schedule: seq<Step>)
    requires Possible(schedule)
    ensures Admitted(schedule) == CameBack(schedule) + |InTransporter(After(schedule))|
    ensures PermanentErrors(schedule) == Marks(schedule) + |ToMark(After(schedule))|
  {
    if schedule == [] {
      assert InTransporter(INITIAL) == {} && ToMark(INITIAL) == {};
    } else {
      var n := |schedule| - 1;
      OperationsAreConserved(schedule[..n]);
      StepConserves(After(schedule[..n]), schedule[n]);
    }
  }

  /** A permanent error gets marked: from any reachable state with a task waiting to mark, at most one
      other step, by the lock holder and whichever way it goes, lets the mark happen; the channel is
      then failed or closed. */
  lemma PendingFailureIsMarked(schedule: seq<Step>, t: nat, ok: bool) returns (more: seq<Step>)
    requires Possible(schedule) && Waits(After(schedule), t, Failing)
    ensures Possible(schedule + more + [MarkFailed(t)])
    ensures var last := After(schedule + more + [MarkFailed(t)]).channel; last == Failed || last == Closed
    ensures After(schedule).lock.None? ==> more == []
    ensures After(schedule).lock.Some? ==> var h := After(schedule).lock.value;
      h != t && (more == [OpenDone(h, ok)] || more == [CloseDone(h, ok)])
  {
    var s := After(schedule);
    RunKeepsInv(schedule);
    if s.lock.None? {
      more := [];
      assert schedule + more == schedule;
    } else {
      var h := s.lock.value;
      var step := if s.tasks[h] == Opening then OpenDone(h, ok) else CloseDone(h, ok);
      more := [step];
      OneMore(schedule, step);
    }
    OneMore(schedule + more, MarkFailed(t));
    RunKeepsInv(schedule + more);
  }

  // ---------- Which connection a failure belongs to ----------

  /** `t` is a send or stream not yet over: in the transporter, or waiting to mark the channel. */
  predicate UnderWay(s: State, t: nat) {
    t in s.tasks && (s.tasks[t] == Sending || s.tasks[t] == Streaming || s.tasks[t] == Failing)
  }

  ghost predicate Quiet(s: State) {
    forall t :: !UnderWay(s, t)
  }

  /** How many times the channel has become active. */
  ghost function Connections(schedule: seq<Step>): nat
    requires Possible(schedule)
  {
    if schedule == [] then 0
    else
      var before := schedule[..|schedule| - 1];
      Connections(before) + (if After(before).channel != Active && After(schedule).channel == Active then 1 else 0)
  }

  /** The number of the connection on which `t` was last let through. */
  ghost function BegunOn(schedule: seq<Step>, t: nat): nat
    requires Possible(schedule)
  {
    if schedule == [] then 0
    else
      var before, last := schedule[..|schedule| - 1], schedule[|schedule| - 1];
      if (last == Send(t) || last == Stream(t)) && After(before).channel == Active then Connections(before)
      else BegunOn(before, t)
  }

  /** Every close of an open or failed channel, and every opening of a failed one, found the channel
      quiet. */
  ghost predicate Disciplined(schedule: seq<Step>)
    requires Possible(schedule)
  {
    schedule == [] ||
    var before, last := schedule[..|schedule| - 1], schedule[|schedule| - 1];
    var s := After(before);
    && Disciplined(before)
    && (((last.Close? && (s.channel == Active || s.channel == Failed)) || (last.Open? && s.channel == Failed)) ==> Quiet(s))
  }

  /** Only by being let through does an operation come under way. */
  lemma BeginsByStep(s: State, step: Step, t: nat)
    requires Enabled(s, step) && UnderWay(Next(s, step), t)
    ensures UnderWay(s, t) || ((step == Send(t) || step == Stream(t)) && s.channel == Active)
  {
  }

  lemma {:induction false} BegunOnThisOrEarlier(schedule: seq<Step>, t: nat)
    requires Possible(schedule) && UnderWay(After(schedule), t)
    ensures BegunOn(schedule, t) <= Connections(schedule)
  {
    if schedule != [] {
      var before := schedule[..|schedule| - 1];
      if UnderWay(After(before), t) {
        BegunOnThisOrEarlier(before, t);
      }
    }
  }

  lemma {:induction false} DisciplineKeepsConnection(schedule: seq<Step>)
    requires Possible(schedule) && Disciplined(schedule)
    ensures var s := After(schedule);
      && (s.channel == Closed || s.channel == Connecting || s.channel == Draining ==> Quiet(s))
      && (forall t :: UnderWay(s, t) ==> BegunOn(schedule, t) == Connections(schedule))
  {
    if schedule != [] {
      var before, last := schedule[..|schedule| - 1], schedule[|schedule| - 1];
      DisciplineKeepsConnection(before);
      RunKeepsInv(before);
      var s, s' := After(before), After(schedule);
      assert s' == Next(s, last);
      forall t | UnderWay(s', t)
        ensures BegunOn(schedule, t) == Connections(schedule)
        ensures s'.channel != Closed && s'.channel != Connecting && s'.channel != Draining
      {
        assert UnderWay(s, t) || last == Send(t) || last == Stream(t);
        assert UnderWay(s, t) ==> BegunOn(before, t) == Connections(before);
      }
    }
  }

  /** The safe half: as long as the channel is quiet whenever it is closed, or opened after a failure,
      a task that fails it acts on the connection it began on. */
  lemma QuietClosesFailOwnConnection(schedule: seq<Step>, t: nat)
    requires Possible(schedule) && Disciplined(schedule) && Enabled(After(schedule), MarkFailed(t))
    requires Next(After(schedule), MarkFailed(t)).channel != After(schedule).channel
    ensures BegunOn(schedule, t) == Connections(schedule)
  {
    DisciplineKeepsConnection(schedule);
  }

  /** After `more`, which begins with a close, task `t` can turn the reopened channel from active to
      failed, although it began on the connection that was closed, or before. */
  ghost predicate FailsReopened(schedule: seq<Step>, more: seq<Step>, t: nat)
    requires Possible(schedule)
  {
    && more != [] && more[0].Close?
    && Possible(schedule + more) && Enabled(After(schedule + more), MarkFailed(t))
    && After(schedule + more).channel == Active
    && BegunOn(schedule + more, t) <= Connections(schedule) < Connections(schedule + more)
  }

  /** What one more step does to the two counts. */
  lemma CountsAfterStep(schedule: seq<Step>, step: Step, t: nat)
    requires Possible(schedule) && Enabled(After(schedule), step)
    ensures Possible(schedule + [step]) && After(schedule + [step]) == Next(After(schedule), step)
    ensures Connections(schedule + [step]) == Connections(schedule)
              + (if After(schedule).channel != Active && Next(After(schedule), step).channel == Active then 1 else 0)
    ensures BegunOn(schedule + [step], t) ==
              if (step == Send(t) || step == Stream(t)) && After(schedule).channel == Active then Connections(schedule)
              else BegunOn(schedule, t)
  {
    assert (schedule + [step])[..|schedule|] == schedule;
  }

  lemma ActiveIsUnlocked(schedule: seq<Step>)
    requires Possible(schedule) && After(schedule).channel == Active
    ensures After(schedule).lock.None?
  {
    RunKeepsInv(schedule);
  }

  lemma ReopeningSteps(s: State, c: nat)
    requires s.channel == Active && s.lock.None? && c !in s.tasks
    ensures Enabled(s, Close(c))
    ensures var draining := Next(s, Close(c));
      draining.channel == Draining && Enabled(draining, CloseDone(c, true))
      && Next(draining, CloseDone(c, true)) == s.(channel := Closed)
    ensures Enabled(s.(channel := Closed), Open(c, false)) && Next(s.(channel := Closed), Open(c, false)) == s
  {
    assert s.tasks[c := Closing] - {c} == s.tasks;
  }

  /** A clean close and a reopening leave no trace in the state: only the connection is another. */
  lemma CleanReopening(schedule: seq<Step>, t: nat) returns (more: seq<Step>)
    requires Possible(schedule) && After(schedule).channel == Active
    ensures more != [] && more[0].Close?
    ensures Possible(schedule + more) && After(schedule + more) == After(schedule)
    ensures Connections(schedule + more) == Connections(schedule) + 1 && BegunOn(schedule + more, t) == BegunOn(schedule, t)
  {
    var s := After(schedule);
    var c := Unused(s.tasks.Keys);
    ActiveIsUnlocked(schedule);
    hide Possible, After, Connections, BegunOn, Next, Enabled;
    ReopeningSteps(s, c);
    CountsAfterStep(schedule, Close(c), t);
    var s1 := schedule + [Close(c)];
    CountsAfterStep(s1, CloseDone(c, true), t);
    var s2 := s1 + [CloseDone(c, true)];
    CountsAfterStep(s2, Open(c, false), t);
    more := [Close(c), CloseDone(c, true), Open(c, false)];
    assert s2 + [Open(c, false)] == schedule + more;
  }

  lemma PermanentErrorIsPending(schedule: seq<Step>, t: nat)
    requires Possible(schedule) && After(schedule).channel == Active
    requires Waits(After(schedule), t, Sending) || Waits(After(schedule), t, Streaming)
    ensures var later := schedule + [TransportError(t, true)];
      && Possible(later) && Waits(After(later), t, Failing)
      && After(later).channel == Active && After(later).lock == After(schedule).lock
      && Connections(later) == Connections(schedule) && BegunOn(later, t) == BegunOn(schedule, t)
  {
    CountsAfterStep(schedule, TransportError(t, true), t);
    hide Possible, After, Connections, BegunOn;
  }

  /** Any send or stream under way, or already failing, lives through a clean close and a reopening,
      and can then fail the reopened channel. */
  lemma LateErrorFailsReopenedChannel(schedule: seq<Step>, t: nat) returns (more: seq<Step>)
    requires Possible(schedule) && After(schedule).channel == Active
    requires UnderWay(After(schedule), t)
    ensures FailsReopened(schedule, more, t)
  {
    BegunOnThisOrEarlier(schedule, t);
    ActiveIsUnlocked(schedule);
    more := CleanReopening(schedule, t);
    hide Possible, After, Connections, BegunOn, Next, Enabled;
    if After(schedule).tasks[t] != Failing {
      PermanentErrorIsPending(schedule + more, t);
      hide FailsReopened;
      assert schedule + more + [TransportError(t, true)] == schedule + (more + [TransportError(t, true)]);
      more := more + [TransportError(t, true)];
    }
    MarkWouldFail(schedule, more, t);
  }

  lemma MarkWouldFail(schedule: seq<Step>, more: seq<Step>, t: nat)
    requires Possible(schedule) && more != [] && more[0].Close? && Possible(schedule + more)
    requires var s := After(schedule + more); s.channel == Active && s.lock.None? && Waits(s, t, Failing)
    requires BegunOn(schedule + more, t) <= Connections(schedule) < Connections(schedule + more)
    ensures FailsReopened(schedule, more, t)
  {
  }

  /** From a quiet channel on, whatever is under way began after the close. */
  lemma {:induction false} QuietCloseSeparates(schedule: seq<Step>, more: seq<Step>)
    requires Possible(schedule) && After(schedule).channel == Active
    requires Quiet(After(schedule)) && more != [] && more[0].Close? && Possible(schedule + more)
    ensures Connections(schedule + more) >= Connections(schedule)
    ensures After(schedule + more).channel == Active ==> Connections(schedule + more) > Connections(schedule)
    ensures forall t :: UnderWay(After(schedule + more), t) ==> BegunOn(schedule + more, t) > Connections(schedule)
  {
    var n := |more| - 1;
    var before := schedule + more[..n];
    assert (schedule + more)[..|schedule + more| - 1] == before;
    assert schedule + more == before + [more[n]];
    if n == 0 {
      assert before == schedule;
    } else {
      QuietCloseSeparates(schedule, more[..n]);
    }
    assert Possible(before) && Enabled(After(before), more[n]) && (n == 0 ==> Quiet(After(before)));
    CountsAfterStep(before, more[n], 0);
    hide Possible, After, Connections, BegunOn, UnderWay;
    forall t | UnderWay(After(schedule + more), t) ensures BegunOn(schedule + more, t) > Connections(schedule) {
      CountsAfterStep(before, more[n], t);
      BeginsByStep(After(before), more[n], t);
    }
  }

  /** Exactly when a close can strand a failure on a later connection: a caller about to close an
      active channel can rule it out by waiting until no send or stream is under way, and not otherwise. */
  lemma ReopenedChannelFailsExactly(schedule: seq<Step>)
    requires Possible(schedule) && After(schedule).channel == Active
    ensures (exists more, t :: FailsReopened(schedule, more, t)) <==> !Quiet(After(schedule))
  {
    if !Quiet(After(schedule)) {
      var t :| UnderWay(After(schedule), t);
      var more := LateErrorFailsReopenedChannel(schedule, t);
    }
    if exists more, t :: FailsReopened(schedule, more, t) {
      var more, t :| FailsReopened(schedule, more, t);
      if Quiet(After(schedule)) {
        QuietCloseSeparates(schedule, more);
        assert false;
      }
    }
  }

  /** The object.  Each method is one stretch of a coroutine; `lock` and `tasks` are what the event
      loop keeps for it. */
  class Channel {
    var state: ChannelState
    var metrics: Metrics
    var lock: Option<nat>
    var tasks: map<nat, Task>

    ghost function Snapshot(): State
      reads this
    {
      State(state, lock, tasks, metrics)
    }

    constructor ()
      ensures Snapshot() == INITIAL
    {
      state, metrics, lock, tasks := Closed, Metrics(0, 0, 0), None, map[];
    }

    method OpenHead(t: nat, connects: bool) returns (result: Result)
      requires Enabled(Snapshot(), Open(t, connects))
      modifies this
      ensures Snapshot() == Next(old(Snapshot()), Open(t, connects))
      ensures result == Raised <==> old(state) == Draining
      ensures result == Suspended <==> t in tasks
      ensures result == Suspended ==> state == Connecting
      ensures result == Returned ==> state == Active || state == old(state) == Connecting
      ensures result == Raised ==> state == old(state)
    {
      if state == Active || state == Connecting {
        return Returned;
      }
      if state == Draining {
        return Raised;
      }
      state := Connecting;
      if connects {
        lock, tasks := Some(t), tasks[t := Opening];
        return Suspended;
      }
      state := Active;
      result := Returned;
    }

    method OpenTail(t: nat, ok: bool) returns (result: Result)
      requires Enabled(Snapshot(), OpenDone(t, ok))
      modifies this
      ensures Snapshot() == Next(old(Snapshot()), OpenDone(t, ok))
      ensures result == if ok then Returned else Raised
      ensures state == if result == Returned then Active else Failed
    {
      if ok {
        state := Active;
        result := Returned;
      } else {
        state := Failed;
        metrics := metrics.(errors := metrics.errors + 1);
        result := Raised;
      }
      lock, tasks := None, tasks - {t};
    }

    method CloseHead(t: nat) returns (result: Result)
      requires Enabled(Snapshot(), Close(t))
      modifies this
      ensures Snapshot() == Next(old(Snapshot()), Close(t))
      ensures result == if t in tasks then Suspended else Returned
      ensures result == Suspended ==> state == Draining
      ensures result == Returned ==> state == old(state) && (state == Closed || state == Draining)
    {
      if state == Closed || state == Draining {
        return Returned;
      }
      state := Draining;
      lock, tasks := Some(t), tasks[t := Closing];
      result := Suspended;
    }

    method CloseTail(t: nat, ok: bool) returns (result: Result)
      requires Enabled(Snapshot(), CloseDone(t, ok))
      modifies this
      ensures Snapshot() == Next(old(Snapshot()), CloseDone(t, ok))
      ensures result == if ok then Returned else Raised
      ensures state == if result == Returned then Closed else Failed
    {
      if ok {
        state := Closed;
        result := Returned;
      } else {
        state := Failed;
        metrics := metrics.(errors := metrics.errors + 1);
        result := Raised;
      }
      lock, tasks := None, tasks - {t};
    }

    /** The head of `send` and of `stream`: raises unless the channel is active. */
    method Begin(t: nat, streams: bool) returns (result: Result)
      requires t !in tasks
      modifies this`tasks
      ensures Snapshot() == Next(old(Snapshot()), if streams then Stream(t) else Send(t))
      ensures result == if state == Active then Suspended else Raised
    {
      if state != Active {
        return Raised;
      }
      tasks := tasks[t := if streams then Streaming else Sending];
      result := Suspended;
    }

    method SendTail(t: nat, success: bool, bytes: int)
      requires Enabled(Snapshot(), SendReport(t, success, bytes))
      modifies this
      ensures Snapshot() == Next(old(Snapshot()), SendReport(t, success, bytes))
    {
      if success {
        metrics := metrics.(messagesSent := metrics.messagesSent + 1);
        metrics := metrics.(bytesSent := metrics.bytesSent + bytes);
      }
      tasks := tasks - {t};
    }

    method TransporterRaised(t: nat, permanent: bool)
      requires Enabled(Snapshot(), TransportError(t, permanent))
      modifies this
      ensures Snapshot() == Next(old(Snapshot()), TransportError(t, permanent))
    {
      metrics := metrics.(errors := metrics.errors + 1);
      if permanent {
        tasks := tasks[t := Failing];
      } else {
        tasks := tasks - {t};
      }
    }

    method TransitionToFailed(t: nat)
      requires Enabled(Snapshot(), MarkFailed(t))
      modifies this
      ensures Snapshot() == Next(old(Snapshot()), MarkFailed(t))
      ensures state == if old(state) == Closed then Closed else Failed
    {
      if state != Failed && state != Closed {
        state := Failed;
      }
      tasks := tasks - {t};
    }
  }
}
