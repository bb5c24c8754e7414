/** Merging the streams of several children: one reader task and one queue per child, and a polling
    consumer.  Tasks interleave between the steps below. */
module StreamMerger {
  import opened Sequences

  type Chunk = string
  type Failure = string

  datatype Message = Data(chunk: Chunk) | Done | Error(error: Failure)

  datatype Strategy = Parallel | Broadcast | Mux

  datatype Config = Config(children: nat, strategy: Strategy, failFast: bool)

  datatype Outcome =
    | Completed
    | RaisedTransient(errors: seq<(nat, Failure)>)   // after all children ended
    | RaisedPermanent(error: Failure)                // at the first error

  /** Where the consumer stands. */
  datatype Phase =
    | LoopHead
    | Polling(snapshot: seq<nat>, pos: nat)
    | Sleeping
    | Finished(outcome: Outcome)

  /** `inbox[i]` is the queue of child `i`; `queues` lists the children still polled.  `output` and
      `errors` carry the child each entry came from.  `produced` and `ended` record what the child
      streams did: the chunks read so far, and how a stream ended (`Some(None)` is a regular end). */
  datatype State = State(
    inbox: seq<seq<Message>>,
    queues: seq<nat>,
    active: int,
    errors: seq<(nat, Failure)>,
    phase: Phase,
    output: seq<(nat, Chunk)>,
    produced: seq<seq<Chunk>>,
    ended: seq<Option<Option<Failure>>>)

  datatype Step = Read(child: nat, chunk: Chunk) | End(child: nat, error: Option<Failure>) | Consume

  function Initial(cfg: Config): State {
    State(seq(cfg.children, _ => []), seq(cfg.children, i => i), cfg.children, [], LoopHead, [],
          seq(cfg.children, _ => []), seq(cfg.children, _ => None))
  }

  function Terminal(error: Option<Failure>): Message {
    if error.Some? then Error(error.value) else Done
  }

  predicate Shaped(cfg: Config, s: State) {
    && |s.inbox| == |s.produced| == |s.ended| == cfg.children
    && (forall q :: q in s.queues ==> q < cfg.children)
    && (s.phase.Polling? ==> forall q :: q in s.phase.snapshot ==> q < cfg.children)
  }

  /** `list.remove`: drops the first occurrence. */
  function Remove(s: seq<nat>, x: nat): (r: seq<nat>)
    ensures |r| == if x in s then |s| - 1 else |s|
    ensures forall y :: y in r ==> y in s
  {
    if s == [] then [] else if s[0] == x then s[1..] else [s[0]] + Remove(s[1..], x)
  }

  lemma {:induction false} RemoveFromIncreasing(s: seq<nat>, x: nat)
    requires Increasing(s)
    ensures Increasing(Remove(s, x))
  {
    if s != [] && s[0] != x {
      RemoveFromIncreasing(s[1..], x);
      SmallerFirst(s[0], Remove(s[1..], x));
    }
  }

  lemma SmallerFirst(x: nat, rest: seq<nat>)
    requires Increasing(rest) && forall y :: y in rest ==> x < y
    ensures Increasing([x] + rest)
  {
    var all := [x] + rest;
    forall j, k | 0 <= j < k < |all| ensures all[j] < all[k] {
      assert all[k] == rest[k - 1] && rest[k - 1] in rest;
    }
  }

  lemma {:induction false} RemoveFromDistinct(s: seq<nat>, x: nat)
    requires Distinct(s)
    ensures Distinct(Remove(s, x)) && forall y :: y in Remove(s, x) <==> y in s && y != x
  {
    if s != [] {
      RemoveFromDistinct(s[1..], x);
      assert forall y :: y in s <==> y == s[0] || y in s[1..];
      assert s[0] !in s[1..];
    }
  }

  /** One turn of the consumer, up to its next point of interest. */
  function ConsumerStep(cfg: Config, s: State): (s': State)
    requires Shaped(cfg, s)
    ensures Shaped(cfg, s')
  {
    match s.phase
    case Finished(_) => s
    case Sleeping => s.(phase := LoopHead)
    case LoopHead =>
      if s.active > 0 then s.(phase := Polling(s.queues, 0))
      else if s.errors != [] && cfg.strategy == Broadcast then s.(phase := Finished(RaisedTransient(s.errors)))
      else s.(phase := Finished(Completed))
    case Polling(snapshot, pos) =>
      if pos >= |snapshot| then
        s.(phase := if s.active > 0 then Sleeping else LoopHead)
      else
        var q := snapshot[pos];
        assert q in snapshot;
        if s.inbox[q] == [] then s.(phase := Polling(snapshot, pos + 1))
        else
          var s' := s.(inbox := s.inbox[q := s.inbox[q][1..]], phase := Polling(snapshot, pos + 1));
          match s.inbox[q][0]
          case Data(chunk) => s'.(output := s.output + [(q, chunk)])
          case Done => s'.(active := s.active - 1, queues := Remove(s.queues, q))
          case Error(e) =>
            s'.(active := s.active - 1, queues := Remove(s.queues, q), errors := s.errors + [(q, e)],
                phase := if cfg.strategy == Broadcast && cfg.failFast then Finished(RaisedPermanent(e))
                         else Polling(snapshot, pos + 1))
  }

  /** A step that is not enabled leaves the state alone. */
  function Next(cfg: Config, s: State, step: Step): (s': State)
    requires Shaped(cfg, s)
    ensures Shaped(cfg, s')
  {
    match step
    case Consume => ConsumerStep(cfg, s)
    case Read(i, chunk) =>
      if i < cfg.children && s.ended[i].None? then
        s.(inbox := s.inbox[i := s.inbox[i] + [Data(chunk)]], produced := s.produced[i := s.produced[i] + [chunk]])
      else s
    case End(i, error) =>
      if i < cfg.children && s.ended[i].None? then
        s.(inbox := s.inbox[i := s.inbox[i] + [Terminal(error)]], ended := s.ended[i := Some(error)])
      else s
  }

  function Run(cfg: Config, schedule: seq<Step>): (s: State)
    ensures Shaped(cfg, s)
  {
    if schedule == [] then Initial(cfg)
    else Next(cfg, Run(cfg, schedule[..|schedule| - 1]), schedule[|schedule| - 1])
  }

  /** The chunks of `output` that came from child `i`. */
  function From(output: seq<(nat, Chunk)>, i: nat): seq<Chunk> {
    if output == [] then []
    else From(output[..|output| - 1], i) + (if output[|output| - 1].0 == i then [output[|output| - 1].1] else [])
  }

  /** The chunks waiting in a queue. */
  function Waiting(inbox: seq<Message>): seq<Chunk> {
    if inbox == [] then []
    else (if inbox[0].Data? then [inbox[0].chunk] else []) + Waiting(inbox[1..])
  }

  lemma {:induction false} WaitingSnoc(inbox: seq<Message>, m: Message)
    ensures Waiting(inbox + [m]) == Waiting(inbox) + (if m.Data? then [m.chunk] else [])
  {
    var all := inbox + [m];
    if inbox == [] {
      assert all == [m] && all[1..] == [];
    } else {
      assert all[1..] == inbox[1..] + [m] && all[0] == inbox[0];
      WaitingSnoc(inbox[1..], m);
    }
  }

  /** A polled child: only data is queued until the stream ends, then the end marker comes last. */
  ghost predicate QueueShape(inbox: seq<Message>, ended: Option<Option<Failure>>) {
    && (forall k :: 0 <= k < |inbox| && (ended.None? || k < |inbox| - 1) ==> inbox[k].Data?)
    && (ended.Some? ==> |inbox| > 0 && inbox[|inbox| - 1] == Terminal(ended.value))
  }

  ghost predicate ChildInv(s: State, i: nat)
    requires i < |s.inbox| == |s.produced| == |s.ended|
  {
    && s.produced[i] == From(s.output, i) + Waiting(s.inbox[i])
    && (if i in s.queues then QueueShape(s.inbox[i], s.ended[i]) else s.ended[i].Some? && s.inbox[i] == [])
    && (forall e :: (i, e) in s.errors <==> i !in s.queues && s.ended[i] == Some(Some(e)))
  }

  ghost predicate PhaseInv(cfg: Config, s: State) {
    match s.phase
    case LoopHead => true
    case Sleeping => true
    case Polling(snapshot, pos) =>
      pos <= |snapshot| && Distinct(snapshot) && Increasing(snapshot) && forall k :: pos <= k < |snapshot| ==> snapshot[k] in s.queues
    case Finished(Completed) => s.queues == [] && (s.errors == [] || cfg.strategy != Broadcast)
    case Finished(RaisedTransient(errors)) => s.queues == [] && errors == s.errors != [] && cfg.strategy == Broadcast && !cfg.failFast
    case Finished(RaisedPermanent(e)) =>
      cfg.strategy == Broadcast && cfg.failFast && s.errors != [] && s.errors[0].1 == e
  }

  /** No child is listed twice. */
  ghost predicate OncePerChild(errors: seq<(nat, Failure)>) {
    forall k, l :: 0 <= k < l < |errors| ==> errors[k].0 != errors[l].0
  }

  ghost predicate Inv(cfg: Config, s: State) {
    && Shaped(cfg, s) && OncePerChild(s.errors)
    && Distinct(s.queues) && Increasing(s.queues) && s.active == |s.queues|
    && (forall i :: 0 <= i < cfg.children ==> ChildInv(s, i))
    && (forall k :: 0 <= k < |s.errors| ==> s.errors[k].0 < cfg.children)
    && (forall k :: 0 <= k < |s.output| ==> s.output[k].0 < cfg.children)
    && (cfg.strategy == Broadcast && cfg.failFast && !s.phase.Finished? ==> s.errors == [])
    && PhaseInv(cfg, s)
  }

  lemma InitialInv(cfg: Config)
    ensures Inv(cfg, Initial(cfg))
  {
    var s := Initial(cfg);
    forall i | 0 <= i < cfg.children ensures ChildInv(s, i) {
      assert s.queues[i] == i;
    }
  }

  lemma ReadKeepsInv(cfg: Config, s: State, i: nat, chunk: Chunk)
    requires Inv(cfg, s)
    ensures Inv(cfg, Next(cfg, s, Read(i, chunk)))
  {
    var s' := Next(cfg, s, Read(i, chunk));
    if s' != s {
      WaitingSnoc(s.inbox[i], Data(chunk));
      forall j | 0 <= j < cfg.children ensures ChildInv(s', j) {
        assert ChildInv(s, j);
      }
    }
  }

  lemma EndKeepsInv(cfg: Config, s: State, i: nat, error: Option<Failure>)
    requires Inv(cfg, s)
    ensures Inv(cfg, Next(cfg, s, End(i, error)))
  {
    var s' := Next(cfg, s, End(i, error));
    if s' != s {
      assert ChildInv(s, i);
      WaitingSnoc(s.inbox[i], Terminal(error));
      forall j | 0 <= j < cfg.children ensures ChildInv(s', j) {
        assert ChildInv(s, j);
      }
    }
  }

  lemma TakeDataKeepsChild(s: State, s': State, q: nat, chunk: Chunk, j: nat)
    requires q < |s.inbox| == |s.produced| == |s.ended| && j < |s.inbox| && q in s.queues
    requires ChildInv(s, q) && ChildInv(s, j)
    requires s.inbox[q] != [] && s.inbox[q][0] == Data(chunk)
    requires s' == s.(inbox := s.inbox[q := s.inbox[q][1..]], output := s.output + [(q, chunk)], phase := s'.phase)
    ensures ChildInv(s', j)
  {
    assert s'.output[..|s'.output| - 1] == s.output;
    assert |s.inbox[q]| > 1 || s.ended[q].None?;
  }

  lemma TakeEndKeepsChild(s: State, s': State, q: nat, j: nat)
    requires q < |s.inbox| == |s.produced| == |s.ended| && j < |s.inbox| && q in s.queues && Distinct(s.queues)
    requires ChildInv(s, q) && ChildInv(s, j)
    requires s.inbox[q] != [] && !s.inbox[q][0].Data?
    requires s'.inbox == s.inbox[q := s.inbox[q][1..]] && s'.queues == Remove(s.queues, q)
    requires s'.output == s.output && s'.produced == s.produced && s'.ended == s.ended
    requires s'.errors == s.errors + (if s.inbox[q][0].Error? then [(q, s.inbox[q][0].error)] else [])
    ensures ChildInv(s', j)
  {
    RemoveFromDistinct(s.queues, q);
    assert |s.inbox[q]| == 1;
  }

  lemma TakeEndKeepsOnce(s: State, q: nat, e: Failure)
    requires q < |s.inbox| == |s.produced| == |s.ended| && q in s.queues && ChildInv(s, q) && OncePerChild(s.errors)
    ensures OncePerChild(s.errors + [(q, e)])
  {
    forall k | 0 <= k < |s.errors| ensures s.errors[k].0 != q {
      assert s.errors[k] in s.errors && s.errors[k] == (s.errors[k].0, s.errors[k].1);
    }
  }

  /** The consumer is about to look into the queue of child `q`. */
  ghost predicate LooksInto(s: State, q: nat) {
    s.phase.Polling? && s.phase.pos < |s.phase.snapshot| && s.phase.snapshot[s.phase.pos] == q && q < |s.inbox|
  }

  lemma PollDataKeepsInv(cfg: Config, s: State, q: nat)
    requires Inv(cfg, s) && LooksInto(s, q) && s.inbox[q] != [] && s.inbox[q][0].Data?
    ensures Inv(cfg, ConsumerStep(cfg, s))
  {
    hide From, Waiting, QueueShape, Increasing, Distinct, OncePerChild, ChildInv;
    var s' := ConsumerStep(cfg, s);
    assert q in s.queues && ChildInv(s, q);
    forall j | 0 <= j < cfg.children ensures ChildInv(s', j) {
      assert ChildInv(s, j);
      TakeDataKeepsChild(s, s', q, s.inbox[q][0].chunk, j);
    }
  }

  lemma PollEndKeepsInv(cfg: Config, s: State, q: nat)
    requires Inv(cfg, s) && LooksInto(s, q) && s.inbox[q] != [] && !s.inbox[q][0].Data?
    ensures Inv(cfg, ConsumerStep(cfg, s))
  {
    hide From, Waiting, QueueShape, Increasing, Distinct, OncePerChild, ChildInv;
    var s' := ConsumerStep(cfg, s);
    assert q in s.queues && ChildInv(s, q);
    RemoveFromDistinct(s.queues, q);
    RemoveFromIncreasing(s.queues, q);
    if s.inbox[q][0].Error? {
      TakeEndKeepsOnce(s, q, s.inbox[q][0].error);
    }
    forall j | 0 <= j < cfg.children ensures ChildInv(s', j) {
      assert ChildInv(s, j);
      TakeEndKeepsChild(s, s', q, j);
    }
    LaterInSnapshot(s.phase.snapshot, s.phase.pos);
  }

  lemma LaterInSnapshot(snapshot: seq<nat>, pos: nat)
    requires Distinct(snapshot) && pos < |snapshot|
    ensures forall k :: pos < k < |snapshot| ==> snapshot[k] != snapshot[pos]
  {
  }

  /** Without a message the step changes the phase only. */
  lemma PhaseStepKeepsInv(cfg: Config, s: State)
    requires Inv(cfg, s) && forall q: nat :: LooksInto(s, q) ==> s.inbox[q] == []
    ensures Inv(cfg, ConsumerStep(cfg, s))
  {
    hide From, Waiting, QueueShape, Increasing, Distinct, OncePerChild, ChildInv;
    var s' := ConsumerStep(cfg, s);
    if s.phase.Polling? && s.phase.pos < |s.phase.snapshot| {
      var q := s.phase.snapshot[s.phase.pos];
      assert q in s.phase.snapshot && LooksInto(s, q);
    }
    assert s' == s.(phase := s'.phase);
    forall j | 0 <= j < cfg.children ensures ChildInv(s', j) {
      assert ChildInv(s, j);
      SameButPhase(s, s', j);
    }
  }

  lemma SameButPhase(s: State, s': State, j: nat)
    requires j < |s.inbox| == |s.produced| == |s.ended| && ChildInv(s, j) && s' == s.(phase := s'.phase)
    ensures ChildInv(s', j)
  {
  }

  lemma ConsumeKeepsInv(cfg: Config, s: State)
    requires Inv(cfg, s)
    ensures Inv(cfg, ConsumerStep(cfg, s))
  {
    hide Inv, ConsumerStep;
    if q: nat :| LooksInto(s, q) && s.inbox[q] != [] {
      if s.inbox[q][0].Data? {
        PollDataKeepsInv(cfg, s, q);
      } else {
        PollEndKeepsInv(cfg, s, q);
      }
    } else {
      PhaseStepKeepsInv(cfg, s);
    }
  }

  lemma {:induction false} RunKeepsInv(cfg: Config, schedule: seq<Step>)
    ensures Inv(cfg, Run(cfg, schedule))
  {
    hide Inv;
    if schedule == [] {
      InitialInv(cfg);
    } else {
      var n := |schedule| - 1;
      var s := Run(cfg, schedule[..n]);
      RunKeepsInv(cfg, schedule[..n]);
      match schedule[n] {
        case Read(i, chunk) => ReadKeepsInv(cfg, s, i, chunk);
        case End(i, error) => EndKeepsInv(cfg, s, i, error);
        case Consume => ConsumeKeepsInv(cfg, s);
      }
    }
  }

  /** How the stream of child `i` ended, if it did: the first end in the schedule counts. */
  function EndOf(schedule: seq<Step>, i: nat): Option<Option<Failure>> {
    if schedule == [] then None
    else
      var before := EndOf(schedule[..|schedule| - 1], i);
      var last := schedule[|schedule| - 1];
      if before.None? && last.End? && last.child == i then Some(last.error) else before
  }

  /** What the stream of child `i` produced before it ended. */
  function Produced(schedule: seq<Step>, i: nat): seq<Chunk> {
    if schedule == [] then []
    else
      var before := schedule[..|schedule| - 1];
      var last := schedule[|schedule| - 1];
      Produced(before, i) + (if last.Read? && last.child == i && EndOf(before, i).None? then [last.chunk] else [])
  }

  lemma StepRecords(cfg: Config, s: State, step: Step, i: nat)
    requires Shaped(cfg, s) && i < cfg.children
    ensures var s' := Next(cfg, s, step);
      && s'.produced[i] == s.produced[i] + (if step.Read? && step.child == i && s.ended[i].None? then [step.chunk] else [])
      && s'.ended[i] == if step.End? && step.child == i && s.ended[i].None? then Some(step.error) else s.ended[i]
  {
  }

  lemma {:induction false} RunRecordsStreams(cfg: Config, schedule: seq<Step>, i: nat)
    requires i < cfg.children
    ensures Run(cfg, schedule).produced[i] == Produced(schedule, i)
    ensures Run(cfg, schedule).ended[i] == EndOf(schedule, i)
  {
    if schedule != [] {
      var n := |schedule| - 1;
      RunRecordsStreams(cfg, schedule[..n], i);
      StepRecords(cfg, Run(cfg, schedule[..n]), schedule[n], i);
      hide Next;
    }
  }

  ghost predicate FailedWith(cfg: Config, schedule: seq<Step>, e: Failure) {
    exists i: nat :: i < cfg.children && EndOf(schedule, i) == Some(Some(e))
  }

  ghost predicate SomeFailed(cfg: Config, schedule: seq<Step>) {
    exists e :: FailedWith(cfg, schedule, e)
  }

  /** Every stream has ended and came through whole. */
  ghost predicate AllDelivered(cfg: Config, schedule: seq<Step>, output: seq<(nat, Chunk)>) {
    forall i :: 0 <= i < cfg.children ==> EndOf(schedule, i).Some? && From(output, i) == Produced(schedule, i)
  }

  /** The errors are exactly those of the failed streams, each once. */
  ghost predicate AllFailures(cfg: Config, schedule: seq<Step>, errors: seq<(nat, Failure)>) {
    && OncePerChild(errors)
    && forall i: nat, e :: (i, e) in errors <==> i < cfg.children && EndOf(schedule, i) == Some(Some(e))
  }

  ghost predicate RightOutcome(cfg: Config, schedule: seq<Step>, s: State, outcome: Outcome) {
    match outcome
    case Completed =>
      AllDelivered(cfg, schedule, s.output) && !(cfg.strategy == Broadcast && SomeFailed(cfg, schedule))
    case RaisedTransient(errors) =>
      && AllDelivered(cfg, schedule, s.output) && cfg.strategy == Broadcast && !cfg.failFast
      && SomeFailed(cfg, schedule) && AllFailures(cfg, schedule, errors)
    case RaisedPermanent(e) =>
      cfg.strategy == Broadcast && cfg.failFast && FailedWith(cfg, schedule, e)
  }

  lemma ErrorsAreFailures(cfg: Config, schedule: seq<Step>, i: nat, e: Failure)
    requires i < cfg.children
    ensures (i, e) in Run(cfg, schedule).errors ==> FailedWith(cfg, schedule, e)
    ensures i !in Run(cfg, schedule).queues && EndOf(schedule, i) == Some(Some(e)) ==> (i, e) in Run(cfg, schedule).errors
  {
    RunKeepsInv(cfg, schedule);
    RunRecordsStreams(cfg, schedule, i);
    assert ChildInv(Run(cfg, schedule), i);
  }

  lemma DeliveredFrom(cfg: Config, schedule: seq<Step>, i: nat)
    requires i < cfg.children
    ensures var s := Run(cfg, schedule);
      && From(s.output, i) <= Produced(schedule, i)
      && (i !in s.queues ==> EndOf(schedule, i).Some? && From(s.output, i) == Produced(schedule, i))
  {
    RunKeepsInv(cfg, schedule);
    RunRecordsStreams(cfg, schedule, i);
    assert ChildInv(Run(cfg, schedule), i);
  }

  lemma ErrorsAreAllFailures(cfg: Config, schedule: seq<Step>)
    requires Run(cfg, schedule).queues == []
    ensures AllFailures(cfg, schedule, Run(cfg, schedule).errors)
  {
    var s := Run(cfg, schedule);
    RunKeepsInv(cfg, schedule);
    forall i: nat, e ensures (i, e) in s.errors <==> i < cfg.children && EndOf(schedule, i) == Some(Some(e)) {
      if i < cfg.children {
        RunRecordsStreams(cfg, schedule, i);
        assert ChildInv(s, i);
      } else {
        assert (i, e) !in s.errors;
      }
    }
  }

  /** For every schedule of readers and consumer, at every moment: `active` counts the queues still
      polled, and what was yielded from child `i` is a prefix of what its stream produced.  Once the
      merge has ended without failing fast, every stream has ended and nothing is lost, duplicated
      or reordered; how it ends depends only on whether some stream failed. */
  lemma MergeIsFaithful(cfg: Config, schedule: seq<Step>)
    ensures var s := Run(cfg, schedule);
      && s.active == |s.queues|
      && (forall k :: 0 <= k < |s.output| ==> s.output[k].0 < cfg.children)
      && (forall i :: 0 <= i < cfg.children ==> From(s.output, i) <= Produced(schedule, i))
      && (s.phase.Finished? ==> RightOutcome(cfg, schedule, s, s.phase.outcome))
  {
    hide Run, From, Produced, EndOf, ChildInv;
    var s := Run(cfg, schedule);
    RunKeepsInv(cfg, schedule);
    forall i | 0 <= i < cfg.children
      ensures From(s.output, i) <= Produced(schedule, i)
      ensures i !in s.queues ==> EndOf(schedule, i).Some? && From(s.output, i) == Produced(schedule, i)
    {
      DeliveredFrom(cfg, schedule, i);
    }
    if s.errors != [] {
      assert s.errors[0] in s.errors;
      ErrorsAreFailures(cfg, schedule, s.errors[0].0, s.errors[0].1);
    }
    if s.queues == [] {
      ErrorsAreAllFailures(cfg, schedule);
    }
    hide AllFailures;
    if s.queues == [] && SomeFailed(cfg, schedule) {
      var e :| FailedWith(cfg, schedule, e);
      var i: nat :| i < cfg.children && EndOf(schedule, i) == Some(Some(e));
      ErrorsAreFailures(cfg, schedule, i, e);
    }
  }

  function Queued(inbox: seq<seq<Message>>): nat {
    if inbox == [] then 0 else |inbox[0]| + Queued(inbox[1..])
  }

  lemma {:induction false} QueuedAfterTake(inbox: seq<seq<Message>>, q: nat)
    requires q < |inbox| && inbox[q] != []
    ensures Queued(inbox[q := inbox[q][1..]]) == Queued(inbox) - 1
  {
    if q > 0 {
      assert inbox[q := inbox[q][1..]][1..] == inbox[1..][q - 1 := inbox[1..][q - 1][1..]];
      QueuedAfterTake(inbox[1..], q - 1);
    }
  }

  /** Bound on the consumer turns still needed once no stream is running. */
  function TurnsLeft(s: State): nat {
    4 * Queued(s.inbox) + match s.phase
    case Polling(snapshot, pos) => if pos >= |snapshot| then 3 else 0
    case Sleeping => 2
    case LoopHead => 1
    case Finished(_) => 0
  }

  ghost predicate AllEnded(s: State) {
    forall i :: 0 <= i < |s.ended| ==> s.ended[i].Some?
  }

  lemma ConsumerProgress(cfg: Config, s: State)
    requires Inv(cfg, s) && AllEnded(s) && !s.phase.Finished?
    ensures ConsumerStep(cfg, s).phase.Finished? || TurnsLeft(ConsumerStep(cfg, s)) < TurnsLeft(s)
    ensures AllEnded(ConsumerStep(cfg, s))
  {
    if s.phase.Polling? && s.phase.pos < |s.phase.snapshot| {
      var q := s.phase.snapshot[s.phase.pos];
      assert q in s.queues && ChildInv(s, q);
      QueuedAfterTake(s.inbox, q);
    }
  }

  /** Once every child stream has ended, the consumer finishes within a bounded number of turns. */
  lemma {:induction false} ConsumerFinishes(cfg: Config, schedule: seq<Step>) returns (turns: seq<Step>)
    requires AllEnded(Run(cfg, schedule))
    ensures |turns| <= TurnsLeft(Run(cfg, schedule)) + 1 && forall k :: 0 <= k < |turns| ==> turns[k] == Consume
    ensures Run(cfg, schedule + turns).phase.Finished?
    decreases TurnsLeft(Run(cfg, schedule))
  {
    hide Inv, AllEnded, ConsumerStep;
    var s := Run(cfg, schedule);
    if s.phase.Finished? {
      turns := [];
      assert schedule + turns == schedule;
    } else {
      RunKeepsInv(cfg, schedule);
      ConsumerProgress(cfg, s);
      var schedule' := schedule + [Consume];
      assert schedule'[..|schedule|] == schedule;
      if Run(cfg, schedule').phase.Finished? {
        turns := [Consume];
      } else {
        var rest := ConsumerFinishes(cfg, schedule');
        turns := [Consume] + rest;
        assert schedule + turns == schedule' + rest;
      }
    }
  }

  // ---------- No stream is kept waiting ----------

  /** How many turns the consumer takes in `steps`. */
  function Turns(steps: seq<Step>): nat {
    if steps == [] then 0 else (if steps[0].Consume? then 1 else 0) + Turns(steps[1..])
  }

  function IndexOf(s: seq<nat>, x: nat): (k: nat)
    ensures k <= |s| && (k < |s| <==> x in s) && (k < |s| ==> s[k] == x)
  {
    if s == [] || s[0] == x then 0 else 1 + IndexOf(s[1..], x)
  }

  /** Turns until the consumer looks into the queue of child `i`: what is left of this pass, and, if the
      pass has gone by that queue, the next pass as far as that queue. */
  function TurnsUntil(s: State, i: nat): nat {
    match s.phase
    case Finished(_) => 0
    case LoopHead => |s.queues| + 1
    case Sleeping => |s.queues| + 2
    case Polling(snapshot, pos) =>
      var left := if pos <= |snapshot| then snapshot[pos..] else [];
      if i in left then IndexOf(left, i) + 1 else |left| + |s.queues| + 3
  }

  /** The message waiting first for child `i` in state `s` has been dealt with by state `s'`: its chunk
      came out next, or the child is no longer polled. */
  predicate Taken(s: State, s': State, i: nat)
    requires i < |s.inbox| && s.inbox[i] != []
  {
    match s.inbox[i][0]
    case Data(chunk) => From(s.output, i) + [chunk] <= From(s'.output, i)
    case _ => i !in s'.queues
  }

  predicate FailedFast(s: State) {
    s.phase.Finished? && s.phase.outcome.RaisedPermanent?
  }

  lemma OthersKeepWaiting(cfg: Config, s: State, step: Step, i: nat)
    requires Inv(cfg, s) && i < cfg.children && s.inbox[i] != [] && !step.Consume?
    ensures var s' := Next(cfg, s, step);
      && s'.inbox[i] != [] && s'.inbox[i][0] == s.inbox[i][0] && From(s'.output, i) == From(s.output, i)
      && s'.phase == s.phase && s'.queues == s.queues && TurnsUntil(s', i) == TurnsUntil(s, i)
  {
  }

  lemma FromOneMore(output: seq<(nat, Chunk)>, q: nat, chunk: Chunk, i: nat)
    ensures From(output + [(q, chunk)], i) == From(output, i) + (if q == i then [chunk] else [])
  {
    assert (output + [(q, chunk)])[..|output|] == output;
  }

  /** Polling the queue of child `i` takes its first message. */
  lemma PollTakes(cfg: Config, s: State, i: nat)
    requires Inv(cfg, s) && i < cfg.children && s.inbox[i] != []
    requires s.phase.Polling? && s.phase.pos < |s.phase.snapshot| && s.phase.snapshot[s.phase.pos] == i
    ensures Taken(s, ConsumerStep(cfg, s), i)
  {
    RemoveFromDistinct(s.queues, i);
    if s.inbox[i][0].Data? {
      FromOneMore(s.output, i, s.inbox[i][0].chunk, i);
    }
  }

  /** Polling another queue brings the consumer nearer. */
  lemma PollApproaches(cfg: Config, s: State, i: nat)
    requires Inv(cfg, s) && i < cfg.children
    requires s.phase.Polling? && s.phase.pos < |s.phase.snapshot| && s.phase.snapshot[s.phase.pos] != i
    ensures var s' := ConsumerStep(cfg, s);
      && (!FailedFast(s') ==> !s'.phase.Finished? && TurnsUntil(s', i) < TurnsUntil(s, i))
      && s'.inbox[i] == s.inbox[i] && From(s'.output, i) == From(s.output, i)
  {
    hide Increasing, Distinct, ChildInv, From, Remove;
    var q := s.phase.snapshot[s.phase.pos];
    assert q in s.phase.snapshot && q < cfg.children == |s.inbox|;
    hide Inv;
    var left := s.phase.snapshot[s.phase.pos..];
    assert left[0] == q && left[1..] == s.phase.snapshot[s.phase.pos + 1..];
    assert i in left <==> i in left[1..];
    if s.inbox[q] != [] && s.inbox[q][0].Data? {
      FromOneMore(s.output, q, s.inbox[q][0].chunk, i);
    }
  }

  lemma ConsumerApproaches(cfg: Config, s: State, i: nat)
    requires Inv(cfg, s) && i < cfg.children && s.inbox[i] != [] && !s.phase.Finished?
    ensures var s' := ConsumerStep(cfg, s);
      || FailedFast(s') || Taken(s, s', i)
      || (&& !s'.phase.Finished? && s'.inbox[i] == s.inbox[i] && From(s'.output, i) == From(s.output, i)
          && TurnsUntil(s', i) < TurnsUntil(s, i))
  {
    assert ChildInv(s, i);
    if s.phase.Polling? && s.phase.pos < |s.phase.snapshot| {
      if s.phase.snapshot[s.phase.pos] == i {
        PollTakes(cfg, s, i);
      } else {
        PollApproaches(cfg, s, i);
      }
    } else if s.phase.LoopHead? {
      assert s.queues[0..] == s.queues;
    }
  }

  /** One step of any task: the message has been taken, or it still waits and the consumer, if it was
      its turn, is nearer. */
  lemma StepApproaches(cfg: Config, s: State, i: nat, step: Step)
    requires Inv(cfg, s) && i < cfg.children && s.inbox[i] != [] && !s.phase.Finished?
    ensures TurnsUntil(s, i) > 0
    ensures var s' := Next(cfg, s, step);
      || FailedFast(s') || Taken(s, s', i)
      || (&& !s'.phase.Finished? && s'.inbox[i] != [] && s'.inbox[i][0] == s.inbox[i][0]
          && From(s'.output, i) == From(s.output, i)
          && TurnsUntil(s', i) + (if step.Consume? then 1 else 0) <= TurnsUntil(s, i))
  {
    if step.Consume? {
      ConsumerApproaches(cfg, s, i);
      hide ConsumerStep;
    } else {
      OthersKeepWaiting(cfg, s, step, i);
    }
    hide Inv, From;
  }

  /** What has been taken stays taken, and a merge that failed fast stays so. */
  lemma TakenStays(cfg: Config, s: State, i: nat, step: Step)
    requires Shaped(cfg, s) && i < cfg.children
    ensures var s' := Next(cfg, s, step);
      && From(s.output, i) <= From(s'.output, i)
      && (i !in s.queues ==> i !in s'.queues)
      && (FailedFast(s) ==> FailedFast(s'))
  {
    hide Remove, From;
    if step.Consume? && s.phase.Polling? && s.phase.pos < |s.phase.snapshot| {
      var q := s.phase.snapshot[s.phase.pos];
      assert q in s.phase.snapshot;
      if s.inbox[q] != [] && s.inbox[q][0].Data? {
        FromOneMore(s.output, q, s.inbox[q][0].chunk, i);
      }
    }
  }

  lemma {:induction false} TakenStaysForGood(cfg: Config, schedule: seq<Step>, more: seq<Step>, i: nat)
    requires i < cfg.children
    ensures var s, s' := Run(cfg, schedule), Run(cfg, schedule + more);
      && From(s.output, i) <= From(s'.output, i) && (i !in s.queues ==> i !in s'.queues)
      && (FailedFast(s) ==> FailedFast(s'))
  {
    if more == [] {
      assert schedule + more == schedule;
    } else {
      var n := |more| - 1;
      TakenStaysForGood(cfg, schedule, more[..n], i);
      assert (schedule + more)[..|schedule + more| - 1] == schedule + more[..n];
      TakenStays(cfg, Run(cfg, schedule + more[..n]), i, more[n]);
      hide Next, From;
    }
  }

  lemma TurnsUntilBounded(cfg: Config, s: State, i: nat)
    requires Inv(cfg, s) && i in s.queues
    ensures TurnsUntil(s, i) <= 2 * |s.queues| + 2
  {
    if s.phase.Polling? {
      var left := s.phase.snapshot[s.phase.pos..];
      var others := Elements(s.queues) - {i};
      assert Elements(s.queues) == others + {i};
      SizeOfDistinct(s.queues);
      if i !in left {
        DistinctFits(left, others);
      } else {
        DistinctFits(left, Elements(s.queues));
      }
    }
  }

  lemma {:induction false} SizeOfDistinct(s: seq<nat>)
    requires Distinct(s)
    ensures |Elements(s)| == |s|
  {
    if s == [] {
      assert Elements(s) == {};
    } else {
      SizeOfDistinct(s[1..]);
      assert s[0] !in s[1..] && Elements(s) == Elements(s[1..]) + {s[0]};
    }
  }

  lemma {:induction false} TakenWithin(cfg: Config, schedule: seq<Step>, i: nat, more: seq<Step>)
    requires i < cfg.children && Run(cfg, schedule).inbox[i] != [] && !Run(cfg, schedule).phase.Finished?
    requires Turns(more) >= TurnsUntil(Run(cfg, schedule), i)
    ensures Taken(Run(cfg, schedule), Run(cfg, schedule + more), i) || FailedFast(Run(cfg, schedule + more))
    decreases |more|
  {
    hide Inv, Run, TurnsUntil, From, Next, ConsumerStep;
    var s := Run(cfg, schedule);
    RunKeepsInv(cfg, schedule);
    StepApproaches(cfg, s, i, if more == [] then Consume else more[0]);
    var schedule', rest := schedule + [more[0]], more[1..];
    var s' := Run(cfg, schedule');
    RunSnoc(cfg, schedule, more[0]);
    assert schedule' + rest == schedule + more;
    if Taken(s, s', i) || FailedFast(s') {
      TakenStaysForGood(cfg, schedule', rest, i);
    } else {
      TakenWithin(cfg, schedule', i, rest);
    }
  }

  /** No stream holds up another: a message that waits for child `i` has been dealt with after as many
      turns of the consumer as two passes over the polled queues take, whatever the readers do
      meanwhile; unless the merge failed fast. */
  lemma PolledInTurn(cfg: Config, schedule: seq<Step>, i: nat, more: seq<Step>)
    requires i < cfg.children && Run(cfg, schedule).inbox[i] != [] && !Run(cfg, schedule).phase.Finished?
    requires Turns(more) >= 2 * |Run(cfg, schedule).queues| + 2
    ensures Taken(Run(cfg, schedule), Run(cfg, schedule + more), i) || FailedFast(Run(cfg, schedule + more))
  {
    RunKeepsInv(cfg, schedule);
    assert ChildInv(Run(cfg, schedule), i);
    TurnsUntilBounded(cfg, Run(cfg, schedule), i);
    TakenWithin(cfg, schedule, i, more);
  }

  /** Within a pass: the first message of child `i` has not been looked at yet, and nothing of child `j`
      has been taken. */
  ghost predicate NotYet(s0: State, s: State, i: nat, j: nat)
    requires i < |s0.inbox|
  {
    && i < |s.inbox| && s.inbox[i] != [] && s0.inbox[i] != [] && s.inbox[i][0] == s0.inbox[i][0]
    && From(s.output, i) == From(s0.output, i)
    && From(s.output, j) == From(s0.output, j) && j in s.queues
    && (s.phase.LoopHead? || (s.phase.Polling? && s.phase.pos <= |s.phase.snapshot| && i in s.phase.snapshot[s.phase.pos..]))
  }

  lemma AheadInPass(snapshot: seq<nat>, pos: nat, i: nat)
    requires Increasing(snapshot) && pos <= |snapshot| && i in snapshot[pos..]
    ensures pos < |snapshot| && snapshot[pos] <= i && (snapshot[pos] != i ==> i in snapshot[pos + 1..])
  {
    var left := snapshot[pos..];
    var k :| 0 <= k < |left| && left[k] == i;
    assert snapshot[pos + k] == i;
    if k > 0 {
      assert snapshot[pos + 1..][k - 1] == i;
    }
  }

  lemma PollInOrder(cfg: Config, s0: State, s: State, i: nat, j: nat)
    requires Inv(cfg, s) && i < j < cfg.children && i < |s0.inbox| && NotYet(s0, s, i, j) && s.phase.Polling?
    ensures var s' := ConsumerStep(cfg, s); FailedFast(s') || Taken(s0, s', i) || NotYet(s0, s', i, j)
  {
    hide From, Increasing, Distinct, ChildInv;
    AheadInPass(s.phase.snapshot, s.phase.pos, i);
    var q := s.phase.snapshot[s.phase.pos];
    assert q in s.phase.snapshot;
    if q == i {
      PollTakes(cfg, s, i);
    } else {
      if s.inbox[q] != [] && s.inbox[q][0].Data? {
        FromOneMore(s.output, q, s.inbox[q][0].chunk, i);
        FromOneMore(s.output, q, s.inbox[q][0].chunk, j);
      }
      RemoveFromDistinct(s.queues, q);
      hide Inv, Remove;
    }
  }

  lemma StepInOrder(cfg: Config, s0: State, s: State, step: Step, i: nat, j: nat)
    requires Inv(cfg, s) && i < j < cfg.children && i < |s0.inbox| && NotYet(s0, s, i, j)
    ensures var s' := Next(cfg, s, step); FailedFast(s') || Taken(s0, s', i) || NotYet(s0, s', i, j)
  {
    hide ChildInv, From, Distinct, Increasing;
    if !step.Consume? {
      OthersKeepWaiting(cfg, s, step, i);
      hide Inv;
    } else if s.phase.Polling? {
      PollInOrder(cfg, s0, s, i, j);
      hide Inv, ConsumerStep;
    } else {
      PassBegins(cfg, s, i);
      hide Inv;
    }
  }

  lemma PassBegins(cfg: Config, s: State, i: nat)
    requires Inv(cfg, s) && i < cfg.children && s.inbox[i] != [] && s.phase.LoopHead?
    ensures ConsumerStep(cfg, s) == s.(phase := Polling(s.queues, 0)) && i in s.queues[0..]
  {
    assert ChildInv(s, i);
    assert s.queues[0..] == s.queues;
  }

  /** A pass goes through the children in order: when messages of children `i` and `j` wait at the
      beginning of a pass, `i` before `j`, then nothing of `j` is taken before the message of `i`. */
  lemma {:induction false} ChildrenInOrder(cfg: Config, schedule: seq<Step>, i: nat, j: nat, more: seq<Step>)
    requires i < j < cfg.children && Run(cfg, schedule).phase.LoopHead?
    requires Run(cfg, schedule).inbox[i] != [] && Run(cfg, schedule).inbox[j] != []
    ensures var s, s' := Run(cfg, schedule), Run(cfg, schedule + more);
      || FailedFast(s') || Taken(s, s', i)
      || (From(s'.output, j) == From(s.output, j) && j in s'.queues && NotYet(s, s', i, j))
  {
    var s := Run(cfg, schedule);
    if more == [] {
      assert schedule + more == schedule;
      RunKeepsInv(cfg, schedule);
      assert ChildInv(s, j);
    } else {
      var n := |more| - 1;
      var before := schedule + more[..n];
      ChildrenInOrder(cfg, schedule, i, j, more[..n]);
      assert before + [more[n]] == schedule + more;
      hide Inv, From, Next, Run;
      RunSnoc(cfg, before, more[n]);
      RunKeepsInv(cfg, before);
      if FailedFast(Run(cfg, before)) || Taken(s, Run(cfg, before), i) {
        TakenStays(cfg, Run(cfg, before), i, more[n]);
      } else {
        StepInOrder(cfg, s, Run(cfg, before), more[n], i, j);
      }
    }
  }

  lemma RunSnoc(cfg: Config, schedule: seq<Step>, step: Step)
    ensures Run(cfg, schedule + [step]) == Next(cfg, Run(cfg, schedule), step)
  {
    assert (schedule + [step])[..|schedule|] == schedule;
  }

  /** The merge as its tasks run it: every method is one task's work between two points at which
      others may run. */
  class Merge {
    const cfg: Config
    var inbox: seq<seq<Message>>
    var queues: seq<nat>
    var active: int
    var errors: seq<(nat, Failure)>
    var phase: Phase
    var output: seq<(nat, Chunk)>
    ghost var produced: seq<seq<Chunk>>
    ghost var ended: seq<Option<Option<Failure>>>
    ghost var schedule: seq<Step>

    ghost function Snapshot(): State
      reads this
    {
      State(inbox, queues, active, errors, phase, output, produced, ended)
    }

    ghost predicate Valid()
      reads this
    {
      Snapshot() == Run(cfg, schedule)
    }

    constructor (cfg: Config)
      ensures this.cfg == cfg && schedule == [] && Valid()
    {
      this.cfg := cfg;
      inbox := seq(cfg.children, _ => []);
      queues := seq(cfg.children, i => i);
      active := cfg.children;
      errors, phase, output := [], LoopHead, [];
      produced, ended, schedule := seq(cfg.children, _ => []), seq(cfg.children, _ => None), [];
    }

    /** A reader puts the next chunk of its stream. */
    method PutData(i: nat, chunk: Chunk)
      requires Valid() && i < cfg.children && ended[i].None?
      modifies this
      ensures Valid() && schedule == old(schedule) + [Read(i, chunk)]
    {
      RunSnoc(cfg, schedule, Read(i, chunk));
      hide Run;
      inbox := inbox[i := inbox[i] + [Data(chunk)]];
      produced := produced[i := produced[i] + [chunk]];
      schedule := schedule + [Read(i, chunk)];
    }

    /** A reader reports how its stream ended. */
    method PutEnd(i: nat, error: Option<Failure>)
      requires Valid() && i < cfg.children && ended[i].None?
      modifies this
      ensures Valid() && schedule == old(schedule) + [End(i, error)]
    {
      RunSnoc(cfg, schedule, End(i, error));
      hide Run;
      inbox := inbox[i := inbox[i] + [if error.Some? then Error(error.value) else Done]];
      ended := ended[i := Some(error)];
      schedule := schedule + [End(i, error)];
    }

    /** `get_nowait` on the next queue of the snapshot, and what follows from the message. */
    method Poll(snapshot: seq<nat>, pos: nat)
      requires Valid() && phase == Polling(snapshot, pos) && pos < |snapshot|
      modifies this`inbox, this`queues, this`active, this`errors, this`phase, this`output
      ensures Snapshot() == ConsumerStep(cfg, old(Snapshot()))
    {
      var q := snapshot[pos];
      assert q in snapshot;
      phase := Polling(snapshot, pos + 1);
      if inbox[q] == [] {
        return;
      }
      var message := inbox[q][0];
      inbox := inbox[q := inbox[q][1..]];
      match message {
        case Data(chunk) =>
          output := output + [(q, chunk)];
        case Done =>
          active := active - 1;
          queues := Remove(queues, q);
        case Error(e) =>
          errors := errors + [(q, e)];
          active := active - 1;
          queues := Remove(queues, q);
          if cfg.strategy == Broadcast && cfg.failFast {
            phase := Finished(RaisedPermanent(e));
          }
      }
    }

    method Turn()
      requires Valid()
      modifies this
      ensures Valid() && schedule == old(schedule) + [Consume]
    {
      RunSnoc(cfg, schedule, Consume);
      hide Run;
      match phase {
        case Finished(_) =>
        case Sleeping => phase := LoopHead;
        case LoopHead =>
          if active > 0 {
            phase := Polling(queues, 0);
          } else if errors != [] && cfg.strategy == Broadcast {
            phase := Finished(RaisedTransient(errors));
          } else {
            phase := Finished(Completed);
          }
        case Polling(snapshot, pos) =>
          if pos < |snapshot| {
            Poll(snapshot, pos);
          } else if active > 0 {
            phase := Sleeping;
          } else {
            phase := LoopHead;
          }
      }
      schedule := schedule + [Consume];
    }
  }
}
