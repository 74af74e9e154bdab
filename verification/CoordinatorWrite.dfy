/** `WritePoints` after shard mapping: one writer goroutine per shard reports on a channel with one
    slot per shard, while the caller waits for reports, a timeout or close. An interleaving is any
    list of steps. */
module CoordinatorWrite {
  import opened Common

  /** What the store reports; only "shard not found" is treated specially. */
  datatype StoreError = ShardNotFound | Failure(code: int)

  type Report = Option<StoreError>

  /** A writer before, inside and after `writeToShard`. `Sending` and `Finished` carry its report. */
  datatype Writer =
    | NotStarted
    | FirstWrite
    | CreateShard
    | SecondWrite
    | Sending(report: Report)
    | Finished(report: Report)

  datatype Result = Success | ErrTimeout | ErrWriteFailed | ShardError(err: StoreError)

  /** The caller: starting writers, then waiting for the remaining reports, then returned. */
  datatype Caller = Starting(next: nat) | Waiting(received: nat) | Returned(result: Result, received: nat)

  datatype Stats = Stats(writeOk: nat, writeErr: nat, writeTimeout: nat)

  datatype State = State(
    writers: seq<Writer>,
    channel: seq<Report>,
    caller: Caller,
    closed: bool,
    expired: bool,
    stats: Stats)

  function Init(shards: nat): State {
    State(seq(shards, _ => NotStarted), [], Starting(0), false, false, Stats(0, 0, 0))
  }

  /** `Write`, `Create` and `Rewrite` are the store calls of one writer with their outcomes. */
  datatype Step =
    | Start
    | Await
    | Write(i: nat, outcome: Report)
    | Create(i: nat, outcome: Report)
    | Rewrite(i: nat, outcome: Report)
    | Send(i: nat)
    | Close
    | Expire
    | Receive
    | SeeClosed
    | SeeExpired
    | Finish

  /** A writer is about to send its report; one of the two counters goes up. */
  function Reporting(s: State, i: nat, report: Report): State
    requires i < |s.writers|
  {
    s.(writers := s.writers[i := Sending(report)],
       stats := if report.None? then s.stats.(writeOk := s.stats.writeOk + 1)
                else s.stats.(writeErr := s.stats.writeErr + 1))
  }

  /** One step, or nothing where it is not possible. The channel has room for as many reports as
      there are shards. */
  function Do(s: State, step: Step): Option<State> {
    match step
    case Start =>
      if s.caller.Starting? && s.caller.next < |s.writers| then
        Some(s.(writers := s.writers[s.caller.next := FirstWrite], caller := Starting(s.caller.next + 1)))
      else None
    case Await =>
      if s.caller == Starting(|s.writers|) then Some(s.(caller := Waiting(0))) else None
    case Write(i, outcome) =>
      if i < |s.writers| && s.writers[i] == FirstWrite then
        Some(if outcome.None? then Reporting(s, i, None)
             else if outcome == Some(ShardNotFound) then s.(writers := s.writers[i := CreateShard])
             else s.(writers := s.writers[i := SecondWrite]))
      else None
    case Create(i, outcome) =>
      if i < |s.writers| && s.writers[i] == CreateShard then
        Some(if outcome.Some? then Reporting(s, i, outcome) else s.(writers := s.writers[i := SecondWrite]))
      else None
    case Rewrite(i, outcome) =>
      if i < |s.writers| && s.writers[i] == SecondWrite then Some(Reporting(s, i, outcome)) else None
    case Send(i) =>
      if i < |s.writers| && s.writers[i].Sending? && |s.channel| < |s.writers| then
        var report := s.writers[i].report;
        Some(s.(writers := s.writers[i := Finished(report)], channel := s.channel + [report]))
      else None
    case Close => Some(s.(closed := true))
    case Expire => if s.caller.Waiting? then Some(s.(expired := true)) else None
    case Receive =>
      if s.caller.Waiting? && s.caller.received < |s.writers| && s.channel != [] then
        var n, rest := s.caller.received + 1, s.channel[1..];
        Some(match s.channel[0]
             case None => s.(channel := rest, caller := Waiting(n))
             case Some(e) => s.(channel := rest, caller := Returned(ShardError(e), n)))
      else None
    case SeeClosed =>
      if s.caller.Waiting? && s.caller.received < |s.writers| && s.closed then
        Some(s.(caller := Returned(ErrWriteFailed, s.caller.received)))
      else None
    case SeeExpired =>
      if s.caller.Waiting? && s.caller.received < |s.writers| && s.expired then
        Some(s.(caller := Returned(ErrTimeout, s.caller.received),
                stats := s.stats.(writeTimeout := s.stats.writeTimeout + 1)))
      else None
    case Finish =>
      if s.caller == Waiting(|s.writers|) then Some(s.(caller := Returned(Success, |s.writers|))) else None
  }

  /** A run: all steps in order, each possible where it is taken. */
  function Run(s: State, steps: seq<Step>): Option<State>
    decreases |steps|
  {
    if steps == [] then Some(s)
    else
      var s' :- Do(s, steps[0]);
      Run(s', steps[1..])
  }

  // ---------------------------------------------------------------------------------------
  // The invariant
  // ---------------------------------------------------------------------------------------

  function Count(ws: seq<Writer>, p: Writer -> bool): nat {
    if ws == [] then 0 else (if p(ws[0]) then 1 else 0) + Count(ws[1..], p)
  }

  predicate IsFinished(w: Writer) { w.Finished? }
  predicate HasFailed(w: Writer) { w.Finished? && w.report.Some? }
  predicate HasOk(w: Writer) { (w.Finished? || w.Sending?) && w.report.None? }
  predicate HasErr(w: Writer) { (w.Finished? || w.Sending?) && w.report.Some? }

  function Errors(ch: seq<Report>): nat {
    if ch == [] then 0 else (if ch[0].Some? then 1 else 0) + Errors(ch[1..])
  }

  /** Reports the caller has taken from the channel. */
  function Received(c: Caller): nat {
    if c.Starting? then 0 else c.received
  }

  /** Writers the caller has started. */
  function Started(s: State): nat {
    if s.caller.Starting? then s.caller.next else |s.writers|
  }

  predicate Invariant(s: State) {
    && |s.channel| + Received(s.caller) == Count(s.writers, IsFinished)
    && Errors(s.channel) + (if s.caller.Returned? && s.caller.result.ShardError? then 1 else 0) ==
         Count(s.writers, HasFailed)
    && s.stats.writeOk == Count(s.writers, HasOk)
    && s.stats.writeErr == Count(s.writers, HasErr)
    && s.stats.writeTimeout == (if s.caller.Returned? && s.caller.result.ErrTimeout? then 1 else 0)
    && Received(s.caller) <= |s.writers|
    && Started(s) <= |s.writers|
    && (forall i :: 0 <= i < |s.writers| ==> (s.writers[i].NotStarted? <==> Started(s) <= i))
    && (s.caller.Returned? && s.caller.result.Success? ==> s.caller.received == |s.writers|)
  }

  lemma {:induction false} CountUpdate(ws: seq<Writer>, p: Writer -> bool, i: nat, w: Writer)
    requires i < |ws|
    ensures Count(ws[i := w], p) == Count(ws, p) - (if p(ws[i]) then 1 else 0) + (if p(w) then 1 else 0)
    decreases i
  {
    if i > 0 {
      assert ws[i := w][1..] == ws[1..][i - 1 := w];
      CountUpdate(ws[1..], p, i - 1, w);
    } else {
      assert ws[0 := w][1..] == ws[1..];
    }
  }

  lemma {:induction false} CountBound(ws: seq<Writer>, p: Writer -> bool)
    ensures Count(ws, p) <= |ws|
    ensures Count(ws, p) == |ws| <==> forall i :: 0 <= i < |ws| ==> p(ws[i])
    ensures Count(ws, p) == 0 <==> forall i :: 0 <= i < |ws| ==> !p(ws[i])
  {
    if ws != [] {
      CountBound(ws[1..], p);
      assert forall i :: 0 < i < |ws| ==> ws[i] == ws[1..][i - 1];
    }
  }

  lemma {:induction false} ErrorsAppend(ch: seq<Report>, r: Report)
    ensures Errors(ch + [r]) == Errors(ch) + (if r.Some? then 1 else 0)
  {
    if ch != [] {
      assert (ch + [r])[1..] == ch[1..] + [r];
      ErrorsAppend(ch[1..], r);
    }
  }

  lemma {:induction false} InitCounts(n: nat, p: Writer -> bool)
    requires !p(NotStarted)
    ensures Count(Init(n).writers, p) == 0
  {
    CountBound(Init(n).writers, p);
  }

  lemma InitInvariant(n: nat)
    ensures Invariant(Init(n))
  {
    InitCounts(n, IsFinished);
    InitCounts(n, HasFailed);
    InitCounts(n, HasOk);
    InitCounts(n, HasErr);
  }

  function One(b: bool): int { if b then 1 else 0 }

  /** How the counters of the invariant move when one writer changes. */
  lemma CountsUpdate(ws: seq<Writer>, i: nat, w: Writer)
    requires i < |ws|
    ensures var v := ws[i := w];
            && Count(v, IsFinished) == Count(ws, IsFinished) - One(IsFinished(ws[i])) + One(IsFinished(w))
            && Count(v, HasFailed) == Count(ws, HasFailed) - One(HasFailed(ws[i])) + One(HasFailed(w))
            && Count(v, HasOk) == Count(ws, HasOk) - One(HasOk(ws[i])) + One(HasOk(w))
            && Count(v, HasErr) == Count(ws, HasErr) - One(HasErr(ws[i])) + One(HasErr(w))
  {
    CountUpdate(ws, IsFinished, i, w);
    CountUpdate(ws, HasFailed, i, w);
    CountUpdate(ws, HasOk, i, w);
    CountUpdate(ws, HasErr, i, w);
  }

  lemma ReportingKeepsInvariant(s: State, i: nat, report: Report)
    requires Invariant(s) && i < |s.writers|
    requires s.writers[i].FirstWrite? || s.writers[i].CreateShard? || s.writers[i].SecondWrite?
    ensures Invariant(Reporting(s, i, report))
  {
    CountsUpdate(s.writers, i, Sending(report));
  }

  lemma MovingKeepsInvariant(s: State, i: nat, w: Writer)
    requires Invariant(s) && i < |s.writers|
    requires s.writers[i].FirstWrite? || s.writers[i].CreateShard?
    requires w.CreateShard? || w.SecondWrite?
    ensures Invariant(s.(writers := s.writers[i := w]))
  {
    CountsUpdate(s.writers, i, w);
  }

  lemma SendKeepsInvariant(s: State, i: nat)
    requires Invariant(s) && Do(s, Send(i)).Some?
    ensures Invariant(Do(s, Send(i)).value)
  {
    CountsUpdate(s.writers, i, Finished(s.writers[i].report));
    ErrorsAppend(s.channel, s.writers[i].report);
  }

  lemma StartKeepsInvariant(s: State)
    requires Invariant(s) && Do(s, Start).Some?
    ensures Invariant(Do(s, Start).value)
  {
    CountsUpdate(s.writers, s.caller.next, FirstWrite);
  }

  /** Steps that leave the writers alone. */
  predicate IsCallers(step: Step) {
    step.Await? || step.Close? || step.Expire? || step.SeeClosed? || step.SeeExpired? || step.Finish?
  }

  lemma ReceiveKeepsInvariant(s: State)
    requires Invariant(s) && Do(s, Receive).Some?
    ensures Invariant(Do(s, Receive).value)
  {
    CountBound(s.writers, IsFinished);
  }

  lemma CallerKeepsInvariant(s: State, step: Step)
    requires Invariant(s) && Do(s, step).Some? && IsCallers(step)
    ensures Invariant(Do(s, step).value)
  {
  }

  /** Every step keeps the invariant. */
  lemma StepKeepsInvariant(s: State, step: Step)
    requires Invariant(s) && Do(s, step).Some?
    ensures Invariant(Do(s, step).value) && |Do(s, step).value.writers| == |s.writers|
  {
    match step
    case Write(i, outcome) =>
      if outcome.None? {
        ReportingKeepsInvariant(s, i, None);
      } else {
        MovingKeepsInvariant(s, i, if outcome == Some(ShardNotFound) then CreateShard else SecondWrite);
      }
    case Create(i, outcome) =>
      if outcome.Some? {
        ReportingKeepsInvariant(s, i, outcome);
      } else {
        MovingKeepsInvariant(s, i, SecondWrite);
      }
    case Rewrite(i, outcome) => ReportingKeepsInvariant(s, i, outcome);
    case Send(i) => SendKeepsInvariant(s, i);
    case Start => StartKeepsInvariant(s);
    case Receive => ReceiveKeepsInvariant(s);
    case _ => CallerKeepsInvariant(s, step);
  }

  lemma {:induction false} RunKeepsInvariant(s: State, steps: seq<Step>)
    requires Invariant(s) && Run(s, steps).Some?
    ensures Invariant(Run(s, steps).value) && |Run(s, steps).value.writers| == |s.writers|
    decreases |steps|
  {
    if steps != [] {
      StepKeepsInvariant(s, steps[0]);
      RunKeepsInvariant(Do(s, steps[0]).value, steps[1..]);
    }
  }

  // ---------------------------------------------------------------------------------------
  // What every interleaving guarantees
  // ---------------------------------------------------------------------------------------

  /** The state at the end of some interleaving of a write to `n` shards. */
  ghost predicate Reachable(n: nat, s: State) {
    exists steps: seq<Step> :: Run(Init(n), steps) == Some(s)
  }

  lemma ReachableInvariant(n: nat, s: State)
    requires Reachable(n, s)
    ensures Invariant(s) && |s.writers| == n
  {
    var steps :| Run(Init(n), steps) == Some(s);
    InitInvariant(n);
    RunKeepsInvariant(Init(n), steps);
  }

  /** `WritePoints` returns nil only if every shard writer has finished with success. */
  lemma SuccessMeansAllWritten(n: nat, s: State)
    requires Reachable(n, s) && s.caller.Returned? && s.caller.result == Success
    ensures |s.writers| == n && forall i :: 0 <= i < n ==> s.writers[i] == Finished(None)
    ensures s.channel == [] && s.stats.writeOk == n && s.stats.writeErr == 0
  {
    ReachableInvariant(n, s);
    CountBound(s.writers, IsFinished);
    CountBound(s.writers, HasFailed);
    CountBound(s.writers, HasOk);
    CountBound(s.writers, HasErr);
    assert Errors(s.channel) == 0;
  }

  /** The channel never holds more reports than it has slots, and a writer that wants to report
      always finds one free, also after the caller has returned. */
  lemma WritersNeverBlock(n: nat, s: State, i: nat)
    requires Reachable(n, s)
    ensures |s.channel| <= n == |s.writers|
    ensures i < n && s.writers[i].Sending? ==> Do(s, Send(i)).Some?
  {
    ReachableInvariant(n, s);
    CountBound(s.writers, IsFinished);
  }

  /** Each writer that has come to a report has added exactly one to the two counters together, in
      the counter its report belongs to; a timeout is counted once. */
  lemma CountersAreExact(n: nat, s: State)
    requires Reachable(n, s)
    ensures s.stats.writeOk == Count(s.writers, HasOk) && s.stats.writeErr == Count(s.writers, HasErr)
    ensures s.stats.writeTimeout == if s.caller.Returned? && s.caller.result == ErrTimeout then 1 else 0
  {
    ReachableInvariant(n, s);
  }

  /** How much a writer still has to do. */
  function Work(w: Writer): nat {
    match w
    case NotStarted => 5
    case FirstWrite => 4
    case CreateShard => 3
    case SecondWrite => 2
    case Sending(_) => 1
    case Finished(_) => 0
  }

  function WorkLeft(ws: seq<Writer>): nat {
    if ws == [] then 0 else Work(ws[0]) + WorkLeft(ws[1..])
  }

  lemma {:induction false} WorkUpdate(ws: seq<Writer>, i: nat, w: Writer)
    requires i < |ws|
    ensures WorkLeft(ws[i := w]) == WorkLeft(ws) - Work(ws[i]) + Work(w)
    decreases i
  {
    if i > 0 {
      assert ws[i := w][1..] == ws[1..][i - 1 := w];
      WorkUpdate(ws[1..], i - 1, w);
    } else {
      assert ws[0 := w][1..] == ws[1..];
    }
  }

  function WorkOf(c: Caller, n: nat): int {
    match c
    case Starting(_) => n + 2
    case Waiting(received) => n - received + 1
    case Returned(_, _) => 0
  }

  /** How many steps of the writers and the caller can still come. */
  function Left(s: State): int {
    WorkLeft(s.writers) + WorkOf(s.caller, |s.writers|)
  }

  predicate AllFinished(s: State) {
    forall i :: 0 <= i < |s.writers| ==> s.writers[i].Finished?
  }

  function StepOf(w: Writer, i: nat): Step {
    match w
    case CreateShard => Create(i, None)
    case SecondWrite => Rewrite(i, None)
    case Sending(_) => Send(i)
    case _ => Write(i, None)
  }

  /** A writer that has been started and has not finished always has a step of its own. */
  lemma WriterCanStep(s: State, i: nat)
    requires Invariant(s) && i < |s.writers| && !s.writers[i].Finished? && !s.writers[i].NotStarted?
    ensures var r := Do(s, StepOf(s.writers[i], i));
            r.Some? && WorkLeft(r.value.writers) < WorkLeft(s.writers) && r.value.caller == s.caller
  {
    CountBound(s.writers, IsFinished);
    var s' := Do(s, StepOf(s.writers[i], i)).value;
    WorkUpdate(s.writers, i, s'.writers[i]);
  }

  /** So does a caller that has not returned, once the started writers have finished. */
  lemma CallerCanStep(s: State) returns (step: Step)
    requires Invariant(s) && !s.caller.Returned?
    requires s.caller.Waiting? ==> AllFinished(s)
    ensures var r := Do(s, step);
            r.Some? && |r.value.writers| == |s.writers| && Left(r.value) < Left(s)
  {
    match s.caller
    case Starting(next) =>
      if next < |s.writers| {
        WorkUpdate(s.writers, next, FirstWrite);
        step := Start;
      } else {
        step := Await;
      }
    case Waiting(received) =>
      CountBound(s.writers, IsFinished);
      step := if received < |s.writers| then Receive else Finish;
  }

  /** No deadlock and no goroutine left behind: whatever has happened so far, and also after an
      early return, the write can go on until the caller has returned and every writer has finished. */
  lemma {:induction false} NeverStuck(s: State) returns (steps: seq<Step>)
    requires Invariant(s)
    ensures var r := Run(s, steps); r.Some? && r.value.caller.Returned? && AllFinished(r.value)
    ensures s.caller.Returned? ==> Run(s, steps).value.caller == s.caller
    decreases Left(s)
  {
    if s.caller.Returned? && AllFinished(s) {
      steps := [];
    } else {
      var step;
      if s.caller.Starting? || AllFinished(s) {
        step := CallerCanStep(s);
      } else {
        var i :| 0 <= i < |s.writers| && !s.writers[i].Finished?;
        step := StepOf(s.writers[i], i);
        WriterCanStep(s, i);
      }
      StepKeepsInvariant(s, step);
      var rest := NeverStuck(Do(s, step).value);
      steps := [step] + rest;
      assert steps[1..] == rest;
    }
  }

  /** Errors have a cause: a shard error in the channel or in the result was reported by a writer that
      has finished with it, and the other two failures need a close or an expired timer. */
  ghost predicate Justified(s: State) {
    && (forall e :: Some(e) in s.channel ==> Finished(Some(e)) in s.writers)
    && (s.caller.Returned? ==>
          match s.caller.result
          case ShardError(e) => Finished(Some(e)) in s.writers
          case ErrTimeout => s.expired
          case ErrWriteFailed => s.closed
          case Success => true)
  }

  lemma FinishedStays(s: State, step: Step)
    requires Invariant(s) && Do(s, step).Some?
    ensures forall r: Report :: Finished(r) in s.writers ==> Finished(r) in Do(s, step).value.writers
  {
    var ws := Do(s, step).value.writers;
    forall r: Report | Finished(r) in s.writers
      ensures Finished(r) in ws
    {
      var i :| 0 <= i < |s.writers| && s.writers[i] == Finished(r);
      assert ws[i] == s.writers[i];
    }
  }

  lemma StepKeepsJustified(s: State, step: Step)
    requires Invariant(s) && Justified(s) && Do(s, step).Some?
    ensures Justified(Do(s, step).value)
  {
    FinishedStays(s, step);
    if step.Send? {
      assert Do(s, step).value.writers[step.i] == Finished(s.writers[step.i].report);
    }
  }

  lemma {:induction false} RunKeepsJustified(s: State, steps: seq<Step>)
    requires Invariant(s) && Justified(s) && Run(s, steps).Some?
    ensures Justified(Run(s, steps).value)
    decreases |steps|
  {
    if steps != [] {
      StepKeepsInvariant(s, steps[0]);
      StepKeepsJustified(s, steps[0]);
      RunKeepsJustified(Do(s, steps[0]).value, steps[1..]);
    }
  }

  /** What each failing result of `WritePoints` means. */
  lemma FailuresHaveACause(n: nat, s: State)
    requires Reachable(n, s) && s.caller.Returned?
    ensures s.caller.result.ShardError? ==>
              exists i :: 0 <= i < |s.writers| && s.writers[i] == Finished(Some(s.caller.result.err))
    ensures s.caller.result == ErrTimeout ==> s.expired
    ensures s.caller.result == ErrWriteFailed ==> s.closed
  {
    var steps :| Run(Init(n), steps) == Some(s);
    InitInvariant(n);
    RunKeepsJustified(Init(n), steps);
  }

  // ---------------------------------------------------------------------------------------
  // Each writer runs `writeToShard` as written
  // ---------------------------------------------------------------------------------------

  predicate IsOf(step: Step, i: nat) {
    step in {Send(i)} || (step.Write? && step.i == i) || (step.Create? && step.i == i) || (step.Rewrite? && step.i == i)
  }

  /** The steps of one writer in a run. */
  function StepsOf(steps: seq<Step>, i: nat): seq<Step> {
    if steps == [] then []
    else
      var n := |steps| - 1;
      StepsOf(steps[..n], i) + (if IsOf(steps[n], i) then [steps[n]] else [])
  }

  /** The store calls of a whole `writeToShard` that ends with report `r`: an accepted write; a shard that
      is missing and cannot be created; a retry, after creating the shard if that was missing. */
  predicate Complete(calls: seq<Step>, i: nat, r: Report) {
    || (r.None? && calls == [Write(i, None)])
    || (r.Some? && calls == [Write(i, Some(ShardNotFound)), Create(i, r)])
    || calls == [Write(i, Some(ShardNotFound)), Create(i, None), Rewrite(i, r)]
    || (|calls| == 2 && calls[0].Write? && calls[0].outcome.Some? && calls[0].outcome != Some(ShardNotFound)
        && calls == [Write(i, calls[0].outcome), Rewrite(i, r)])
  }

  /** How far a writer has come, told by its calls alone. */
  predicate At(w: Writer, calls: seq<Step>, i: nat) {
    match w
    case NotStarted | FirstWrite => calls == []
    case CreateShard => calls == [Write(i, Some(ShardNotFound))]
    case SecondWrite =>
      || calls == [Write(i, Some(ShardNotFound)), Create(i, None)]
      || (|calls| == 1 && calls[0].Write? && calls[0].i == i
          && calls[0].outcome.Some? && calls[0].outcome != Some(ShardNotFound))
    case Sending(r) => Complete(calls, i, r)
    case Finished(r) => |calls| > 0 && calls[|calls| - 1] == Send(i) && Complete(calls[..|calls| - 1], i, r)
  }

  lemma OtherStepFollows(s: State, step: Step, i: nat)
    requires Invariant(s) && Do(s, step).Some? && i < |s.writers| == |Do(s, step).value.writers| && !IsOf(step, i)
    ensures var w := Do(s, step).value.writers[i]; w == s.writers[i] || (s.writers[i].NotStarted? && w.FirstWrite?)
  {
  }

  /** What a call of its own does to a writer. */
  function Called(w: Writer, step: Step): Writer {
    match step
    case Write(_, outcome) =>
      if outcome.None? then Sending(None) else if outcome == Some(ShardNotFound) then CreateShard else SecondWrite
    case Create(_, outcome) => if outcome.Some? then Sending(outcome) else SecondWrite
    case Rewrite(_, outcome) => Sending(outcome)
    case Send(_) => if w.Sending? then Finished(w.report) else w
    case _ => w
  }

  lemma OwnStep(s: State, step: Step, i: nat)
    requires Do(s, step).Some? && IsOf(step, i)
    ensures i < |s.writers| == |Do(s, step).value.writers| && Do(s, step).value.writers[i] == Called(s.writers[i], step)
    ensures match step
            case Write(_, _) => s.writers[i].FirstWrite?
            case Create(_, _) => s.writers[i].CreateShard?
            case Rewrite(_, _) => s.writers[i].SecondWrite?
            case _ => s.writers[i].Sending?
  {
  }

  lemma OwnStepFollows(w: Writer, step: Step, calls: seq<Step>, i: nat)
    requires IsOf(step, i) && At(w, calls, i)
    requires match step
             case Write(_, _) => w.FirstWrite?
             case Create(_, _) => w.CreateShard?
             case Rewrite(_, _) => w.SecondWrite?
             case _ => w.Sending?
    ensures At(Called(w, step), calls + [step], i)
  {
    if step == Send(i) {
      assert (calls + [step])[..|calls|] == calls;
    }
  }

  lemma StepFollows(s: State, step: Step, calls: seq<Step>, i: nat)
    requires Invariant(s) && Do(s, step).Some?
    requires i < |s.writers| == |Do(s, step).value.writers| && At(s.writers[i], calls, i)
    ensures At(Do(s, step).value.writers[i], calls + (if IsOf(step, i) then [step] else []), i)
  {
    if IsOf(step, i) {
      OwnStep(s, step, i);
      OwnStepFollows(s.writers[i], step, calls, i);
    } else {
      OtherStepFollows(s, step, i);
      assert calls + [] == calls;
    }
  }

  lemma {:induction false} RunAppend(s: State, steps: seq<Step>)
    requires steps != []
    ensures Run(s, steps) == match Run(s, steps[..|steps| - 1])
                             case Some(t) => Do(t, steps[|steps| - 1])
                             case None => None
    decreases |steps|
  {
    if |steps| > 1 && Do(s, steps[0]).Some? {
      RunAppend(Do(s, steps[0]).value, steps[1..]);
      assert steps[..|steps| - 1][1..] == steps[1..][..|steps| - 2];
    }
  }

  /** In every interleaving, each writer has made the store calls of `writeToShard` up to where it is, in
      that order, and nothing else; its report is the outcome that the source returns. */
  lemma {:induction false} WriterFollowsSource(n: nat, steps: seq<Step>, i: nat)
    requires Run(Init(n), steps).Some? && i < n
    ensures |Run(Init(n), steps).value.writers| == n
    ensures At(Run(Init(n), steps).value.writers[i], StepsOf(steps, i), i)
    decreases |steps|
  {
    if steps != [] {
      var init, last := steps[..|steps| - 1], steps[|steps| - 1];
      RunAppend(Init(n), steps);
      WriterFollowsSource(n, init, i);
      var s := Run(Init(n), init).value;
      assert Reachable(n, s);
      ReachableInvariant(n, s);
      StepKeepsInvariant(s, last);
      StepFollows(s, last, StepsOf(init, i), i);
    }
  }

  lemma {:induction false} StepsOfAreSteps(steps: seq<Step>, i: nat)
    ensures forall step :: step in StepsOf(steps, i) ==> step in steps
  {
    if steps != [] {
      StepsOfAreSteps(steps[..|steps| - 1], i);
    }
  }

  /** `WritePoints` returns nil only if the store has accepted the points of every shard. */
  lemma SuccessMeansStored(n: nat, steps: seq<Step>, i: nat)
    requires var r := Run(Init(n), steps); r.Some? && r.value.caller.Returned? && r.value.caller.result == Success
    requires i < n
    ensures Write(i, None) in steps || Rewrite(i, None) in steps
  {
    SuccessMeansAllWritten(n, Run(Init(n), steps).value);
    WriterFollowsSource(n, steps, i);
    StepsOfAreSteps(steps, i);
    var calls := StepsOf(steps, i);
    var made := calls[..|calls| - 1];
    assert Complete(made, i, None);
    assert made[|made| - 1] in calls;
  }

  // ---------------------------------------------------------------------------------------
  // Every interleaving ends
  // ---------------------------------------------------------------------------------------

  /** Steps that can be repeated without getting on. */
  predicate IsOutside(step: Step) { step.Close? || step.Expire? }

  lemma StartGetsOn(s: State)
    requires Do(s, Start).Some? && s.writers[s.caller.next].NotStarted?
    ensures Left(Do(s, Start).value) < Left(s)
  {
    WorkUpdate(s.writers, s.caller.next, FirstWrite);
  }

  lemma OwnUpdate(s: State, step: Step, i: nat)
    requires Do(s, step).Some? && IsOf(step, i)
    ensures i < |s.writers| && Work(Called(s.writers[i], step)) < Work(s.writers[i])
    ensures var t := Do(s, step).value;
            t.writers == s.writers[i := Called(s.writers[i], step)] && t.caller == s.caller
  {
  }

  lemma WriterGetsOn(s: State, step: Step, i: nat)
    requires Do(s, step).Some? && IsOf(step, i)
    ensures Left(Do(s, step).value) < Left(s)
  {
    OwnUpdate(s, step, i);
    WorkUpdate(s.writers, i, Called(s.writers[i], step));
  }

  lemma CallerGetsOn(s: State, step: Step)
    requires Do(s, step).Some? && Received(s.caller) <= |s.writers|
    requires step.Await? || step.Receive? || step.SeeClosed? || step.SeeExpired? || step.Finish?
    ensures Left(Do(s, step).value) < Left(s)
  {
  }

  lemma StepGetsOn(s: State, step: Step)
    requires Invariant(s) && Do(s, step).Some?
    ensures if IsOutside(step) then Left(Do(s, step).value) == Left(s) else Left(Do(s, step).value) < Left(s)
  {
    match step
    case Start => StartGetsOn(s);
    case Write(i, _) => WriterGetsOn(s, step, i);
    case Create(i, _) => WriterGetsOn(s, step, i);
    case Rewrite(i, _) => WriterGetsOn(s, step, i);
    case Send(i) => WriterGetsOn(s, step, i);
    case Close =>
    case Expire =>
    case _ => CallerGetsOn(s, step);
  }

  /** The number of steps of the writers and the caller in a run. */
  function Inside(steps: seq<Step>): nat {
    if steps == [] then 0 else (if IsOutside(steps[0]) then 0 else 1) + Inside(steps[1..])
  }

  lemma {:induction false} RunGetsOn(s: State, steps: seq<Step>)
    requires Invariant(s) && Run(s, steps).Some?
    ensures Left(Run(s, steps).value) >= 0
    ensures Inside(steps) + Left(Run(s, steps).value) <= Left(s)
    decreases |steps|
  {
    if steps != [] {
      StepGetsOn(s, steps[0]);
      StepKeepsInvariant(s, steps[0]);
      RunGetsOn(Do(s, steps[0]).value, steps[1..]);
    }
  }

  lemma {:induction false} InitWork(n: nat)
    ensures WorkLeft(Init(n).writers) == 5 * n
  {
    if n > 0 {
      assert Init(n).writers[1..] == Init(n - 1).writers;
      InitWork(n - 1);
    }
  }

  /** Whatever the scheduler does, a write to `n` shards takes at most 6 n + 2 steps. */
  lemma EveryRunIsBounded(n: nat, steps: seq<Step>)
    requires Run(Init(n), steps).Some?
    ensures Inside(steps) <= 6 * n + 2
  {
    InitInvariant(n);
    InitWork(n);
    RunGetsOn(Init(n), steps);
  }

  /** It comes to rest exactly when the caller has returned and every writer has finished. */
  lemma RestsExactlyWhenDone(n: nat, s: State)
    requires Reachable(n, s)
    ensures (forall step: Step :: IsOutside(step) || Do(s, step).None?) <==> s.caller.Returned? && AllFinished(s)
  {
    ReachableInvariant(n, s);
    if !(s.caller.Returned? && AllFinished(s)) {
      var step;
      if s.caller.Starting? || AllFinished(s) {
        step := CallerCanStep(s);
      } else {
        var i :| 0 <= i < |s.writers| && !s.writers[i].Finished?;
        step := StepOf(s.writers[i], i);
        WriterCanStep(s, i);
      }
      StepGetsOn(s, step);
      assert !IsOutside(step) && Do(s, step).Some?;
    }
  }

  // ---------------------------------------------------------------------------------------
  // What the caller can always do
  // ---------------------------------------------------------------------------------------

  /** The caller is waiting for reports. */
  predicate IsExpecting(s: State) {
    s.caller.Waiting? && s.caller.received < |s.writers|
  }

  /** `s` and `t` differ in the caller and the count of timeouts only. */
  predicate OnlyReturned(s: State, t: State, result: Result) {
    && s.caller.Waiting? && t.caller == Returned(result, s.caller.received)
    && t.writers == s.writers && t.channel == s.channel && t.closed == s.closed && t.expired == s.expired
    && t.stats.writeOk == s.stats.writeOk && t.stats.writeErr == s.stats.writeErr
    && t.stats.writeTimeout == s.stats.writeTimeout + if result == ErrTimeout then 1 else 0
  }

  lemma RunOne(s: State, step: Step)
    ensures Run(s, [step]) == Do(s, step)
  {
    assert [step][1..] == [];
  }

  lemma RunTwo(s: State, first: Step, second: Step)
    requires Do(s, first).Some?
    ensures Run(s, [first, second]) == Do(Do(s, first).value, second)
  {
    assert [first, second][1..] == [second];
    RunOne(Do(s, first).value, second);
  }

  /** No writer has to move for the caller to return: once the timer has expired it can return a timeout, which
      is counted; once the writer is closed, a failed write. Both can happen at any time while it waits. */
  lemma CallerCanGiveUp(n: nat, s: State)
    requires Reachable(n, s) && IsExpecting(s)
    ensures s.expired ==> Run(s, [SeeExpired]).Some? && OnlyReturned(s, Run(s, [SeeExpired]).value, ErrTimeout)
    ensures s.closed ==> Run(s, [SeeClosed]).Some? && OnlyReturned(s, Run(s, [SeeClosed]).value, ErrWriteFailed)
    ensures var r := Run(s, [Expire, SeeExpired]);
            r.Some? && r.value.caller == Returned(ErrTimeout, s.caller.received) && r.value.writers == s.writers
    ensures var r := Run(s, [Close, SeeClosed]);
            r.Some? && r.value.caller == Returned(ErrWriteFailed, s.caller.received) && r.value.writers == s.writers
  {
    RunOne(s, SeeExpired);
    RunOne(s, SeeClosed);
    RunTwo(s, Expire, SeeExpired);
    RunTwo(s, Close, SeeClosed);
  }

  /** With neither, a waiting caller moves on a report only: it counts a success, and returns the first error. */
  lemma CallerMovesOnReports(n: nat, s: State, step: Step)
    requires Reachable(n, s) && IsExpecting(s) && !s.expired && !s.closed && Do(s, step).Some?
    ensures Do(s, step).value.caller != s.caller ==> step == Receive
    ensures step == Receive ==>
              && s.channel != [] && Do(s, step).value.channel == s.channel[1..]
              && Do(s, step).value.caller ==
                 (if s.channel[0].None? then Waiting(s.caller.received + 1)
                  else Returned(ShardError(s.channel[0].value), s.caller.received + 1))
  {
  }

  /** A report in the channel can be taken, and after the last success the caller returns one. */
  lemma CallerTakesReports(n: nat, s: State)
    requires Reachable(n, s)
    ensures IsExpecting(s) && s.channel != [] ==> Do(s, Receive).Some?
    ensures s.caller == Waiting(n) ==> Run(s, [Finish]).Some? && OnlyReturned(s, Run(s, [Finish]).value, Success)
  {
    ReachableInvariant(n, s);
    RunOne(s, Finish);
  }

  /** The store may answer anything: each of a writer's calls is possible where it is due, with every outcome,
      and nowhere else. */
  lemma StoreAnswersFreely(s: State, i: nat, outcome: Report)
    ensures Do(s, Write(i, outcome)).Some? <==> i < |s.writers| && s.writers[i] == FirstWrite
    ensures Do(s, Create(i, outcome)).Some? <==> i < |s.writers| && s.writers[i] == CreateShard
    ensures Do(s, Rewrite(i, outcome)).Some? <==> i < |s.writers| && s.writers[i] == SecondWrite
  {
  }
}
