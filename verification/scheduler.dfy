/** The call scheduler of the Logger module as a state machine over values.
    Every handler and every tick of the scheduler thread is one atomic step
    from a `State` to the next; time is passed in as `now`, in milliseconds.
    Raised events and written log records are kept in the state as the
    sequences `emitted` and `log`. */
module Scheduler {
  import opened SessionLog

  /** Milliseconds without a face and without a call before the next decision. */
  const IdleTimeout := 5000
  /** Calls by name are made while `iteration` is below this. */
  const ByNameCalls := 5
  /** Special-phrase calls are made while `iteration` is below this. */
  const PhraseCallsEnd := 7
  /** Face appearances after a call that count as the child responding. */
  const ResponseFaces := 5
  /** A face payload with fewer fields than this is invalid. */
  const MinFaceFields := 2

  /** Values carried by the CallChild event. */
  const CallByName := 1
  const SpecialPhrase := 2

  /** Values carried by the EndSession event. */
  const ChildResponded := 1
  const NoResponse := -1

  /** A timestamp that may never have been set (boost's not-a-date-time);
      the time since `Never` counts as longer than any timeout. */
  datatype Stamp = Never | At(ms: int)

  /** Events the scheduler raises on the event bus. */
  datatype Event = CallChild(mode: int) | EndSession(outcome: int)

  /** The fields of Logger::Impl that the scheduler reads and writes.
      `active` is true from startLogger until onStopLogger: the output file
      is open, the scheduler thread runs and FaceDetected is subscribed.
      `log` is what has been written to the current session's file. */
  datatype State = State(
    iteration: int,
    faceCount: int,
    childCount: int,
    lastFace: int,
    lastCall: Stamp,
    sessionStart: int,
    active: bool,
    log: seq<Entry>,
    emitted: seq<Event>)

  /** At least `IdleTimeout` ms have passed since `t`. */
  predicate IdleSince(t: Stamp, now: int) {
    match t
    case Never => true
    case At(ms) => now - ms >= IdleTimeout
  }

  /** The child was called at least once and then seen often enough. */
  predicate Responded(s: State) {
    s.iteration >= 1 && s.faceCount >= ResponseFaces
  }

  /** Neither a face nor a call in the last `IdleTimeout` ms. */
  predicate TimedOut(s: State, now: int) {
    now - s.lastFace >= IdleTimeout && IdleSince(s.lastCall, now)
  }

  /** Impl::log: one record with the time elapsed since the session started;
      once the file is closed the write is lost. */
  function Log(s: State, tag: Tag, value: int, now: int): State {
    if s.active then s.(log := s.log + [Entry(tag, value, now - s.sessionStart)]) else s
  }

  /** memoryProxy->raiseEvent. */
  function Raise(s: State, e: Event): State {
    s.(emitted := s.emitted + [e])
  }

  /** A session-end record, then the EndSession event with `outcome`. */
  function End(s: State, outcome: int, now: int): State {
    Raise(Log(s, SE, outcome, now), EndSession(outcome))
  }

  /** A call: its record, the face count back at zero, the CallChild event
      with `mode`, and the call time stamped. */
  function Call(s: State, tag: Tag, value: int, mode: int, now: int): State {
    Raise(Log(s, tag, value, now).(faceCount := 0), CallChild(mode)).(lastCall := At(now))
  }

  /** First half of a tick: the success check. */
  function CheckResponse(s: State, now: int): State {
    if Responded(s) then End(s, ChildResponded, now) else s
  }

  /** Second half of a tick: the idle-timeout decision. */
  function CheckIdle(s: State, now: int): State {
    if !TimedOut(s, now) then s
    else if s.iteration < ByNameCalls then Call(s, CS, s.iteration + 1, CallByName, now)
    else if s.iteration < PhraseCallsEnd then Call(s, PS, s.iteration - 4, SpecialPhrase, now)
    else End(s, NoResponse, now)
  }

  /** One pass of the scheduler loop: the success check is a plain `if`,
      so the idle-timeout decision is taken in the same pass. */
  function Tick(s: State, now: int): State {
    CheckIdle(CheckResponse(s, now), now)
  }

  /** What one tick from `s` at `now` does, leading to `r`. The success
      record, if any, comes first; the idle-timeout decision follows in the
      same tick. A call resets the face count and stamps the call time;
      giving up does not. The iteration, the last face time and the session
      are untouched. */
  ghost predicate TickEffect(s: State, r: State, now: int) {
    var elapsed := now - s.sessionStart;
    var records := s.log + (if Responded(s) then [Entry(SE, ChildResponded, elapsed)] else []);
    var events := s.emitted + (if Responded(s) then [EndSession(ChildResponded)] else []);
    && r.iteration == s.iteration && r.lastFace == s.lastFace && r.active
    && r.childCount == s.childCount && r.sessionStart == s.sessionStart
    && (TimedOut(s, now) && s.iteration < ByNameCalls ==>
          && r.log == records + [Entry(CS, s.iteration + 1, elapsed)]
          && r.emitted == events + [CallChild(CallByName)]
          && r.faceCount == 0 && r.lastCall == At(now))
    && (TimedOut(s, now) && ByNameCalls <= s.iteration < PhraseCallsEnd ==>
          && r.log == records + [Entry(PS, s.iteration - 4, elapsed)]
          && r.emitted == events + [CallChild(SpecialPhrase)]
          && r.faceCount == 0 && r.lastCall == At(now))
    && (TimedOut(s, now) && PhraseCallsEnd <= s.iteration ==>
          && r.log == records + [Entry(SE, NoResponse, elapsed)]
          && r.emitted == events + [EndSession(NoResponse)]
          && r.faceCount == s.faceCount && r.lastCall == s.lastCall)
    && (!TimedOut(s, now) ==>
          && r.log == records && r.emitted == events
          && r.faceCount == s.faceCount && r.lastCall == s.lastCall)
  }

  /** A tick during a session has exactly that effect. */
  lemma TickOutcome(s: State, now: int)
    requires s.active
    ensures TickEffect(s, Tick(s, now), now)
  {
    var s1 := CheckResponse(s, now);
    assert s1.log == s.log + (if Responded(s) then [Entry(SE, ChildResponded, now - s.sessionStart)] else []);
  }

  /** Logger::onFaceDetected with a payload of `size` fields. */
  function FaceDetected(s: State, now: int, size: int): State {
    var seen := s.(lastFace := now);
    if size < MinFaceFields then seen
    else Log(seen.(faceCount := s.faceCount + 1), FD, s.faceCount + 1, now)
  }

  /** Logger::onChildCalled with acknowledgment payload `value`. */
  function ChildCalled(s: State, now: int, value: int): State {
    Log(s.(lastCall := At(now), iteration := s.iteration + 1), CE, value, now)
  }

  /** Impl::startLogger followed by the first statement of the scheduler
      thread, which stamps `lastFace`. `lastCall` keeps its old value. */
  function StartSession(s: State, now: int): State {
    s.(log := [], sessionStart := now, iteration := 0, faceCount := 0,
       childCount := s.childCount + 1, lastFace := now, active := true)
  }

  /** Logger::onStopLogger: the thread is joined and the file is closed. */
  function StopSession(s: State): State {
    s.(active := false)
  }

  /** What can happen to the scheduler next. */
  datatype Step =
    | TickAt(now: int)
    | FaceAt(now: int, size: int)
    | CalledAt(now: int, value: int)
    | StartAt(now: int)
    | Stop

  /** A step as the event subscriptions let it through. StartSession is
      subscribed from construction and dropped while a session runs; the
      scheduler thread ticks, and FaceDetected and EndSession are subscribed,
      only during a session; ChildCalled is first subscribed at the first
      session start and never dropped afterwards. */
  function Apply(s: State, step: Step): State {
    match step
    case TickAt(now) => if s.active then Tick(s, now) else s
    case FaceAt(now, size) => if s.active then FaceDetected(s, now, size) else s
    case CalledAt(now, value) => if s.childCount >= 1 then ChildCalled(s, now, value) else s
    case StartAt(now) => if s.active then s else StartSession(s, now)
    case Stop => if s.active then StopSession(s) else s
  }

  /** What the subscriptions let through: before any session only a start
      gets through; a start during a session is not delivered, and neither
      are ticks, faces or a stop outside one; a session opens only with a
      start and ends only with a stop; outside a session nothing is written
      or raised; an event once raised stays raised. */
  lemma DeliveredSteps(s: State, step: Step)
    ensures var r := Apply(s, step);
      && (!s.active && s.childCount == 0 && !step.StartAt? ==> r == s)
      && (s.active && step.StartAt? ==> r == s)
      && (!s.active && (step.TickAt? || step.FaceAt? || step.Stop?) ==> r == s)
      && (r.active && !s.active ==> step.StartAt?)
      && (s.active && !r.active ==> step.Stop?)
      && (!s.active && !r.active ==> r.log == s.log && r.emitted == s.emitted)
      && |s.emitted| <= |r.emitted| && r.emitted[..|s.emitted|] == s.emitted
  {
  }

  /** The state after `steps`, in order. */
  function Run(s: State, steps: seq<Step>): State
    decreases |steps|
  {
    if |steps| == 0 then s
    else Apply(Run(s, steps[..|steps| - 1]), steps[|steps| - 1])
  }

  /** Replaying steps keeps every event raised so far, in the order it was
      raised. */
  lemma {:induction false} EventsStayRaised(s: State, steps: seq<Step>)
    ensures var r := Run(s, steps);
      |s.emitted| <= |r.emitted| && r.emitted[..|s.emitted|] == s.emitted
    decreases |steps|
  {
    if |steps| > 0 {
      var k := |steps| - 1;
      EventsStayRaised(s, steps[..k]);
      DeliveredSteps(Run(s, steps[..k]), steps[k]);
    }
  }

  /** Ticks at the given times, with nothing in between. */
  function Ticks(times: seq<int>): seq<Step> {
    seq(|times|, i requires 0 <= i < |times| => TickAt(times[i]))
  }

  /** The events the scheduler can raise. */
  predicate WellFormedEvent(e: Event) {
    e == CallChild(CallByName) || e == CallChild(SpecialPhrase)
    || e == EndSession(ChildResponded) || e == EndSession(NoResponse)
  }

  /** The values each tag can carry. A CE record echoes the payload. */
  predicate WellFormedEntry(e: Entry) {
    match e.tag
    case FD => e.value >= 1
    case CS => 1 <= e.value <= ByNameCalls
    case PS => 1 <= e.value <= PhraseCallsEnd - ByNameCalls
    case SE => e.value == ChildResponded || e.value == NoResponse
    case CE => true
  }

  /** A record of a call being started. */
  predicate IsCall(e: Entry) {
    e.tag == CS || e.tag == PS
  }

  /** The iteration at which a call record was written. */
  function Stage(e: Entry): int
    requires IsCall(e)
  {
    if e.tag == CS then e.value - 1 else e.value + 4
  }

  /** Call records appear in order of the iteration they were made at. */
  ghost predicate CallsInOrder(log: seq<Entry>) {
    forall i, j :: 0 <= i < j < |log| && IsCall(log[i]) && IsCall(log[j]) ==> Stage(log[i]) <= Stage(log[j])
  }

  /** What every reachable state satisfies. While the file is open, the
      number of CE records is `iteration` and no call was logged at a later
      iteration. */
  ghost predicate Inv(s: State) {
    && s.iteration >= 0 && s.faceCount >= 0 && s.childCount >= 0
    && (forall e | e in s.emitted :: WellFormedEvent(e))
    && (forall i | 0 <= i < |s.log| :: WellFormedEntry(s.log[i]))
    && CallsInOrder(s.log)
    && (s.active ==> Count(s.log, CE) == s.iteration)
    && (s.active ==> forall i | 0 <= i < |s.log| && IsCall(s.log[i]) :: Stage(s.log[i]) <= s.iteration)
  }

  /** Writing a record that is not CE keeps the invariant, provided a call
      record is written at the current iteration and a success record only
      after a call was acknowledged. */
  lemma AppendKeepsInv(s: State, e: Entry)
    requires Inv(s) && s.active && WellFormedEntry(e) && e.tag != CE
    requires IsCall(e) ==> Stage(e) == s.iteration
    ensures Inv(s.(log := s.log + [e]))
  {
    CountSnoc(s.log, e, CE);
  }

  /** Raising a well-formed event keeps the invariant. */
  lemma RaiseKeepsInv(s: State, e: Event)
    requires Inv(s) && WellFormedEvent(e)
    ensures Inv(Raise(s, e))
  {
  }

  /** Fields the invariant does not constrain may change freely; a face
      count may drop to zero. */
  lemma TimesKeepInv(s: State, lastFace: int, lastCall: Stamp, faceCount: nat)
    requires Inv(s)
    ensures Inv(s.(lastFace := lastFace, lastCall := lastCall, faceCount := faceCount))
  {
  }

  /** A session-end record, then the EndSession event. */
  lemma EndKeepsInv(s: State, now: int, outcome: int)
    requires Inv(s) && s.active
    requires outcome == ChildResponded || outcome == NoResponse
    ensures Inv(End(s, outcome, now))
  {
    var logged := s.(log := s.log + [Entry(SE, outcome, now - s.sessionStart)]);
    AppendKeepsInv(s, Entry(SE, outcome, now - s.sessionStart));
    assert Log(s, SE, outcome, now) == logged;
    RaiseKeepsInv(logged, EndSession(outcome));
  }

  /** A call record at the current iteration, then the call itself. */
  lemma CallKeepsInv(s: State, now: int, tag: Tag, value: int, mode: int)
    requires Inv(s) && s.active
    requires tag == CS || tag == PS
    requires WellFormedEntry(Entry(tag, value, now - s.sessionStart))
    requires Stage(Entry(tag, value, now - s.sessionStart)) == s.iteration
    requires WellFormedEvent(CallChild(mode))
    ensures Inv(Call(s, tag, value, mode, now))
  {
    var logged := s.(log := s.log + [Entry(tag, value, now - s.sessionStart)]);
    AppendKeepsInv(s, Entry(tag, value, now - s.sessionStart));
    assert Log(s, tag, value, now) == logged;
    TimesKeepInv(logged, logged.lastFace, logged.lastCall, 0);
    var reset := logged.(faceCount := 0);
    RaiseKeepsInv(reset, CallChild(mode));
    var raised := Raise(reset, CallChild(mode));
    TimesKeepInv(raised, raised.lastFace, At(now), 0);
    assert raised.(lastCall := At(now)) == raised.(lastFace := raised.lastFace, lastCall := At(now), faceCount := 0);
  }

  lemma CheckResponseKeepsInv(s: State, now: int)
    requires Inv(s) && s.active
    ensures Inv(CheckResponse(s, now))
  {
    if Responded(s) {
      EndKeepsInv(s, now, ChildResponded);
    }
  }

  /** The decision taken once neither a face nor a call was seen for
      `IdleTimeout` ms keeps the invariant. */
  lemma TimedOutKeepsInv(s: State, now: int)
    requires Inv(s) && s.active && TimedOut(s, now)
    ensures Inv(CheckIdle(s, now))
  {
    var r := CheckIdle(s, now);
    if s.iteration < ByNameCalls {
      assert r == Call(s, CS, s.iteration + 1, CallByName, now);
      CallKeepsInv(s, now, CS, s.iteration + 1, CallByName);
    } else if s.iteration < PhraseCallsEnd {
      assert r == Call(s, PS, s.iteration - 4, SpecialPhrase, now);
      CallKeepsInv(s, now, PS, s.iteration - 4, SpecialPhrase);
    } else {
      assert r == End(s, NoResponse, now);
      EndKeepsInv(s, now, NoResponse);
    }
  }

  lemma CheckIdleKeepsInv(s: State, now: int)
    requires Inv(s) && s.active
    ensures Inv(CheckIdle(s, now))
  {
    if TimedOut(s, now) {
      TimedOutKeepsInv(s, now);
    } else {
      assert CheckIdle(s, now) == s;
    }
  }

  lemma TickKeepsInv(s: State, now: int)
    requires Inv(s) && s.active
    ensures Inv(Tick(s, now)) && Tick(s, now).active
  {
    CheckResponseKeepsInv(s, now);
    CheckIdleKeepsInv(CheckResponse(s, now), now);
  }

  lemma FaceDetectedKeepsInv(s: State, now: int, size: int)
    requires Inv(s)
    ensures Inv(FaceDetected(s, now, size))
  {
    if size < MinFaceFields {
      TimesKeepInv(s, now, s.lastCall, s.faceCount);
      assert FaceDetected(s, now, size) == s.(lastFace := now, lastCall := s.lastCall, faceCount := s.faceCount);
    } else {
      var counted := s.(lastFace := now, lastCall := s.lastCall, faceCount := s.faceCount + 1);
      TimesKeepInv(s, now, s.lastCall, s.faceCount + 1);
      assert FaceDetected(s, now, size) == Log(counted, FD, s.faceCount + 1, now);
      if s.active {
        AppendKeepsInv(counted, Entry(FD, s.faceCount + 1, now - s.sessionStart));
      }
    }
  }

  lemma ChildCalledKeepsInv(s: State, now: int, value: int)
    requires Inv(s)
    ensures Inv(ChildCalled(s, now, value))
  {
    if s.active {
      CountSnoc(s.log, Entry(CE, value, now - s.sessionStart), CE);
    }
  }

  lemma ApplyKeepsInv(s: State, step: Step)
    requires Inv(s)
    ensures Inv(Apply(s, step))
  {
    match step
    case TickAt(now) =>
      if s.active { TickKeepsInv(s, now); }
    case FaceAt(now, size) =>
      FaceDetectedKeepsInv(s, now, size);
    case CalledAt(now, value) =>
      ChildCalledKeepsInv(s, now, value);
    case StartAt(now) =>
    case Stop =>
  }

  /** Every state reached from a state satisfying the invariant satisfies it. */
  lemma {:induction false} RunKeepsInv(s: State, steps: seq<Step>)
    requires Inv(s)
    ensures Inv(Run(s, steps))
    decreases |steps|
  {
    if |steps| > 0 {
      RunKeepsInv(s, steps[..|steps| - 1]);
      ApplyKeepsInv(Run(s, steps[..|steps| - 1]), steps[|steps| - 1]);
    }
  }
}
