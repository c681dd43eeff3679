/** Properties of whole runs of the scheduler: sequences of ticks and
    notifications applied one after another. */
module SchedulerProperties {
  import opened SessionLog
  import opened Scheduler

  /** No session starts during `steps`. */
  ghost predicate WithinSession(steps: seq<Step>) {
    forall i | 0 <= i < |steps| :: !steps[i].StartAt?
  }

  /** Number of ChildCalled acknowledgments among `steps`. */
  function Acks(steps: seq<Step>): nat
    decreases |steps|
  {
    if |steps| == 0 then 0
    else Acks(steps[..|steps| - 1]) + (if steps[|steps| - 1].CalledAt? then 1 else 0)
  }

  /** With no session start among `steps`, `iteration` grows by exactly the
      number of acknowledgments once a session has ever started, and stays
      put before the first one (ChildCalled is not yet subscribed): it never
      decreases and nothing else moves it. The session counter stays put. */
  lemma {:induction false} IterationCountsAcks(s: State, steps: seq<Step>)
    requires WithinSession(steps)
    ensures Run(s, steps).childCount == s.childCount
    ensures Run(s, steps).iteration == s.iteration + (if s.childCount >= 1 then Acks(steps) else 0)
    decreases |steps|
  {
    if |steps| > 0 {
      var k := |steps| - 1;
      IterationCountsAcks(s, steps[..k]);
      AckStep(Run(s, steps[..k]), steps[k]);
    }
  }

  /** One step other than a start: the session counter stays put, and
      `iteration` moves by one exactly on a delivered acknowledgment. */
  lemma AckStep(p: State, step: Step)
    requires !step.StartAt?
    ensures Apply(p, step).childCount == p.childCount
    ensures Apply(p, step).iteration == p.iteration + (if p.childCount >= 1 && step.CalledAt? then 1 else 0)
  {
    if step.TickAt? && p.active {
      TickOutcome(p, step.now);
    }
  }

  /** Every event ever raised is CallChild(1), CallChild(2), EndSession(1)
      or EndSession(-1), and every record carries a value its tag allows:
      CS 1 to 5, PS 1 or 2, SE 1 or -1, FD at least 1. */
  lemma RunIsWellFormed(s: State, steps: seq<Step>)
    requires Inv(s)
    ensures forall e | e in Run(s, steps).emitted :: WellFormedEvent(e)
    ensures forall e | e in Run(s, steps).log :: WellFormedEntry(e)
  {
    RunKeepsInv(s, steps);
  }

  /** In a session's log every call by name comes before every call with the
      special phrase. */
  lemma CallsByNameComeFirst(s: State, steps: seq<Step>)
    requires Inv(s)
    ensures var log := Run(s, steps).log;
      forall i, j | 0 <= i < |log| && 0 <= j < |log| && log[i].tag == CS && log[j].tag == PS :: i < j
  {
    RunKeepsInv(s, steps);
    var log := Run(s, steps).log;
    forall i, j | 0 <= i < |log| && 0 <= j < |log| && log[i].tag == CS && log[j].tag == PS
      ensures i < j
    {
      if j < i {
        assert false;
      }
    }
  }

  /** A success record is only ever written after a CE record. */
  ghost predicate AckBeforeSuccess(log: seq<Entry>) {
    forall i | 0 <= i < |log| && log[i].tag == SE && log[i].value == ChildResponded ::
      Count(log[..i], CE) >= 1
  }

  lemma AppendKeepsAckBeforeSuccess(log: seq<Entry>, e: Entry)
    requires AckBeforeSuccess(log)
    requires e.tag == SE && e.value == ChildResponded ==> Count(log, CE) >= 1
    ensures AckBeforeSuccess(log + [e])
  {
    var log' := log + [e];
    forall i | 0 <= i < |log'| && log'[i].tag == SE && log'[i].value == ChildResponded
      ensures Count(log'[..i], CE) >= 1
    {
      if i < |log| {
        assert log'[..i] == log[..i];
      } else {
        assert log'[..i] == log;
      }
    }
  }

  lemma LogKeepsAckBeforeSuccess(s: State, tag: Tag, value: int, now: int)
    requires AckBeforeSuccess(s.log)
    requires tag == SE && value == ChildResponded ==> Count(s.log, CE) >= 1
    ensures AckBeforeSuccess(Log(s, tag, value, now).log)
  {
    if s.active {
      AppendKeepsAckBeforeSuccess(s.log, Entry(tag, value, now - s.sessionStart));
    }
  }

  lemma ResponseKeepsAckBeforeSuccess(s: State, now: int)
    requires s.active && Count(s.log, CE) == s.iteration
    requires AckBeforeSuccess(s.log)
    ensures AckBeforeSuccess(CheckResponse(s, now).log)
  {
    if Responded(s) {
      LogKeepsAckBeforeSuccess(s, SE, ChildResponded, now);
      assert CheckResponse(s, now).log == Log(s, SE, ChildResponded, now).log;
    }
  }

  lemma IdleKeepsAckBeforeSuccess(s: State, now: int)
    requires AckBeforeSuccess(s.log)
    ensures AckBeforeSuccess(CheckIdle(s, now).log)
  {
    if !TimedOut(s, now) {
    } else if s.iteration < ByNameCalls {
      LogKeepsAckBeforeSuccess(s, CS, s.iteration + 1, now);
      assert CheckIdle(s, now).log == Log(s, CS, s.iteration + 1, now).log;
    } else if s.iteration < PhraseCallsEnd {
      LogKeepsAckBeforeSuccess(s, PS, s.iteration - 4, now);
      assert CheckIdle(s, now).log == Log(s, PS, s.iteration - 4, now).log;
    } else {
      LogKeepsAckBeforeSuccess(s, SE, NoResponse, now);
      assert CheckIdle(s, now).log == Log(s, SE, NoResponse, now).log;
    }
  }

  lemma TickKeepsAckBeforeSuccess(s: State, now: int)
    requires s.active && Count(s.log, CE) == s.iteration
    requires AckBeforeSuccess(s.log)
    ensures AckBeforeSuccess(Tick(s, now).log)
  {
    ResponseKeepsAckBeforeSuccess(s, now);
    IdleKeepsAckBeforeSuccess(CheckResponse(s, now), now);
  }

  lemma StepKeepsAckBeforeSuccess(s: State, step: Step)
    requires s.active ==> Count(s.log, CE) == s.iteration
    requires AckBeforeSuccess(s.log)
    ensures AckBeforeSuccess(Apply(s, step).log)
  {
    match step
    case TickAt(now) =>
      if s.active {
        TickKeepsAckBeforeSuccess(s, now);
      }
    case FaceAt(now, size) =>
      if s.active && size >= MinFaceFields {
        LogKeepsAckBeforeSuccess(s.(lastFace := now, faceCount := s.faceCount + 1), FD, s.faceCount + 1, now);
      }
    case CalledAt(now, value) =>
      LogKeepsAckBeforeSuccess(s.(lastCall := At(now), iteration := s.iteration + 1), CE, value, now);
    case StartAt(now) =>
    case Stop =>
  }

  /** The success record (SE 1) is never written before some call was
      acknowledged (a CE record) in the same session's log. */
  lemma {:induction false} SuccessFollowsAck(s: State, steps: seq<Step>)
    requires Inv(s) && AckBeforeSuccess(s.log)
    ensures AckBeforeSuccess(Run(s, steps).log)
    decreases |steps|
  {
    if |steps| > 0 {
      var before := Run(s, steps[..|steps| - 1]);
      SuccessFollowsAck(s, steps[..|steps| - 1]);
      RunKeepsInv(s, steps[..|steps| - 1]);
      StepKeepsAckBeforeSuccess(before, steps[|steps| - 1]);
    }
  }

  /** The log holds only records written at or before time `t`, at or
      after the session started, in chronological order. */
  ghost predicate LogUpTo(s: State, t: int) {
    s.sessionStart <= t && Chronological(s.log)
    && forall i | 0 <= i < |s.log| :: 0 <= s.log[i].elapsed <= t - s.sessionStart
  }

  /** Every step that reads the clock reads it in [t0, u]. */
  ghost predicate ClockWithin(steps: seq<Step>, t0: int, u: int) {
    forall i | 0 <= i < |steps| && !steps[i].Stop? :: t0 <= steps[i].now <= u
  }

  /** The clock never goes backwards from one step to a later one. */
  ghost predicate ClockForward(steps: seq<Step>) {
    forall i, j | 0 <= i < j < |steps| && !steps[i].Stop? && !steps[j].Stop? :: steps[i].now <= steps[j].now
  }

  lemma LogAtKeepsLogUpTo(s: State, tag: Tag, value: int, t: int)
    requires LogUpTo(s, t)
    ensures LogUpTo(Log(s, tag, value, t), t)
  {
  }

  lemma TickKeepsLogUpTo(s: State, t: int)
    requires LogUpTo(s, t) && s.active
    ensures LogUpTo(Tick(s, t), t)
  {
    if Responded(s) {
      LogAtKeepsLogUpTo(s, SE, ChildResponded, t);
    }
    var s1 := CheckResponse(s, t);
    assert LogUpTo(s1, t);
    if !TimedOut(s1, t) {
    } else if s1.iteration < ByNameCalls {
      LogAtKeepsLogUpTo(s1, CS, s1.iteration + 1, t);
    } else if s1.iteration < PhraseCallsEnd {
      LogAtKeepsLogUpTo(s1, PS, s1.iteration - 4, t);
    } else {
      LogAtKeepsLogUpTo(s1, SE, NoResponse, t);
    }
  }

  lemma StepKeepsLogUpTo(s: State, step: Step, t: int)
    requires LogUpTo(s, t)
    requires !step.Stop? ==> step.now == t
    ensures LogUpTo(Apply(s, step), t)
  {
    match step
    case TickAt(now) =>
      if s.active {
        TickKeepsLogUpTo(s, t);
      }
    case FaceAt(now, size) =>
      if s.active && size >= MinFaceFields {
        LogAtKeepsLogUpTo(s.(lastFace := now, faceCount := s.faceCount + 1), FD, s.faceCount + 1, t);
      }
    case CalledAt(now, value) =>
      LogAtKeepsLogUpTo(s.(lastCall := At(now), iteration := s.iteration + 1), CE, value, t);
    case StartAt(now) =>
    case Stop =>
  }

  /** When the clock never goes backwards, the elapsed times written to the
      log never go down and are never negative. */
  lemma {:induction false} ElapsedNonDecreasing(s: State, steps: seq<Step>, t0: int, u: int)
    requires LogUpTo(s, t0) && t0 <= u
    requires ClockWithin(steps, t0, u) && ClockForward(steps)
    ensures LogUpTo(Run(s, steps), u)
    ensures Chronological(Run(s, steps).log)
    decreases |steps|
  {
    if |steps| > 0 {
      var k := |steps| - 1;
      var last := steps[k];
      if last.Stop? {
        ElapsedNonDecreasing(s, steps[..k], t0, u);
      } else {
        ElapsedNonDecreasing(s, steps[..k], t0, last.now);
        StepKeepsLogUpTo(Run(s, steps[..k]), last, last.now);
      }
    }
  }

  /** The loop does not stop by itself: once the child has responded, every
      further tick before the stop request arrives writes SE 1 and raises
      EndSession(1) again (as long as no idle timeout intervenes). */
  lemma {:induction false} SuccessRepeatsUntilStopped(s: State, times: seq<int>)
    requires s.active && Responded(s)
    requires forall i | 0 <= i < |times| :: times[i] - s.lastFace < IdleTimeout
    ensures var r := Run(s, Ticks(times));
      && r.emitted == s.emitted + seq(|times|, _ => EndSession(ChildResponded))
      && r.log == s.log + seq(|times|, i requires 0 <= i < |times| => Entry(SE, ChildResponded, times[i] - s.sessionStart))
      && r.active && r.iteration == s.iteration && r.faceCount == s.faceCount
      && r.lastFace == s.lastFace && r.lastCall == s.lastCall && r.sessionStart == s.sessionStart
    decreases |times|
  {
    if |times| > 0 {
      var k := |times| - 1;
      assert Ticks(times)[..k] == Ticks(times[..k]);
      SuccessRepeatsUntilStopped(s, times[..k]);
      var before := Run(s, Ticks(times[..k]));
      assert Run(s, Ticks(times)) == Tick(before, times[k]);
      assert seq(|times|, _ => EndSession(ChildResponded))
        == seq(k, _ => EndSession(ChildResponded)) + [EndSession(ChildResponded)];
      assert seq(|times|, i requires 0 <= i < |times| => Entry(SE, ChildResponded, times[i] - s.sessionStart))
        == seq(k, i requires 0 <= i < k => Entry(SE, ChildResponded, times[..k][i] - s.sessionStart))
           + [Entry(SE, ChildResponded, times[k] - s.sessionStart)];
    }
  }

  /** After the last call the success record does not stop repeating: a
      timed-out tick with the child responded writes SE 1 and then SE -1,
      raises both EndSession events and leaves the face count alone, so the
      next tick, at any later time, finds the child still responded and still
      timed out and does the same until the stop request arrives. */
  lemma GiveUpKeepsSuccess(s: State, now: int, later: int)
    requires s.active && Responded(s) && TimedOut(s, now) && PhraseCallsEnd <= s.iteration
    requires now <= later
    ensures var r := Tick(s, now);
      && r.log == s.log + [Entry(SE, ChildResponded, now - s.sessionStart), Entry(SE, NoResponse, now - s.sessionStart)]
      && r.emitted == s.emitted + [EndSession(ChildResponded), EndSession(NoResponse)]
      && r.active && Responded(r) && TimedOut(r, later)
  {
    TickOutcome(s, now);
  }

  /** After the stop request and before a new session, ticks and face
      detections no longer arrive and nothing is logged or raised; only a
      late acknowledgment still moves `iteration` and stamps `lastCall`
      (ChildCalled stays subscribed once a session has ever started). */
  lemma {:induction false} NothingAfterStop(s: State, steps: seq<Step>)
    requires !s.active && WithinSession(steps)
    ensures var r := Run(s, steps);
      && !r.active && r.log == s.log && r.emitted == s.emitted
      && r.faceCount == s.faceCount && r.lastFace == s.lastFace && r.sessionStart == s.sessionStart
      && r.iteration == s.iteration + (if s.childCount >= 1 then Acks(steps) else 0)
      && (s.childCount >= 1 && |steps| > 0 && steps[|steps| - 1].CalledAt? ==>
            r.lastCall == At(steps[|steps| - 1].now))
      && (s.childCount == 0 || Acks(steps) == 0 ==> r.lastCall == s.lastCall)
    decreases |steps|
  {
    if |steps| > 0 {
      NothingAfterStop(s, steps[..|steps| - 1]);
      IterationCountsAcks(s, steps[..|steps| - 1]);
    }
  }

  /** Number of CallChild events in `events`. */
  function Calls(events: seq<Event>): nat
    decreases |events|
  {
    if |events| == 0 then 0
    else Calls(events[..|events| - 1]) + (if events[|events| - 1].CallChild? then 1 else 0)
  }

  lemma CallsSnoc(events: seq<Event>, e: Event)
    ensures Calls(events + [e]) == Calls(events) + (if e.CallChild? then 1 else 0)
  {
    assert (events + [e])[..|events|] == events;
  }

  /** Outside a session start, the face count drops to zero exactly when a
      call is raised; otherwise it stays or grows by one. A step raises at
      most one call. */
  lemma FaceCountResetsOnlyWithCall(s: State, step: Step)
    requires !step.StartAt?
    ensures var r := Apply(s, step);
      && Calls(s.emitted) <= Calls(r.emitted) <= Calls(s.emitted) + 1
      && (Calls(r.emitted) > Calls(s.emitted) ==> r.faceCount == 0)
      && (Calls(r.emitted) == Calls(s.emitted) ==> r.faceCount == s.faceCount || r.faceCount == s.faceCount + 1)
  {
    match step
    case TickAt(now) =>
      if s.active {
        var s1 := CheckResponse(s, now);
        if Responded(s) {
          CallsSnoc(s.emitted, EndSession(ChildResponded));
        }
        if TimedOut(s1, now) {
          if s1.iteration < ByNameCalls {
            CallsSnoc(s1.emitted, CallChild(CallByName));
          } else if s1.iteration < PhraseCallsEnd {
            CallsSnoc(s1.emitted, CallChild(SpecialPhrase));
          } else {
            CallsSnoc(s1.emitted, EndSession(NoResponse));
          }
        }
      }
    case FaceAt(now, size) =>
    case CalledAt(now, value) =>
    case Stop =>
  }

  /** Running two stretches of steps one after the other is running their
      concatenation. */
  lemma {:induction false} RunAppend(s: State, first: seq<Step>, second: seq<Step>)
    ensures Run(s, first + second) == Run(Run(s, first), second)
    decreases |second|
  {
    if |second| == 0 {
      assert first + second == first;
    } else {
      var k := |second| - 1;
      assert (first + second)[..|first + second| - 1] == first + second[..k];
      RunAppend(s, first, second[..k]);
    }
  }

  /** One more step at the end of a run. */
  lemma RunSnoc(s: State, steps: seq<Step>, step: Step)
    ensures Run(s, steps + [step]) == Apply(Run(s, steps), step)
  {
    assert (steps + [step])[..|steps|] == steps;
  }

  /** The opening of a session: started at 0 ms, the child called by name at
      the 5000 ms tick (the 100 ms tick is too early), the call acknowledged
      at 5200 ms. The first call needs the previous session's last call to
      lie at least 5 s back, or no call ever made. */
  lemma FirstCallAcknowledged(s: State)
    requires !s.active && s.childCount >= 0 && IdleSince(s.lastCall, 5000)
    ensures
      var r := Run(s, [StartAt(0), TickAt(100), TickAt(5000), CalledAt(5200, CallByName)]);
      && r.log == [Entry(CS, 1, 5000), Entry(CE, CallByName, 5200)]
      && r.emitted == s.emitted + [CallChild(CallByName)]
      && r.iteration == 1 && r.faceCount == 0 && r.lastFace == 0 && r.lastCall == At(5200)
      && r.active && r.sessionStart == 0
  {
    var p1 := [StartAt(0)];
    var p2 := p1 + [TickAt(100)];
    var p3 := p2 + [TickAt(5000)];
    var called := OpeningCall(s, p1, p2, p3);
    RunSnoc(s, p3, CalledAt(5200, CallByName));
    assert Run(s, p3 + [CalledAt(5200, CallByName)]) == ChildCalled(called, 5200, CallByName);
    assert p3 + [CalledAt(5200, CallByName)] == [StartAt(0), TickAt(100), TickAt(5000), CalledAt(5200, CallByName)];
  }

  /** The first three steps of that opening: the start, the early tick that
      does nothing and the tick that calls the child by name. */
  lemma OpeningCall(s: State, p1: seq<Step>, p2: seq<Step>, p3: seq<Step>) returns (called: State)
    requires !s.active && s.childCount >= 0 && IdleSince(s.lastCall, 5000)
    requires p1 == [StartAt(0)] && p2 == p1 + [TickAt(100)] && p3 == p2 + [TickAt(5000)]
    ensures called == Run(s, p3)
    ensures called.log == [Entry(CS, 1, 5000)] && called.emitted == s.emitted + [CallChild(CallByName)]
    ensures called.iteration == 0 && called.faceCount == 0 && called.lastFace == 0
    ensures called.lastCall == At(5000) && called.active && called.sessionStart == 0 && called.childCount >= 1
  {
    var started := StartSession(s, 0);
    RunSnoc(s, [], StartAt(0));
    assert [] + [StartAt(0)] == p1;
    TickOutcome(started, 100);
    RunSnoc(s, p1, TickAt(100));
    assert Run(s, p2) == started;
    TickOutcome(started, 5000);
    RunSnoc(s, p2, TickAt(5000));
    called := Tick(started, 5000);
  }

  /** The child then looks at the robot five times: the next tick writes SE 1
      and raises EndSession(1); once the stop request is handled, later ticks
      no longer run. */
  lemma FiveFacesEndSession(s: State)
    requires s.active && s.iteration == 1 && s.faceCount == 0 && s.sessionStart == 0
    requires s.lastCall == At(5200)
    ensures
      var r := Run(s, [FaceAt(5300, 2), FaceAt(5400, 2), FaceAt(5500, 2), FaceAt(5600, 2), FaceAt(5700, 2),
                       TickAt(5800), Stop, TickAt(5900)]);
      && r.log == s.log + [Entry(FD, 1, 5300), Entry(FD, 2, 5400), Entry(FD, 3, 5500), Entry(FD, 4, 5600),
                           Entry(FD, 5, 5700), Entry(SE, ChildResponded, 5800)]
      && r.emitted == s.emitted + [EndSession(ChildResponded)]
      && r.iteration == 1 && r.faceCount == 5 && !r.active
  {
    var f1 := [FaceAt(5300, 2)];
    var f2 := f1 + [FaceAt(5400, 2)];
    var f3 := f2 + [FaceAt(5500, 2)];
    var f4 := f3 + [FaceAt(5600, 2)];
    var f5 := f4 + [FaceAt(5700, 2)];
    RunSnoc(s, [], FaceAt(5300, 2));
    RunSnoc(s, f1, FaceAt(5400, 2));
    RunSnoc(s, f2, FaceAt(5500, 2));
    RunSnoc(s, f3, FaceAt(5600, 2));
    RunSnoc(s, f4, FaceAt(5700, 2));
    var seen := Run(s, f5);
    assert seen.faceCount == 5 && seen.iteration == 1 && seen.active && seen.sessionStart == 0;
    assert seen.log == s.log + [Entry(FD, 1, 5300), Entry(FD, 2, 5400), Entry(FD, 3, 5500), Entry(FD, 4, 5600),
                                Entry(FD, 5, 5700)];
    RunSnoc(s, f5, TickAt(5800));
    RunSnoc(s, f5 + [TickAt(5800)], Stop);
    RunSnoc(s, f5 + [TickAt(5800)] + [Stop], TickAt(5900));
    assert f5 + [TickAt(5800)] + [Stop] + [TickAt(5900)]
      == [FaceAt(5300, 2), FaceAt(5400, 2), FaceAt(5500, 2), FaceAt(5600, 2), FaceAt(5700, 2),
          TickAt(5800), Stop, TickAt(5900)];
  }

  /** The whole session: the call by name is answered, the success record
      closes the log, and exactly one call and one EndSession(1) are raised. */
  lemma AnsweredFirstCall(s: State)
    requires !s.active && s.childCount >= 0 && IdleSince(s.lastCall, 5000)
    ensures
      var r := Run(s, [StartAt(0), TickAt(100), TickAt(5000), CalledAt(5200, CallByName),
                       FaceAt(5300, 2), FaceAt(5400, 2), FaceAt(5500, 2), FaceAt(5600, 2), FaceAt(5700, 2),
                       TickAt(5800), Stop, TickAt(5900)]);
      && r.log == [Entry(CS, 1, 5000), Entry(CE, CallByName, 5200),
                   Entry(FD, 1, 5300), Entry(FD, 2, 5400), Entry(FD, 3, 5500), Entry(FD, 4, 5600), Entry(FD, 5, 5700),
                   Entry(SE, ChildResponded, 5800)]
      && r.emitted == s.emitted + [CallChild(CallByName), EndSession(ChildResponded)]
      && r.iteration == 1 && !r.active
  {
    var opening := [StartAt(0), TickAt(100), TickAt(5000), CalledAt(5200, CallByName)];
    var closing := [FaceAt(5300, 2), FaceAt(5400, 2), FaceAt(5500, 2), FaceAt(5600, 2), FaceAt(5700, 2),
                    TickAt(5800), Stop, TickAt(5900)];
    FirstCallAcknowledged(s);
    FiveFacesEndSession(Run(s, opening));
    RunAppend(s, opening, closing);
    assert opening + closing
      == [StartAt(0), TickAt(100), TickAt(5000), CalledAt(5200, CallByName),
          FaceAt(5300, 2), FaceAt(5400, 2), FaceAt(5500, 2), FaceAt(5600, 2), FaceAt(5700, 2),
          TickAt(5800), Stop, TickAt(5900)];
  }
}

