/** Logger::Impl of the Logger module: the scheduler's fields, updated in
    place by the tick of the scheduler thread and by the event handlers.
    Each method is one atomic step; its contract gives the new value of
    every field and ties the whole object to the matching step of the
    `Scheduler` state machine, so that the properties proved there hold of
    this object. Raised events and log records go to the ghost sequences
    `emitted` and `log`. */
module LogModule {
  import opened SessionLog
  import opened Scheduler

  class Logger {
    /** Number of acknowledged calls in this session. */
    var iteration: int
    /** Valid face appearances since the last call. */
    var faceCount: int
    /** Number of sessions started. */
    var childCount: int
    /** Time of the last face detection, in ms. */
    var lastFace: int
    /** Time of the last call, if any. */
    var lastCall: Stamp
    /** Time the session started, in ms. */
    var sessionStart: int
    /** The output file is open and the scheduler thread runs. */
    var active: bool
    /** Records written to the current session's output file. */
    ghost var log: seq<Entry>
    /** Events raised on the event bus. */
    ghost var emitted: seq<Event>

    ghost function Snapshot(): State
      reads this
    {
      State(iteration, faceCount, childCount, lastFace, lastCall, sessionStart, active, log, emitted)
    }

    ghost predicate Valid()
      reads this
    {
      Inv(Snapshot())
    }

    /** No session yet, no file open. The counters that the source leaves
        uninitialised until the first session start at zero here. */
    constructor ()
      ensures Valid()
      ensures childCount == 0 && !active && lastCall == Never
      ensures log == [] && emitted == []
    {
      iteration, faceCount, childCount := 0, 0, 0;
      lastFace, sessionStart := 0, 0;
      lastCall := Never;
      active := false;
      log, emitted := [], [];
    }

    /** Impl::log: one record stamped with the time since the session
        started; a write to a closed file is lost. */
    method Log(tag: Tag, value: int, now: int)
      modifies this`log
      ensures log == old(log) + (if active then [Entry(tag, value, now - sessionStart)] else [])
    {
      if active {
        log := log + [Entry(tag, value, now - sessionStart)];
      }
    }

    /** Impl::startLogger, then the scheduler thread stamps `lastFace`.
        StartSession is delivered only while no session runs. */
    method Start(now: int)
      requires Valid() && !active
      modifies this
      ensures Valid() && Snapshot() == StartSession(old(Snapshot()), now)
      ensures iteration == 0 && faceCount == 0 && childCount == old(childCount) + 1
      ensures sessionStart == now && lastFace == now && lastCall == old(lastCall)
      ensures active && log == [] && emitted == old(emitted)
    {
      log := [];
      sessionStart := now;
      iteration := 0;
      faceCount := 0;
      childCount := childCount + 1;
      active := true;
      lastFace := now;
    }

    /** One pass of the scheduler loop at time `now`. */
    method Tick(now: int)
      requires Valid() && active
      modifies this`faceCount, this`lastCall, this`log, this`emitted
      ensures Valid() && Snapshot() == Scheduler.Tick(old(Snapshot()), now)
      ensures TickEffect(old(Snapshot()), Snapshot(), now)
    {
      ghost var before := Snapshot();
      CheckResponse(now);
      CheckIdle(now);
      assert Snapshot() == Scheduler.Tick(before, now);
      TickKeepsInv(before, now);
      TickOutcome(before, now);
    }

    /** The success check of the scheduler loop. */
    method CheckResponse(now: int)
      modifies this`log, this`emitted
      ensures Snapshot() == Scheduler.CheckResponse(old(Snapshot()), now)
    {
      if iteration >= 1 && faceCount >= ResponseFaces {
        Log(SE, ChildResponded, now);
        emitted := emitted + [EndSession(ChildResponded)];
      }
    }

    /** The idle-timeout decision of the scheduler loop. */
    method CheckIdle(now: int)
      modifies this`faceCount, this`lastCall, this`log, this`emitted
      ensures Snapshot() == Scheduler.CheckIdle(old(Snapshot()), now)
    {
      var sinceLastFace := now - lastFace;
      var callIdle := match lastCall
        case Never => true
        case At(ms) => now - ms >= IdleTimeout;
      if sinceLastFace >= IdleTimeout && callIdle {
        if iteration < ByNameCalls {
          Log(CS, iteration + 1, now);
          faceCount := 0;
          emitted := emitted + [CallChild(CallByName)];
          lastCall := At(now);
        } else if iteration < PhraseCallsEnd {
          Log(PS, iteration - 4, now);
          faceCount := 0;
          emitted := emitted + [CallChild(SpecialPhrase)];
          lastCall := At(now);
        } else {
          Log(SE, NoResponse, now);
          emitted := emitted + [EndSession(NoResponse)];
        }
      }
    }

    /** The scheduler loop run over the tick times `times`, with no
        notification arriving in between; the stop request ends it. */
    method RunTicks(times: seq<int>)
      requires Valid() && active
      modifies this`faceCount, this`lastCall, this`log, this`emitted
      ensures Valid() && active
      ensures Snapshot() == Run(old(Snapshot()), Ticks(times))
    {
      for i := 0 to |times|
        invariant Valid() && active
        invariant Snapshot() == Run(old(Snapshot()), Ticks(times[..i]))
      {
        assert Ticks(times[..i + 1])[..i] == Ticks(times[..i]);
        Tick(times[i]);
      }
      assert times[..|times|] == times;
    }

    /** Logger::onFaceDetected with a payload of `size` fields. */
    method OnFaceDetected(now: int, size: int)
      requires Valid()
      modifies this`lastFace, this`faceCount, this`log
      ensures Valid() && Snapshot() == FaceDetected(old(Snapshot()), now, size)
      ensures lastFace == now
      ensures size >= MinFaceFields ==>
        && faceCount == old(faceCount) + 1
        && log == old(log) + (if active then [Entry(FD, faceCount, now - sessionStart)] else [])
      ensures size < MinFaceFields ==> faceCount == old(faceCount) && log == old(log)
    {
      ghost var before := Snapshot();
      lastFace := now;
      if size >= MinFaceFields {
        faceCount := faceCount + 1;
        Log(FD, faceCount, now);
      }
      assert Snapshot() == FaceDetected(before, now, size);
      FaceDetectedKeepsInv(before, now, size);
    }

    /** Logger::onChildCalled with acknowledgment payload `value`. */
    method OnChildCalled(now: int, value: int)
      requires Valid()
      modifies this`lastCall, this`iteration, this`log
      ensures Valid() && Snapshot() == ChildCalled(old(Snapshot()), now, value)
      ensures lastCall == At(now) && iteration == old(iteration) + 1
      ensures log == old(log) + (if active then [Entry(CE, value, now - sessionStart)] else [])
    {
      ghost var before := Snapshot();
      lastCall := At(now);
      iteration := iteration + 1;
      Log(CE, value, now);
      assert Snapshot() == ChildCalled(before, now, value);
      ChildCalledKeepsInv(before, now, value);
    }

    /** Logger::onStopLogger: the thread is joined and the file closed;
        the counters and times are left as they are. */
    method Stop()
      requires Valid() && active
      modifies this`active
      ensures Valid() && Snapshot() == StopSession(old(Snapshot()))
      ensures !active
    {
      active := false;
    }
  }
}
