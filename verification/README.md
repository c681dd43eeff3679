# Call scheduler of the NAO response-to-name Logger module

This project models the call scheduler inside `Logger::Impl` of
`src/logmodule.cpp`. During a session the robot tries to get a child's
attention. A thread ticks every 100 ms. On each tick it checks whether the
child has responded: at least one acknowledged call and at least five face
appearances since the last call. If so, it writes `SE 1` and raises
`EndSession(1)`. If neither a face nor a call has been seen for 5 s, it
decides what to do next:

- call the child by name (`CS`, `CallChild(1)`) for iterations 0 to 4;
- use the special phrase (`PS`, `CallChild(2)`) for iterations 5 and 6;
- give up (`SE -1`, `EndSession(-1)`) after that.

Two event handlers feed the state. `onFaceDetected` counts valid faces.
`onChildCalled` counts acknowledged calls. `startLogger` resets the counters,
and `log` writes `tag  value  elapsed` records to the session's file.

The project has four files:

- `session_log.dfy` (module `SessionLog`): the record type, with tags
  `FD CS PS CE SE`, integer values and elapsed milliseconds; counting records
  by tag; chronological order.
- `scheduler.dfy` (module `Scheduler`): the scheduler as a state machine on
  values. Each handler and each tick is a function from `State` to `State`,
  with the time `now` in milliseconds as a parameter. Raised events go to
  `emitted` and written records to `log`. `Apply` and `Run` replay a sequence
  of steps. Event subscriptions decide which steps reach the scheduler:
  - ticks and face events only during a session;
  - ChildCalled once the first session has started, and from then on also
    between sessions, because it is never unsubscribed at stop;
  - StartSession only outside a session;
  - EndSession only inside a session.

  `Inv` is the invariant that every reachable state keeps. While the file is
  open, the number of `CE` records equals `iteration`, and call records
  appear in the order of the iteration they were made at. Every event and
  every record is well formed.
- `scheduler_properties.dfy` (module `SchedulerProperties`): properties of
  whole runs.
- `logger.dfy` (module `LogModule`): class `Logger`, which holds the fields of
  `Logger::Impl` and updates them in place. Each method is proved equal to
  the matching step of `Scheduler` (`Snapshot()` gives the object as a
  `State`). So the run properties hold of the object. `Start`, `Tick`,
  `OnFaceDetected`, `OnChildCalled` and `Stop` also state their new field
  values directly. `CheckResponse`, `CheckIdle` and `RunTicks` state only
  the equality with the matching `Scheduler` function.

The model follows the code, including where the code may surprise a reader:

- The success check is a plain `if`. The idle-timeout decision is still taken
  in the same tick, so one tick can write `SE 1` and then `CS`, `PS` or
  `SE -1`.
- The loop never stops by itself. After `EndSession(1)`, every later tick
  writes `SE 1` again until the stop request is handled, as long as no face
  has been missing for 5 s (`SuccessRepeatsUntilStopped`). Once the idle
  timeout fires before the last call, a new call sets `faceCount` back to 0
  and the repetition ends. After the last call, giving up leaves
  `faceCount` alone. So every later tick writes both `SE 1` and `SE -1` and
  raises both EndSession events, until the stop request is handled
  (`GiveUpKeepsSuccess`).
- The thresholds are the fixed constants 5 and 7. They cannot be configured.
  Calls by name are made at iterations 0 to 4 and special-phrase calls at
  iterations 5 and 6; `PhraseCallsEnd` is the exclusive bound 7.
- The last call time is never reset. `startLogger` does not touch it, so it
  is "never" (not-a-date-time, which counts as more than 5 s ago) only before
  the first call. In later sessions it carries over from the previous one.
- `lastFace` is stamped when the scheduler thread starts
  (src/logmodule.cpp:162), which is part of `Start` here.
- A start request during a session is not rejected with a status. The
  subscription to StartSession is dropped while a session runs, so the
  request is never delivered.

## Model

| member | source | states |
|---|---|---|
| `LogModule.Logger.constructor` | src/logmodule.cpp:68-87 | No session is active. No call has ever been made. The session counter is 0. The log and the event list are empty, and the invariant holds. |
| `LogModule.Logger.Log` | src/logmodule.cpp:92-100 | While the file is open, appends exactly one record `(tag, value, now - sessionStart)`. Once the file is closed, nothing is written. |
| `LogModule.Logger.Start` | src/logmodule.cpp:106-133 | Sets `iteration` and `faceCount` to 0 and adds 1 to `childCount`. Sets `sessionStart` and `lastFace` (line 162) to `now`. Leaves `lastCall` unchanged. Opens a fresh empty log. No event is raised. |
| `LogModule.Logger.Tick` | src/logmodule.cpp:170-215 | One pass of the loop. If `iteration >= 1` and `faceCount >= 5`, it first appends `SE 1` and raises `EndSession(1)`. Then, in the same tick, when 5 s have passed since the last face and the last call: below 5 it appends `CS iteration+1` and raises `CallChild(1)`; below 7 it appends `PS iteration-4` and raises `CallChild(2)`; both of these set `faceCount` to 0 and `lastCall` to `now`. Otherwise it appends `SE -1` and raises `EndSession(-1)`, leaving `faceCount` and `lastCall` unchanged. If the 5 s have not passed, only the success part happens. `iteration` and `lastFace` never change. The invariant is kept. |
| `LogModule.Logger.CheckResponse` | src/logmodule.cpp:170-175 | The success check equals `Scheduler.CheckResponse` on the object's state. |
| `LogModule.Logger.CheckIdle` | src/logmodule.cpp:177-215 | The idle-timeout decision equals `Scheduler.CheckIdle` on the object's state. A call that was never made counts as idle. |
| `LogModule.Logger.RunTicks` | src/logmodule.cpp:165-224 | Running the loop over a list of tick times, with no notification in between, leaves the object in `Run` of those ticks. The session stays active and the invariant is kept. |
| `LogModule.Logger.OnFaceDetected` | src/logmodule.cpp:262-283 | Always sets `lastFace` to `now`. With at least 2 payload fields, `faceCount` rises by exactly 1 and `FD faceCount` is appended. With fewer, `faceCount` and the log are unchanged. |
| `LogModule.Logger.OnChildCalled` | src/logmodule.cpp:325-338 | Sets `lastCall` to `now`, raises `iteration` by exactly 1 and appends `CE value` while the file is open. |
| `LogModule.Logger.Stop` | src/logmodule.cpp:298-323 | The session ends. Counters, times, log and events are unchanged. |
| `Scheduler.Apply` | src/logmodule.cpp:285-338 | Delivers a notification only while its event is subscribed. StartSession is subscribed from construction (line 80), dropped at a start (line 289) and restored at a stop (line 312). Ticks run only while the thread runs. FaceDetected and EndSession are subscribed at a start (lines 123, 125) and dropped at a stop (lines 302, 311). ChildCalled is first subscribed at a start (lines 124, 295) and never dropped. Stated by `Scheduler.DeliveredSteps`. |
| `Scheduler.DeliveredSteps` | src/logmodule.cpp:285-338 | Before any session, only a start gets through. A start during a session is not delivered and changes nothing. Ticks, faces and a stop outside a session change nothing. A session opens only with a start and ends only with a stop. Outside a session nothing is written or raised: the file is closed, and a late acknowledgment's record is lost. An event once raised stays raised. |
| `Scheduler.Run` | src/logmodule.cpp:165-223 | Replays steps in order, each through `Apply`. Stated by `Scheduler.EventsStayRaised`, `SchedulerProperties.RunAppend` and the run lemmas. |
| `Scheduler.EventsStayRaised` | src/logmodule.cpp:170-215 | Over any run, every event raised so far stays raised, in the order it was raised. |
| `Scheduler.Tick` | src/logmodule.cpp:170-215 | One pass of the loop: the success check, then the idle decision in the same pass. Its effect is stated by `Scheduler.TickOutcome`. |
| `Scheduler.FaceDetected` | src/logmodule.cpp:262-283 | Stamps the last face time. With a payload of at least 2 fields, it adds 1 to the face count and writes `FD` with the new count. Its effect is stated by `LogModule.Logger.OnFaceDetected` and `Scheduler.FaceDetectedKeepsInv`. |
| `Scheduler.ChildCalled` | src/logmodule.cpp:325-338 | Stamps the last call time, adds 1 to `iteration` and writes `CE` with the payload. Stated by `LogModule.Logger.OnChildCalled`, `Scheduler.ChildCalledKeepsInv` and `SchedulerProperties.IterationCountsAcks`. |
| `Scheduler.StartSession` | src/logmodule.cpp:116-120 | The reset of a new session: an empty log, the session start and the last face time set to now (line 162), `iteration` and `faceCount` at 0, and `childCount` plus 1. Stated by `LogModule.Logger.Start`. |
| `Scheduler.StopSession` | src/logmodule.cpp:298-323 | Closes the session and changes nothing else. Stated by `LogModule.Logger.Stop` and `SchedulerProperties.NothingAfterStop`. |
| `Scheduler.Log` | src/logmodule.cpp:92-100 | Writes one record stamped with the time since the session start while the file is open; the write is lost once it is closed. Stated by `LogModule.Logger.Log` and `SchedulerProperties.ElapsedNonDecreasing`. |
| `Scheduler.TickOutcome` | src/logmodule.cpp:170-215 | The records and events of one tick, in order: the success part first, then the idle decision with its effect on `faceCount` and `lastCall`. `iteration`, `lastFace` and `sessionStart` are untouched, and the session stays active. |
| `Scheduler.TickKeepsInv` | src/logmodule.cpp:185-214 | A tick keeps the invariant. Each call record carries the current iteration, so call records stay in order. `CS` values are 1 to 5, `PS` values are 1 or 2, and every event is well formed. |
| `Scheduler.FaceDetectedKeepsInv` | src/logmodule.cpp:271-280 | A face detection keeps the invariant, and `FD` values are at least 1. |
| `Scheduler.ChildCalledKeepsInv` | src/logmodule.cpp:331-335 | An acknowledgment keeps the invariant. The `CE` count and `iteration` rise together while the file is open. |
| `Scheduler.RunKeepsInv` | src/logmodule.cpp:117-120 | Starting from the reset, or from any state that satisfies the invariant, every sequence of steps reaches a state that still satisfies it. |
| `SchedulerProperties.IterationCountsAcks` | src/logmodule.cpp:331-333 | With no start among the steps, `iteration` equals its start value plus the number of acknowledgments, once a session has ever started, and is unchanged before that. It never decreases, no other step moves it, and the session counter is unchanged. |
| `SchedulerProperties.RunIsWellFormed` | src/logmodule.cpp:170-214 | Every raised event is `CallChild(1)`, `CallChild(2)`, `EndSession(1)` or `EndSession(-1)`. Every record carries a value its tag allows. |
| `SchedulerProperties.CallsByNameComeFirst` | src/logmodule.cpp:185-207 | In a session's log, every `CS` record comes before every `PS` record. |
| `SchedulerProperties.SuccessFollowsAck` | src/logmodule.cpp:170-172 | An `SE 1` record is never written unless a `CE` record precedes it in the same log. |
| `SchedulerProperties.ElapsedNonDecreasing` | src/logmodule.cpp:92-100 | When the clock never goes backwards, the elapsed times in the log are non-negative and never decrease. |
| `SchedulerProperties.SuccessRepeatsUntilStopped` | src/logmodule.cpp:165-217 | Once the child has responded, each further tick before the stop, with no idle timeout in between, appends one more `SE 1` and raises one more `EndSession(1)`. Nothing else changes. |
| `SchedulerProperties.GiveUpKeepsSuccess` | src/logmodule.cpp:170-214 | After the last call, with the child responded and the idle timeout reached, a tick writes `SE 1` then `SE -1` and raises `EndSession(1)` then `EndSession(-1)`. It leaves the child responded and still timed out at any later time, so the next tick does the same. |
| `SchedulerProperties.NothingAfterStop` | src/logmodule.cpp:298-338 | After the stop and before a new session, the session stays closed, nothing is logged or raised, and the face count, last face time and session start are unchanged. A late acknowledgment still adds 1 to `iteration` and stamps `lastCall`, once a session has ever started; without one, `lastCall` is unchanged. |
| `SchedulerProperties.FaceCountResetsOnlyWithCall` | src/logmodule.cpp:185-207 | Outside a start, a step raises at most one call. When a call is raised, `faceCount` becomes 0. Otherwise `faceCount` stays the same or rises by 1. |
| `SchedulerProperties.RunAppend` | src/logmodule.cpp:165-223 | Replaying two stretches of steps one after the other gives the same state as replaying their concatenation. |
| `SchedulerProperties.FirstCallAcknowledged` | src/logmodule.cpp:185-196 | Session started at 0 ms: the tick at 100 ms does nothing. The tick at 5000 ms writes `CS 1` and raises `CallChild(1)`. The acknowledgment at 5200 ms writes `CE 1` and sets `iteration` to 1. This holds if the previous call lies at least 5 s back. |
| `SchedulerProperties.FiveFacesEndSession` | src/logmodule.cpp:170-175 | Five valid faces write `FD 1` to `FD 5`. The next tick writes `SE 1` and raises `EndSession(1)`. After the stop, a further tick changes nothing. |
| `SchedulerProperties.AnsweredFirstCall` | src/logmodule.cpp:160-224 | The whole answered session: the exact log `CS 1, CE 1, FD 1-5, SE 1`, with exactly one call and one `EndSession(1)` raised. |

## Left out

- Threads, the `ALMutex` critical sections, the output-file mutex, thread interruption and joining, and the 100 ms sleep. Every handler and every tick is one atomic step, and tick times are given as parameters. Interleavings inside a step are not modelled. The scheduler loop (lines 165-223) takes no lock; only the handlers hold `fCallbackMutex`. So in the source a tick can race with a handler, for example `++faceCount` at line 279 with `faceCount = 0` at lines 191 and 202, or `iteration++` at line 333 with the reads at lines 170 and 187. The model's atomic ticks assume an ordering the code does not enforce. Likewise, delivery is decided atomically in `Scheduler.Apply`. In the source, a FaceDetected callback already dispatched and waiting on `fCallbackMutex` while `onStopLogger` runs would still run after the stop, depending on how the event bus dispatches callbacks. It would stamp `lastFace`, raise `faceCount`, write to the closed file and subscribe FaceDetected again (line 282), so faces would keep arriving between sessions. The next session is unaffected, because a start resets `faceCount` and `lastFace`. But `SchedulerProperties.NothingAfterStop`'s unchanged face count and last face time hold only under the model's atomic delivery.
- One clock reading per step. The source reads the clock separately for the record stamp, the idle check and the new `lastCall`; the record stamp and the new `lastCall` of a call are separated by the record write and the `raiseEvent` call.
- The event bus (`ALMemoryProxy`). `declareEvent`, `subscribeToEvent` and `unsubscribeToEvent` appear only as the rule in `Scheduler.Apply` that decides which steps are delivered. `raiseEvent` is an append to `emitted`, and the face payload from `getData` is reduced to its number of fields. The double subscription to ChildCalled (lines 124 and 295) and failed (un)subscriptions are not modelled.
- File handling: opening and closing the file, its time-based name, and the text of a record. In particular, the elapsed time is printed as seconds via `/1000.0` in floating point; it is kept here as integer milliseconds.
- `qiLogError` diagnostics, such as the message for an invalid face payload. They do not go to the session log.
- `Impl::stopLogger` (lines 138-155). Nothing in `src/logmodule.cpp` calls it.
- The module constructor, `Logger::init` and method binding (lines 227-260).
- `LogModule.Logger.Stop`: models only "the session is no longer active". Its subscription changes are covered by the delivery rule in `Scheduler.Apply`.
- `LogModule.Logger.Start`: requires that no session is running. The source never delivers StartSession during a session, and a second start would spawn a second scheduler thread; that case is not modelled.
- `LogModule.Logger.constructor`: sets `iteration` and `faceCount` (uninitialised in the source, lines 61-62) and `lastFace` and `sessionStart` (not-a-date-time in the source, lines 48-50) to 0. None of them is read before the first start, because only StartSession is subscribed then (line 80).
- The integer width of `iteration`, `faceCount` and `childCount`. The source uses 32-bit `int`, which could only overflow after about 2^31 acknowledgments or faces in one session; the model uses unbounded integers.
- `src/uimodule.cpp`, the interaction relay that plays the sounds, changes the LEDs and echoes `CallChild` back as `ChildCalled`. It is not part of this model. Acknowledgments arrive as `CalledAt` steps with any payload.
