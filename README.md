# FirstPowerPointAddIn: detector pool and swipe gates

FirstPowerPointAddIn is a PowerPoint add-in. It turns Kinect body tracking into
slide navigation. This project models the two stateful parts of
`ThisAddIn.cs` and proves properties of them:

- **Detector-pool reconciliation.** Each body frame runs `Reader_BodyFrameArrived`.
  The first frame with data allocates the `bodies` array, and every frame with
  data refreshes it. The handler then walks body indices `0 .. BodyCount-1`.
  Each gesture detector whose `TrackingId` differs from its body's is rebound to
  the body's id, and it is paused exactly when the new id is 0. A frame that
  cannot be acquired changes nothing.
- **Swipe gates.** `Monitor_SwipeOnRight` and `Monitor_SwipeOnLeft` each test
  and set one static flag. A detected swipe while the flag is down issues one
  `Next` or `Previous` command and raises the flag. Nothing in the file lowers
  a flag again.

Layout:

- `detector_pool.dfy` (module `DetectorPool`) states the pool on values. A
  detector is the record `Detector(bodyIndex, trackingId, paused)`. `Rebind` is
  one loop step. `Reconcile` is the loop after `count` steps, defined the way
  the loop runs. `Session` applies frames in arrival order. The module also
  holds the lemmas about these functions and the startup list builder.
- `swipe_gate.dfy` (module `SwipeGate`) states one gate on values. It gives
  the flag after a call, the flag and the number of commands after any
  sequence of calls, and counts commands in a log.
- `this_addin.dfy` (module `PowerPointAddIn`) has the class `AddIn`, which
  holds the add-in's static fields. These are the `bodies` array (nullable,
  allocated lazily), the detector array, the two flags and a ghost log of
  issued commands. The constructor is the pool-building part of startup. Each
  method is proved against the value functions above. `Valid()` is the class
  invariant that every method keeps: the pool has 6 detectors with body
  indices 0..5; each detector is paused exactly when unbound; each flag is up
  exactly when its direction's single command is in the log.

Two behaviours of the code are easy to misread as something else:

- The swipe flags are not a re-arming latch. A re-arming latch would lower
  its flag on a false signal, or when a body is lost or replaced, and would
  fire twice on true, true, false, true. The code lowers the flags nowhere,
  and `Monitor_*(false)` does nothing. The model keeps the flags sticky, and
  `HeldAndRepeatedSwipeIssuesOnce` proves one command for that sequence.
- The frame loop does not walk the whole pool with 0 for missing bodies. It
  walks up to the sensor's `BodyCount` and leaves later detectors untouched
  (`SessionUntouchedBeyond`).

The code of `GestureDetector` is not part of this model. A new detector is
taken to be unbound (`TrackingId` 0) and paused, which is what the Kinect
gesture sample's constructor does. `PauseConsistent` holds from startup only
because of this.

## Model

| member | source | states |
|---|---|---|
| DetectorPool.BuildDetectorList | FirstPowerPointAddIn/ThisAddIn.cs:49-58 | Startup builds exactly `maxBodies` detectors. Entry i has body index i and starts unbound and paused. |
| DetectorPool.Rebind | FirstPowerPointAddIn/ThisAddIn.cs:199-210 | One loop step: the detector ends bound to the body's id and keeps its body index. If the ids already matched it is returned unchanged. Otherwise it is paused iff the new id is 0. |
| DetectorPool.Reconcile | FirstPowerPointAddIn/ThisAddIn.cs:196-211 | After the loop over `count` bodies, detector i < count is bound to `ids[i]` and equals `Rebind` of its old state. Detectors at i >= count are unchanged. The pool keeps its length. |
| DetectorPool.ReconcileLeavesMatching | FirstPowerPointAddIn/ThisAddIn.cs:197-211 | A detector whose id already matches, or whose index is past `count`, keeps both its id and its pause flag. |
| DetectorPool.ReconcileKeepsPauseConsistent | FirstPowerPointAddIn/ThisAddIn.cs:203-210 | If every detector was paused iff unbound before a frame, this still holds after it. |
| DetectorPool.ReconcileIdempotent | FirstPowerPointAddIn/ThisAddIn.cs:203-210 | Reconciling twice with the same snapshot gives the same pool as reconciling once. A repeated frame resets no detector. |
| DetectorPool.ReconcileUnique | FirstPowerPointAddIn/ThisAddIn.cs:196-211 | Suppose the snapshot has no repeated nonzero id among the visited bodies, and the detectors the loop does not reach are unbound (always true when it covers the whole pool). Then afterwards no two detectors share a nonzero id, and the unreached detectors are still unbound. |
| DetectorPool.FrameArrived | FirstPowerPointAddIn/ThisAddIn.cs:170-213 | The pool keeps its size. A frame that cannot be acquired leaves the pool as it was. After a frame with data, detector i < count is bound to the frame's body i. Detectors at i >= count are untouched either way, and "paused iff unbound" survives. |
| DetectorPool.Session | FirstPowerPointAddIn/ThisAddIn.cs:168-214 | Applies frames one per handler call, in arrival order. The pool keeps its size. |
| DetectorPool.SessionSnoc | FirstPowerPointAddIn/ThisAddIn.cs:168-214 | A session that ends in one more frame equals that frame applied to the pool left by the earlier frames. |
| DetectorPool.DroppedFrameIsNoOp | FirstPowerPointAddIn/ThisAddIn.cs:170-190 | Inserting a missing frame anywhere in a session does not change the resulting pool. |
| DetectorPool.SessionKeepsPauseConsistent | FirstPowerPointAddIn/ThisAddIn.cs:203-210 | Over any session, "paused iff unbound" holds after every frame if it held at the start. |
| DetectorPool.SessionUntouchedBeyond | FirstPowerPointAddIn/ThisAddIn.cs:196-197 | A detector at an index at or past the sensor's body count keeps its startup state for a whole session. |
| DetectorPool.LatestSnapshotDecides | FirstPowerPointAddIn/ThisAddIn.cs:196-205 | After a frame with data, whatever frames came before, detector i < count is bound to that frame's body i. |
| DetectorPool.SessionUnique | FirstPowerPointAddIn/ThisAddIn.cs:196-211 | Over any session whose frames have no repeated nonzero id among the visited bodies, no two detectors ever share a nonzero id. This holds if it held at the start and the detectors past the body count started unbound. |
| DetectorPool.UniqueFromStartup | FirstPowerPointAddIn/ThisAddIn.cs:49-58 | From the pool startup builds, for any sensor body count, a session of such frames never binds two detectors to the same body. |
| SwipeGate.FlagAfter | FirstPowerPointAddIn/ThisAddIn.cs:133-140 | After one call the flag is `old flag || mode`. It rises only on a call that fires, and otherwise it is unchanged. |
| SwipeGate.FlagAfterAll | FirstPowerPointAddIn/ThisAddIn.cs:133-149 | After any sequence of calls, the flag is up iff it started up or some call reported a swipe. It is never lowered. |
| SwipeGate.Issued | FirstPowerPointAddIn/ThisAddIn.cs:133-149 | Any sequence of calls issues at most one command. It issues exactly one iff the flag started down and some call reported a swipe, so a raised flag issues none. |
| SwipeGate.HeldAndRepeatedSwipeIssuesOnce | FirstPowerPointAddIn/ThisAddIn.cs:135-138 | Signals true, true, false, true from a down flag issue exactly one command and leave the flag up. |
| PowerPointAddIn.AddIn.constructor | FirstPowerPointAddIn/ThisAddIn.cs:30-58 | Startup: both flags are down and there is no body array yet. The pool is fresh and equals `StartupPool()`: 6 detectors, where detector i has body index i and is unbound and paused. The class invariant holds. |
| PowerPointAddIn.AddIn.RefreshBodyData | FirstPowerPointAddIn/ThisAddIn.cs:185 | The body array's contents become the frame's tracking ids. |
| PowerPointAddIn.AddIn.BodyFrameArrived | FirstPowerPointAddIn/ThisAddIn.cs:168-214 | `dataReceived` is true iff a frame was acquired. With no frame, the body array and its contents are unchanged. With a frame, a missing body array is freshly allocated and an existing one is reused, and the array then holds the frame's ids. In both cases the pool equals `FrameArrived` of the old pool, so the `Session` lemmas apply to repeated calls. The class invariant holds. |
| PowerPointAddIn.AddIn.MonitorSwipeOnRight | FirstPowerPointAddIn/ThisAddIn.cs:133-140 | The flag becomes `FlagAfter(old flag, mode)`. `Next` is appended to the log exactly when the call fires. The left flag and the pool are untouched, and the class invariant holds. |
| PowerPointAddIn.AddIn.MonitorSwipeOnLeft | FirstPowerPointAddIn/ThisAddIn.cs:142-149 | The same as the right monitor, with `Previous` and the left flag. |
| PowerPointAddIn.AddIn.LogIsShort | FirstPowerPointAddIn/ThisAddIn.cs:30-31 | However the monitors are called, the log holds at most one command per direction and at most two in all. |

## Left out

- Kinect sensor acquisition: `KinectSensor.GetDefault`, `Open`, opening the reader and subscribing to events in `ThisAddIn_Startup`. Also left out are `ThisAddIn_Shutdown`, `InternalStartup` and `Sensor_IsAvailableChanged`. These are device I/O and callback wiring.
- `ExecuteOnSlideShow` and `GetSlideShowView`: PowerPoint COM interop that swallows exceptions. An issued command is appended to the ghost log. Whether the slide show then acts on it is not modelled.
- `Application_PresentationNewSlide`: inserts a text box through Office interop.
- The internals of `GestureDetector` and `GestureResultView`, including the float confidence: that code is not part of this model. A detector is reduced to its body index, `TrackingId` and `IsPaused`. A new detector is taken to be unbound and paused.
- Callers of `Monitor_SwipeOnRight` and `Monitor_SwipeOnLeft`: not part of this model. The flags are public, and code outside this file could lower them. The model covers only what this file does.
- Threading of the frame callback: one frame is one sequential method call.
- Body objects are reduced to their `TrackingId`, and `AcquireFrame` is reduced to an optional sequence of ids.
- The sensor's `BodyCount` is a method parameter. `BodyFrameArrived` requires it to be at most the pool size (6) and at most the frame's body count, because the loop indexes both `bodies[i]` and the detector list. It also requires an existing body array to have one entry per body of the frame, as the sensor's refresh call demands.
- The `using` disposal of the frame is not modelled.
