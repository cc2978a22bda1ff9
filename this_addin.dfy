/** The add-in's process-wide state: the lazily allocated array of body
    tracking ids, the fixed pool of gesture detectors, and the two swipe flags.
    The commands sent to the slide show are recorded in a ghost log. */
module PowerPointAddIn {
  import opened DetectorPool
  import opened SwipeGate

  class AddIn {
    /** The tracking ids of the bodies of the latest frame; null until the
        first frame with data arrives. */
    var bodies: array?<TrackingId>
    /** The gesture detector list, built once at startup. */
    const detectors: array<Detector>
    var swipeOnRight: bool
    var swipeOnLeft: bool
    /** Every navigation command issued, in order. */
    ghost var log: seq<Command>

    /** The pool keeps its startup size and body indices, every detector is
        paused exactly when unbound, and each direction's flag is up exactly
        when that direction's one command has been issued. */
    ghost predicate Valid()
      reads this, detectors
    {
      && detectors.Length == MaxBodies
      && (forall i :: 0 <= i < detectors.Length ==> detectors[i].bodyIndex == i)
      && PauseConsistent(detectors[..])
      && CountOf(log, Next) == (if swipeOnRight then 1 else 0)
      && CountOf(log, Previous) == (if swipeOnLeft then 1 else 0)
    }

    /** Startup: both flags down, no body array yet, and one new detector per
        body index 0 .. MaxBodies-1. */
    constructor ()
      ensures Valid() && fresh(detectors)
      ensures bodies == null && !swipeOnRight && !swipeOnLeft && log == []
      ensures forall i :: 0 <= i < detectors.Length ==> detectors[i] == NewDetector(i)
      ensures detectors[..] == StartupPool()
    {
      var list := BuildDetectorList(MaxBodies);
      detectors := new Detector[MaxBodies](i requires 0 <= i < MaxBodies => list[i]);
      bodies := null;
      swipeOnRight, swipeOnLeft := false, false;
      log := [];
      new;
      assert forall i :: 0 <= i < MaxBodies ==> detectors[..][i] == NewDetector(i);
    }

    /** The sensor's refresh of the body array from a frame: every entry takes
        the tracking id of the frame's body at that index. The array must have
        one entry per body of the frame. */
    method RefreshBodyData(ids: seq<TrackingId>)
      requires bodies != null && bodies.Length == |ids|
      modifies bodies
      ensures bodies[..] == ids
    {
      forall k | 0 <= k < bodies.Length {
        bodies[k] := ids[k];
      }
    }

    /** One body frame. `frame` is None when no frame could be acquired;
        `sensorBodyCount` is the sensor's body count, which bounds the loop.
        A frame with data allocates the body array if there is none yet,
        refreshes it, and rebinds every detector below the body count whose
        id differs from its body's. */
    method BodyFrameArrived(frame: Option<seq<TrackingId>>, sensorBodyCount: nat) returns (dataReceived: bool)
      requires Valid()
      requires frame.Some? && bodies != null ==> bodies.Length == |frame.value|
      requires frame.Some? ==> sensorBodyCount <= detectors.Length && sensorBodyCount <= |frame.value|
      modifies this`bodies, bodies, detectors
      ensures Valid()
      ensures dataReceived == frame.Some?
      ensures frame.None? ==> bodies == old(bodies)
      ensures frame.None? && bodies != null ==> bodies[..] == old(bodies[..])
      ensures old(bodies) != null ==> bodies == old(bodies)
      ensures frame.Some? && old(bodies) == null ==> fresh(bodies)
      ensures frame.Some? ==> bodies != null && bodies[..] == frame.value
      ensures detectors[..] == FrameArrived(old(detectors[..]), frame, sensorBodyCount)
    {
      dataReceived := false;
      if frame.Some? {
        if bodies == null {
          bodies := new TrackingId[|frame.value|];
        }
        RefreshBodyData(frame.value);
        dataReceived := true;
      }
      if dataReceived {
        if bodies != null {
          var i := 0;
          while i < sensorBodyCount
            modifies detectors
            invariant 0 <= i <= sensorBodyCount
            invariant bodies[..] == frame.value
            invariant detectors[..] == Reconcile(old(detectors[..]), bodies[..], i)
          {
            var trackingId := bodies[i];
            if trackingId != detectors[i].trackingId {
              detectors[i] := detectors[i].(trackingId := trackingId, paused := trackingId == 0);
            }
            i := i + 1;
          }
          ReconcileKeepsPauseConsistent(old(detectors[..]), frame.value, sensorBodyCount);
        }
      }
    }

    /** A right swipe signal: issues `Next` and raises the flag when a swipe
        is detected while the flag is down; otherwise does nothing. */
    method MonitorSwipeOnRight(mode: bool)
      requires Valid()
      modifies this`swipeOnRight, this`log
      ensures Valid()
      ensures swipeOnRight == FlagAfter(old(swipeOnRight), mode)
      ensures log == old(log) + (if Fires(old(swipeOnRight), mode) then [Next] else [])
    {
      if !swipeOnRight && mode {
        log := log + [Next];
        swipeOnRight := true;
      }
    }

    /** A left swipe signal: issues `Previous` and raises the flag when a
        swipe is detected while the flag is down; otherwise does nothing. */
    method MonitorSwipeOnLeft(mode: bool)
      requires Valid()
      modifies this`swipeOnLeft, this`log
      ensures Valid()
      ensures swipeOnLeft == FlagAfter(old(swipeOnLeft), mode)
      ensures log == old(log) + (if Fires(old(swipeOnLeft), mode) then [Previous] else [])
    {
      if !swipeOnLeft && mode {
        log := log + [Previous];
        swipeOnLeft := true;
      }
    }

    /** However the monitors have been called, the log holds at most one
        command per direction and so at most two commands. */
    lemma LogIsShort()
      requires Valid()
      ensures CountOf(log, Next) <= 1 && CountOf(log, Previous) <= 1
      ensures |log| <= 2
    {
      LogSize(log);
    }
  }
}
