/** The pool of gesture detectors kept by the add-in, one per body the sensor
    can track, and the per-frame reconciliation of that pool against the
    sensor's body snapshot, stated on values. The class in this_addin.dfy runs
    the same reconciliation in place and is proved against these functions. */
module DetectorPool {

  /** A body's tracking id: an unsigned 64-bit value; 0 means "no body". */
  type TrackingId = x: int | 0 <= x < 0x1_0000_0000_0000_0000

  /** A value that may be absent: a body frame that could not be acquired. */
  datatype Option<+T> = None | Some(value: T)

  /** The number of detectors built at startup (the sensor tracks up to 6 people). */
  const MaxBodies: nat := 6

  /** What the add-in sees of one gesture detector: the body index of its
      result view, the tracking id it is bound to and whether it is paused. */
  datatype Detector = Detector(bodyIndex: nat, trackingId: TrackingId, paused: bool)

  /** A detector as startup creates it: not bound to a body, and paused. */
  function NewDetector(bodyIndex: nat): Detector
  {
    Detector(bodyIndex, 0, true)
  }

  /** The pool as startup leaves it: one new detector per body index. */
  function StartupPool(): seq<Detector>
  {
    seq(MaxBodies, i requires 0 <= i => NewDetector(i))
  }

  /** Every detector is paused exactly when it is bound to no body. */
  predicate PauseConsistent(pool: seq<Detector>)
  {
    forall i :: 0 <= i < |pool| ==> pool[i].paused == (pool[i].trackingId == 0)
  }

  /** No two detectors are bound to the same body. */
  predicate UniqueBindings(pool: seq<Detector>)
  {
    forall i, j :: 0 <= i < j < |pool| && pool[i].trackingId != 0 ==> pool[i].trackingId != pool[j].trackingId
  }

  /** No nonzero id occurs twice among the first `count` ids of a snapshot. */
  predicate UniqueIds(ids: seq<TrackingId>, count: nat)
    requires count <= |ids|
  {
    forall i, j :: 0 <= i < j < count && ids[i] != 0 ==> ids[i] != ids[j]
  }

  /** Startup: one new detector per body index 0 .. maxBodies-1, appended to
      an initially empty list. */
  method BuildDetectorList(maxBodies: nat) returns (list: seq<Detector>)
    ensures |list| == maxBodies
    ensures forall i :: 0 <= i < maxBodies ==> list[i].bodyIndex == i
    ensures forall i :: 0 <= i < maxBodies ==> list[i].trackingId == 0 && list[i].paused
  {
    list := [];
    var i := 0;
    while i < maxBodies
      invariant 0 <= i <= maxBodies
      invariant |list| == i
      invariant forall k :: 0 <= k < i ==> list[k] == NewDetector(k)
    {
      list := list + [NewDetector(i)];
      i := i + 1;
    }
  }

  /** One step of the frame loop for one detector: when the body's id differs
      from the detector's, the detector is rebound to it and paused exactly
      when the new id is 0; otherwise the detector is left as it is. */
  function Rebind(d: Detector, id: TrackingId): (r: Detector)
    ensures r.bodyIndex == d.bodyIndex && r.trackingId == id
    ensures d.trackingId == id ==> r == d
    ensures d.trackingId != id ==> r.paused == (id == 0)
  {
    if id != d.trackingId then d.(trackingId := id, paused := id == 0) else d
  }

  /** The pool after the frame loop has visited body indices 0 .. count-1 of
      the snapshot `ids`. The loop indexes both the snapshot and the pool, so
      `count` may exceed neither. */
  function Reconcile(pool: seq<Detector>, ids: seq<TrackingId>, count: nat): (r: seq<Detector>)
    requires count <= |pool| && count <= |ids|
    ensures |r| == |pool|
    ensures forall i :: 0 <= i < count ==> r[i].trackingId == ids[i]
    ensures forall i :: 0 <= i < count ==> r[i] == Rebind(pool[i], ids[i])
    ensures forall i :: count <= i < |pool| ==> r[i] == pool[i]
    decreases count
  {
    if count == 0 then pool
    else Reconcile(pool, ids, count - 1)[count - 1 := Rebind(pool[count - 1], ids[count - 1])]
  }

  /** A detector whose id already matches its body keeps its id and its pause
      flag; detectors past `count` are not touched at all. */
  lemma ReconcileLeavesMatching(pool: seq<Detector>, ids: seq<TrackingId>, count: nat, i: nat)
    requires count <= |pool| && count <= |ids| && i < |pool|
    requires i < count ==> pool[i].trackingId == ids[i]
    ensures Reconcile(pool, ids, count)[i] == pool[i]
  {
  }

  /** If every detector was paused exactly when unbound before the frame, the
      same holds after it. */
  lemma ReconcileKeepsPauseConsistent(pool: seq<Detector>, ids: seq<TrackingId>, count: nat)
    requires count <= |pool| && count <= |ids|
    requires PauseConsistent(pool)
    ensures PauseConsistent(Reconcile(pool, ids, count))
  {
  }

  /** Reconciling against the same snapshot a second time changes nothing, so
      a detector's state is not reset by a frame that brings no change. */
  lemma ReconcileIdempotent(pool: seq<Detector>, ids: seq<TrackingId>, count: nat)
    requires count <= |pool| && count <= |ids|
    ensures Reconcile(Reconcile(pool, ids, count), ids, count) == Reconcile(pool, ids, count)
  {
  }

  /** Detectors at `count` and beyond are all unbound. */
  predicate UnboundBeyond(pool: seq<Detector>, count: nat)
  {
    forall i :: count <= i < |pool| ==> pool[i].trackingId == 0
  }

  /** When the snapshot holds no nonzero id twice among the bodies the loop
      visits, and the detectors the loop does not reach are unbound (always
      so when the loop covers the whole pool), no two detectors end up bound
      to the same body. */
  lemma ReconcileUnique(pool: seq<Detector>, ids: seq<TrackingId>, count: nat)
    requires count <= |pool| && count <= |ids|
    requires UniqueIds(ids, count)
    requires UnboundBeyond(pool, count)
    ensures UniqueBindings(Reconcile(pool, ids, count))
    ensures UnboundBeyond(Reconcile(pool, ids, count), count)
  {
  }

  /** A frame's effect on the pool: none when no frame could be acquired;
      otherwise the first `count` detectors take the frame's ids, the rest are
      untouched, and "paused iff unbound" survives. */
  function FrameArrived(pool: seq<Detector>, frame: Option<seq<TrackingId>>, count: nat): (r: seq<Detector>)
    requires frame.Some? ==> count <= |pool| && count <= |frame.value|
    ensures |r| == |pool|
    ensures frame.None? ==> r == pool
    ensures frame.Some? ==> forall i :: 0 <= i < count ==> r[i].trackingId == frame.value[i]
    ensures forall i :: count <= i < |pool| ==> r[i] == pool[i]
    ensures PauseConsistent(pool) ==> PauseConsistent(r)
  {
    match frame
    case None => pool
    case Some(ids) => Reconcile(pool, ids, count)
  }

  /** Every frame of a session that carries data can be looped over `count`
      times against a pool of `poolSize` detectors. */
  predicate SessionFits(poolSize: nat, frames: seq<Option<seq<TrackingId>>>, count: nat)
  {
    forall k :: 0 <= k < |frames| ==> (frames[k].Some? ==> count <= poolSize && count <= |frames[k].value|)
  }

  /** The pool after a sequence of frames, processed in arrival order. */
  function Session(pool: seq<Detector>, frames: seq<Option<seq<TrackingId>>>, count: nat): (r: seq<Detector>)
    requires SessionFits(|pool|, frames, count)
    ensures |r| == |pool|
    decreases |frames|
  {
    if frames == [] then pool
    else
      assert frames[0].Some? ==> count <= |pool| && count <= |frames[0].value|;
      Session(FrameArrived(pool, frames[0], count), frames[1..], count)
  }

  /** A session ending in one more frame is that frame applied to the pool the
      rest of the session left. */
  lemma {:induction false} SessionSnoc(pool: seq<Detector>, frames: seq<Option<seq<TrackingId>>>, last: Option<seq<TrackingId>>, count: nat)
    requires SessionFits(|pool|, frames + [last], count)
    ensures SessionFits(|pool|, frames, count)
    ensures last.Some? ==> count <= |pool| && count <= |last.value|
    ensures Session(pool, frames + [last], count) == FrameArrived(Session(pool, frames, count), last, count)
    decreases |frames|
  {
    assert forall k :: 0 <= k < |frames| ==> frames[k] == (frames + [last])[k];
    assert last == (frames + [last])[|frames|];
    if frames != [] {
      var next := FrameArrived(pool, frames[0], count);
      assert (frames + [last])[1..] == frames[1..] + [last];
      assert forall k :: 0 <= k < |frames| - 1 ==> frames[1..][k] == frames[k + 1];
      SessionSnoc(next, frames[1..], last, count);
    }
  }

  /** A missing frame anywhere in a session changes nothing: the session
      without it leaves the same pool. */
  lemma {:induction false} DroppedFrameIsNoOp(pool: seq<Detector>, before: seq<Option<seq<TrackingId>>>, after: seq<Option<seq<TrackingId>>>, count: nat)
    requires SessionFits(|pool|, before + after, count)
    ensures SessionFits(|pool|, before + [None] + after, count)
    ensures Session(pool, before + [None] + after, count) == Session(pool, before + after, count)
    decreases |before|
  {
    var with := before + [None] + after;
    var without := before + after;
    forall k | 0 <= k < |with|
      ensures with[k].Some? ==> count <= |pool| && count <= |with[k].value|
    {
      if k < |before| {
        assert with[k] == without[k];
      } else if k > |before| {
        assert with[k] == without[k - 1];
      }
    }
    if before == [] {
      assert with == [None] + after && without == after;
      assert with[0] == None && with[1..] == after;
    } else {
      assert with[0] == without[0] == before[0];
      assert before[0].Some? ==> count <= |pool| && count <= |before[0].value|;
      var next := FrameArrived(pool, before[0], count);
      assert with[1..] == before[1..] + [None] + after;
      assert without[1..] == before[1..] + after;
      assert forall k :: 0 <= k < |without| - 1 ==> without[1..][k] == without[k + 1];
      DroppedFrameIsNoOp(next, before[1..], after, count);
    }
  }

  /** Over a whole session, if detectors start paused exactly when unbound
      (as startup leaves them), they stay so after every frame. */
  lemma {:induction false} SessionKeepsPauseConsistent(pool: seq<Detector>, frames: seq<Option<seq<TrackingId>>>, count: nat)
    requires SessionFits(|pool|, frames, count)
    requires PauseConsistent(pool)
    ensures PauseConsistent(Session(pool, frames, count))
    decreases |frames|
  {
    if frames != [] {
      assert frames[0].Some? ==> count <= |pool| && count <= |frames[0].value|;
      var next := FrameArrived(pool, frames[0], count);
      if frames[0].Some? {
        ReconcileKeepsPauseConsistent(pool, frames[0].value, count);
      }
      assert forall k :: 0 <= k < |frames| - 1 ==> frames[1..][k] == frames[k + 1];
      SessionKeepsPauseConsistent(next, frames[1..], count);
    }
  }

  /** Detectors past `count` keep their startup state for a whole session. */
  lemma {:induction false} SessionUntouchedBeyond(pool: seq<Detector>, frames: seq<Option<seq<TrackingId>>>, count: nat, i: nat)
    requires SessionFits(|pool|, frames, count)
    requires count <= i < |pool|
    ensures Session(pool, frames, count)[i] == pool[i]
    decreases |frames|
  {
    if frames != [] {
      assert frames[0].Some? ==> count <= |pool| && count <= |frames[0].value|;
      var next := FrameArrived(pool, frames[0], count);
      assert forall k :: 0 <= k < |frames| - 1 ==> frames[1..][k] == frames[k + 1];
      SessionUntouchedBeyond(next, frames[1..], count, i);
    }
  }

  /** After a frame with data, whatever came before, the first `count`
      detectors are bound to exactly the bodies of that frame. */
  lemma LatestSnapshotDecides(pool: seq<Detector>, frames: seq<Option<seq<TrackingId>>>, ids: seq<TrackingId>, count: nat)
    requires SessionFits(|pool|, frames + [Some(ids)], count)
    ensures count <= |pool| && count <= |ids|
    ensures forall i :: 0 <= i < count ==> Session(pool, frames + [Some(ids)], count)[i].trackingId == ids[i]
  {
    SessionSnoc(pool, frames, Some(ids), count);
  }

  /** Every frame with data visits distinct nonzero ids. */
  predicate FramesUnique(frames: seq<Option<seq<TrackingId>>>, count: nat)
  {
    forall k :: 0 <= k < |frames| && frames[k].Some? ==> count <= |frames[k].value| && UniqueIds(frames[k].value, count)
  }

  /** Over a whole session of frames with distinct nonzero ids, no two
      detectors are ever bound to the same body, provided the detectors the
      loop never reaches are unbound. */
  lemma {:induction false} SessionUnique(pool: seq<Detector>, frames: seq<Option<seq<TrackingId>>>, count: nat)
    requires SessionFits(|pool|, frames, count)
    requires FramesUnique(frames, count)
    requires UniqueBindings(pool) && UnboundBeyond(pool, count)
    ensures UniqueBindings(Session(pool, frames, count))
    decreases |frames|
  {
    if frames != [] {
      assert frames[0].Some? ==> count <= |pool| && count <= |frames[0].value| && UniqueIds(frames[0].value, count);
      var next := FrameArrived(pool, frames[0], count);
      if frames[0].Some? {
        ReconcileUnique(pool, frames[0].value, count);
      }
      assert forall k :: 0 <= k < |frames| - 1 ==> frames[1..][k] == frames[k + 1];
      SessionUnique(next, frames[1..], count);
    }
  }

  /** From the pool startup builds, whatever the sensor's body count, a
      session of frames with distinct nonzero ids never binds two detectors
      to the same body. */
  lemma UniqueFromStartup(frames: seq<Option<seq<TrackingId>>>, count: nat)
    requires SessionFits(MaxBodies, frames, count)
    requires FramesUnique(frames, count)
    ensures UniqueBindings(Session(StartupPool(), frames, count))
  {
    SessionUnique(StartupPool(), frames, count);
  }
}
