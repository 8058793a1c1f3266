/** The capture loop behind the video feed: read a frame, decide whether
    any fire-coloured contour is large enough, drive the alarm latch, and
    emit the encoded frame as one multipart part. The vision library's
    results and the clock are inputs. */
module Stream {
  import opened Multipart
  import opened FireAlarm

  /** A contour area must exceed this many pixels to count as fire. */
  const AreaThreshold: real := 1000.0

  /** One call of the camera's `read`, with what the rest of the iteration
      would observe: the areas of the mask's external contours, the encoded
      frame, and the clock readings taken by `trigger` and by `update`. */
  datatype CameraRead =
    | ReadFailed
    | Captured(areas: seq<real>, jpeg: seq<byte>, triggerAt: real, updateAt: real)

  /** Some contour is strictly larger than the threshold. */
  predicate FireDetected(areas: seq<real>)
  {
    exists i :: 0 <= i < |areas| && areas[i] > AreaThreshold
  }

  /** The scan over the contours that sets `fire_detected`. */
  method DetectFire(areas: seq<real>) returns (fireDetected: bool)
    ensures fireDetected <==> exists i :: 0 <= i < |areas| && areas[i] > AreaThreshold
  {
    fireDetected := false;
    for k := 0 to |areas|
      invariant fireDetected <==> exists i :: 0 <= i < k && areas[i] > AreaThreshold
    {
      if areas[k] > AreaThreshold {
        fireDetected := true;
      }
    }
  }

  /** A contour of exactly the threshold area is not fire; one just above is. */
  lemma ThresholdIsStrict()
    ensures !FireDetected([AreaThreshold])
    ensures FireDetected([AreaThreshold + 0.5])
  {
    assert [AreaThreshold + 0.5][0] > AreaThreshold;
  }

  /** The latch after one captured frame: `trigger` when fire is seen, then
      `update` in every case. */
  function Step(s: AlarmState, areas: seq<real>, triggerAt: real, updateAt: real): (r: AlarmState)
    ensures r.lastDetected == if FireDetected(areas) then triggerAt else s.lastDetected
    ensures r.active <==> (FireDetected(areas) || s.active) && updateAt - r.lastDetected <= DebounceSeconds
  {
    Updated(if FireDetected(areas) then Triggered(triggerAt) else s, updateAt)
  }

  /** A frame with fire, updated within the debounce window of its trigger,
      leaves the alarm latched at the trigger time; a later update clears it. */
  lemma DetectionFrameLatches(s: AlarmState, areas: seq<real>, triggerAt: real, updateAt: real)
    requires FireDetected(areas)
    ensures Step(s, areas, triggerAt, updateAt).lastDetected == triggerAt
    ensures Step(s, areas, triggerAt, updateAt).active <==> updateAt - triggerAt <= DebounceSeconds
  {
  }

  /** A frame without fire only ever clears the alarm. */
  lemma QuietFrameNeverRaises(s: AlarmState, areas: seq<real>, triggerAt: real, updateAt: real)
    requires !FireDetected(areas)
    ensures Step(s, areas, triggerAt, updateAt).active ==> s.active
    ensures Step(s, areas, triggerAt, updateAt).lastDetected == s.lastDetected
  {
  }

  /** How many frames succeed before the first failed one. */
  function CapturedPrefix(frames: seq<CameraRead>): (n: nat)
    ensures n <= |frames|
    ensures forall i :: 0 <= i < n ==> frames[i].Captured?
    ensures n < |frames| ==> frames[n].ReadFailed?
  {
    if frames == [] || frames[0].ReadFailed? then 0 else 1 + CapturedPrefix(frames[1..])
  }

  /** The parts the generator yields: one per read up to the first failure. */
  function Emitted(frames: seq<CameraRead>): (parts: seq<seq<byte>>)
    ensures |parts| == CapturedPrefix(frames)
  {
    if frames == [] || frames[0].ReadFailed? then []
    else [Part(frames[0].jpeg)] + Emitted(frames[1..])
  }

  /** The latch once the generator has stopped. It is on only if it was on
      at the start or some processed frame saw fire, and its detection time
      is the starting one or the trigger reading of such a frame. */
  function Run(s: AlarmState, frames: seq<CameraRead>): (r: AlarmState)
    ensures r.active ==> s.active || exists i :: 0 <= i < CapturedPrefix(frames) && FireDetected(frames[i].areas)
    ensures r.lastDetected == s.lastDetected ||
      exists i :: 0 <= i < CapturedPrefix(frames) && FireDetected(frames[i].areas) && r.lastDetected == frames[i].triggerAt
    decreases |frames|
  {
    if frames == [] || frames[0].ReadFailed? then s
    else
      var r := frames[0];
      Run(Step(s, r.areas, r.triggerAt, r.updateAt), frames[1..])
  }

  /** The latch after each frame that is processed. */
  function Trace(s: AlarmState, frames: seq<CameraRead>): (t: seq<AlarmState>)
    ensures |t| == CapturedPrefix(frames)
    decreases |frames|
  {
    if frames == [] || frames[0].ReadFailed? then []
    else
      var r := frames[0];
      var s' := Step(s, r.areas, r.triggerAt, r.updateAt);
      [s'] + Trace(s', frames[1..])
  }

  /** One part per successful read before the first failure, the i-th
      carrying the i-th encoded frame. */
  lemma {:induction false} EmittedOnePartPerFrame(frames: seq<CameraRead>)
    ensures |Emitted(frames)| == CapturedPrefix(frames)
    ensures forall i :: 0 <= i < CapturedPrefix(frames) ==>
      Emitted(frames)[i] == Part(frames[i].jpeg) && |Emitted(frames)[i]| == |frames[i].jpeg| + PartOverhead
  {
    if frames != [] && frames[0].Captured? {
      EmittedOnePartPerFrame(frames[1..]);
      forall i | 0 < i < CapturedPrefix(frames)
        ensures Emitted(frames)[i] == Part(frames[i].jpeg)
      {
        assert frames[1..][i - 1] == frames[i];
      }
    }
  }

  /** Whatever follows the first failed read is never looked at. */
  lemma {:induction false} FailureEndsStream(s: AlarmState, before: seq<CameraRead>, after: seq<CameraRead>)
    ensures Emitted(before + [ReadFailed] + after) == Emitted(before + [ReadFailed])
    ensures Run(s, before + [ReadFailed] + after) == Run(s, before + [ReadFailed])
    ensures Trace(s, before + [ReadFailed] + after) == Trace(s, before + [ReadFailed])
    decreases |before|
  {
    if before != [] {
      assert (before + [ReadFailed] + after)[1..] == before[1..] + [ReadFailed] + after;
      assert (before + [ReadFailed])[1..] == before[1..] + [ReadFailed];
      if before[0].Captured? {
        var r := before[0];
        FailureEndsStream(Step(s, r.areas, r.triggerAt, r.updateAt), before[1..], after);
      }
    }
  }

  /** The final latch is the state after the last processed frame. */
  lemma {:induction false} RunIsLastOfTrace(s: AlarmState, frames: seq<CameraRead>)
    ensures Run(s, frames) == if Trace(s, frames) == [] then s else Trace(s, frames)[|Trace(s, frames)| - 1]
    decreases |frames|
  {
    if frames != [] && frames[0].Captured? {
      var r := frames[0];
      RunIsLastOfTrace(Step(s, r.areas, r.triggerAt, r.updateAt), frames[1..]);
    }
  }

  /** No read before index `n` reports fire. */
  predicate Quiet(frames: seq<CameraRead>, n: nat)
    requires n <= |frames|
  {
    forall i :: 0 <= i < n ==> frames[i].Captured? && !FireDetected(frames[i].areas)
  }

  /** The update clock never runs backwards over the first `n` frames. */
  predicate UpdatesOrdered(frames: seq<CameraRead>, n: nat)
    requires n <= |frames| && forall i :: 0 <= i < n ==> frames[i].Captured?
  {
    forall i, j :: 0 <= i < j < n ==> frames[i].updateAt <= frames[j].updateAt
  }

  /** Debounce without flicker: after the last detection, with no further
      fire and a non-decreasing clock, the alarm stays on for every update at
      most `DebounceSeconds` after that detection and is off for every later
      one; the detection time is kept throughout. */
  lemma {:induction false} DebounceAfterLastDetection(s: AlarmState, frames: seq<CameraRead>)
    requires s.active
    requires Quiet(frames, |frames|)
    requires UpdatesOrdered(frames, |frames|)
    ensures |Trace(s, frames)| == |frames|
    ensures forall i :: 0 <= i < |frames| ==>
      Trace(s, frames)[i].lastDetected == s.lastDetected &&
      (Trace(s, frames)[i].active <==> frames[i].updateAt - s.lastDetected <= DebounceSeconds)
  {
    if frames != [] {
      var r := frames[0];
      var s' := Step(s, r.areas, r.triggerAt, r.updateAt);
      var rest := frames[1..];
      assert forall i :: 0 <= i < |rest| ==> rest[i] == frames[i + 1];
      if s'.active {
        DebounceAfterLastDetection(s', rest);
      } else {
        StaysClearWithoutDetection(s', rest);
        forall i | 0 < i < |frames|
          ensures Trace(s, frames)[i].lastDetected == s.lastDetected
          ensures !Trace(s, frames)[i].active
          ensures frames[i].updateAt - s.lastDetected > DebounceSeconds
        {
          assert Trace(s, frames)[i] == Trace(s', rest)[i - 1];
          assert frames[0].updateAt <= frames[i].updateAt;
        }
      }
    }
  }

  /** The same, counted from the frame of the last detection itself: its
      trigger reading `t0` decides, for that frame and every quiet frame
      after it, whether the alarm is on (update at most `DebounceSeconds`
      after `t0`) or off (any later update). */
  lemma {:induction false} DebounceFromDetection(s: AlarmState, frames: seq<CameraRead>)
    requires |frames| > 0 && frames[0].Captured? && FireDetected(frames[0].areas)
    requires Quiet(frames[1..], |frames| - 1)
    requires UpdatesOrdered(frames, |frames|)
    ensures |Trace(s, frames)| == |frames|
    ensures forall i :: 0 <= i < |frames| ==>
      Trace(s, frames)[i].lastDetected == frames[0].triggerAt &&
      (Trace(s, frames)[i].active <==> frames[i].updateAt - frames[0].triggerAt <= DebounceSeconds)
  {
    var r := frames[0];
    var s' := Step(s, r.areas, r.triggerAt, r.updateAt);
    var rest := frames[1..];
    assert forall i :: 0 <= i < |rest| ==> rest[i] == frames[i + 1];
    assert Trace(s, frames) == [s'] + Trace(s', rest);
    if s'.active {
      DebounceAfterLastDetection(s', rest);
    } else {
      StaysClearWithoutDetection(s', rest);
      forall i | 0 < i < |frames|
        ensures !Trace(s, frames)[i].active
        ensures frames[i].updateAt - r.triggerAt > DebounceSeconds
      {
        assert Trace(s, frames)[i] == Trace(s', rest)[i - 1];
        assert frames[0].updateAt <= frames[i].updateAt;
      }
    }
  }

  /** Once clear, the alarm stays clear until a frame reports fire; the
      detection time does not move either. */
  lemma {:induction false} StaysClearWithoutDetection(s: AlarmState, frames: seq<CameraRead>)
    requires !s.active
    requires Quiet(frames, |frames|)
    ensures |Trace(s, frames)| == |frames|
    ensures forall i :: 0 <= i < |frames| ==>
      !Trace(s, frames)[i].active && Trace(s, frames)[i].lastDetected == s.lastDetected
  {
    if frames != [] {
      var r := frames[0];
      var rest := frames[1..];
      assert forall i :: 0 <= i < |rest| ==> rest[i] == frames[i + 1];
      StaysClearWithoutDetection(Step(s, r.areas, r.triggerAt, r.updateAt), rest);
    }
  }

  /** The update readings of the frames processed, from `prev` on, never
      run backwards. */
  predicate ClockFrom(prev: real, frames: seq<CameraRead>)
    decreases |frames|
  {
    frames == [] || frames[0].ReadFailed? ||
    (prev <= frames[0].updateAt && ClockFrom(frames[0].updateAt, frames[1..]))
  }

  /** With a clock that never runs backwards, every processed frame leaves
      the latch coherent at its own update time: on exactly when the last
      detection is at most `DebounceSeconds` old. */
  lemma {:induction false} CoherentAfterEveryFrame(s: AlarmState, prev: real, frames: seq<CameraRead>)
    requires Coherent(s, prev)
    requires ClockFrom(prev, frames)
    decreases |frames|
    ensures forall i :: 0 <= i < |Trace(s, frames)| ==> Coherent(Trace(s, frames)[i], frames[i].updateAt)
  {
    if frames != [] && frames[0].Captured? {
      var r := frames[0];
      var s' := Step(s, r.areas, r.triggerAt, r.updateAt);
      assert Coherent(s', r.updateAt);
      CoherentAfterEveryFrame(s', r.updateAt, frames[1..]);
      forall i | 0 < i < |Trace(s, frames)|
        ensures Coherent(Trace(s, frames)[i], frames[i].updateAt)
      {
        assert Trace(s, frames)[i] == Trace(s', frames[1..])[i - 1];
        assert frames[1..][i - 1] == frames[i];
      }
    }
  }

  /** One captured frame at index `i` yields its part and advances the latch
      by one `Step`. */
  lemma CapturedFrameUnfolds(s: AlarmState, frames: seq<CameraRead>, i: nat)
    requires i < |frames| && frames[i].Captured?
    ensures Emitted(frames[i..]) == [Part(frames[i].jpeg)] + Emitted(frames[i + 1..])
    ensures Run(s, frames[i..]) == Run(Step(s, frames[i].areas, frames[i].triggerAt, frames[i].updateAt), frames[i + 1..])
  {
    assert frames[i..][1..] == frames[i + 1..];
  }

  /** `generate_frames`: loops until the first failed read, driving
      `alarm` and yielding one part per captured frame. */
  method GenerateFrames(alarm: FireAlarmSystem, frames: seq<CameraRead>) returns (parts: seq<seq<byte>>)
    modifies alarm
    ensures parts == Emitted(frames)
    ensures alarm.State() == Run(old(alarm.State()), frames)
  {
    parts := [];
    var i := 0;
    while i < |frames|
      invariant 0 <= i <= |frames|
      invariant parts + Emitted(frames[i..]) == Emitted(frames)
      invariant Run(alarm.State(), frames[i..]) == Run(old(alarm.State()), frames)
    {
      var r := frames[i];
      if r.ReadFailed? {
        break;
      }
      CapturedFrameUnfolds(alarm.State(), frames, i);
      var fireDetected := DetectFire(r.areas);
      if fireDetected {
        alarm.Trigger(r.triggerAt);
      }
      alarm.Update(r.updateAt);
      parts := parts + [Part(r.jpeg)];
      i := i + 1;
    }
  }
}
