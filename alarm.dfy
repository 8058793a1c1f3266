/** The debounced alarm latch: `alarm_active` turns on the instant fire is
    reported and turns off only once more than three seconds have passed
    since the last report. Clock readings are passed in as seconds. */
module FireAlarm {

  /** Quiet period, in seconds, after which a latched alarm clears. */
  const DebounceSeconds: real := 3.0

  /** The two fields the latch keeps. */
  datatype AlarmState = AlarmState(active: bool, lastDetected: real)

  /** A freshly constructed system: silent, last detection at time 0. */
  const Initial: AlarmState := AlarmState(false, 0.0)

  /** `trigger` at time `now`: whatever the old state, the alarm is on and
      the last detection is `now`. */
  function Triggered(now: real): (r: AlarmState)
    ensures r.active && r.lastDetected == now
  {
    AlarmState(true, now)
  }

  /** `update` at time `now`: clears the alarm when the last detection is
      more than `DebounceSeconds` old. */
  function Updated(s: AlarmState, now: real): (r: AlarmState)
    ensures r.lastDetected == s.lastDetected
    ensures r.active <==> s.active && now - s.lastDetected <= DebounceSeconds
  {
    if now - s.lastDetected > DebounceSeconds then s.(active := false) else s
  }

  /** `update` never switches the alarm on. */
  lemma UpdateNeverRaises(s: AlarmState, now: real)
    ensures Updated(s, now).active ==> s.active
  {
  }

  /** `update` changes nothing unless it clears an expired alarm. */
  lemma UpdateChangesOnlyOnExpiry(s: AlarmState, now: real)
    ensures Updated(s, now) != s <==> s.active && now - s.lastDetected > DebounceSeconds
    ensures Updated(s, now) != s ==> Updated(s, now) == AlarmState(false, s.lastDetected)
  {
  }

  /** Two updates at the same time leave the state one update leaves. */
  lemma UpdateIdempotent(s: AlarmState, now: real)
    ensures Updated(Updated(s, now), now) == Updated(s, now)
  {
  }

  /** The alarm is latched exactly when the last detection is at most
      `DebounceSeconds` before `now`: the invariant the latch is meant to
      keep after each update at `now`. */
  predicate Coherent(s: AlarmState, now: real)
  {
    s.active <==> now - s.lastDetected <= DebounceSeconds
  }

  /** The initial state is coherent at every clock reading past the
      debounce window, which any wall-clock reading is. */
  lemma InitialCoherent(now: real)
    ensures Coherent(Initial, now) <==> now > DebounceSeconds
  {
  }

  /** The alarm object, with the two fields the detection loop mutates. */
  class FireAlarmSystem {
    var alarmActive: bool
    var lastDetectedTime: real

    /** The fields as a value. */
    function State(): AlarmState
      reads this
    {
      AlarmState(alarmActive, lastDetectedTime)
    }

    constructor ()
      ensures State() == Initial
    {
      alarmActive := false;
      lastDetectedTime := 0.0;
    }

    /** Latches the alarm and stamps the detection time. */
    method Trigger(now: real)
      modifies this
      ensures State() == Triggered(now)
      ensures alarmActive && lastDetectedTime == now
    {
      alarmActive := true;
      lastDetectedTime := now;
    }

    /** Clears the alarm once the last detection is more than
        `DebounceSeconds` old; the detection time is never touched. */
    method Update(now: real)
      modifies this`alarmActive
      ensures State() == Updated(old(State()), now)
      ensures lastDetectedTime == old(lastDetectedTime)
      ensures alarmActive ==> old(alarmActive)
    {
      if now - lastDetectedTime > DebounceSeconds {
        alarmActive := false;
      }
    }
  }
}
