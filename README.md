# Fire alarm latch and video-feed loop

A model of the control core of a webcam fire-colour detector (`app.py`).
Per camera frame, the program looks at the areas of the fire-coloured contours.
When any area is strictly above 1000 pixels, it calls `trigger` on the alarm
object. It then always calls `update`. The object is a debounced latch. `trigger`
switches `alarm_active` on and records the clock reading in
`last_detected_time`. `update` switches the alarm off once more than 3 seconds
have passed since that reading. Each frame goes out to the browser as one part of a
`multipart/x-mixed-replace; boundary=frame` stream. A part is the line
`--frame`, the header `Content-Type: image/jpeg`, a blank line, the JPEG bytes
and a closing CRLF. The loop ends at the first camera read that fails.

Files and modules:

- `multipart.dfy`, module `Multipart`: the byte framing of one part (`Part`). It
  also holds the parser that recovers the payload (`ParsePart`) and the
  round-trip lemmas between the two.
- `alarm.dfy`, module `FireAlarm`: the latch. `AlarmState` is the value of its
  two fields. `Triggered` and `Updated` give what `trigger` and `update` do to
  that value. The class `FireAlarmSystem` has the fields `alarmActive` and
  `lastDetectedTime`, a constructor, and the methods `Trigger(now)` and
  `Update(now)`. Each method is proved to move `State()` exactly as its
  function says.
- `stream.dfy`, module `Stream`: the body of `generate_frames`. Each camera read
  is a `CameraRead`: either `ReadFailed`, or `Captured(areas, jpeg, triggerAt,
  updateAt)`. `areas` are the contour areas, `jpeg` is the encoded frame, and
  `triggerAt`/`updateAt` are the clock readings that `trigger` and `update`
  would take. `DetectFire` is the loop over the contours. `GenerateFrames` is the
  `while True` loop. It drives a `FireAlarmSystem` and returns the parts it
  yields. The specification functions are `Emitted` (the parts), `Run` (the
  final latch) and `Trace` (the latch after each frame). The lemmas over them
  state the debounce and streaming properties.

Time is a `real` number of seconds, passed in; the program reads it from
`time.time()`. Contour areas are `real` because the vision library returns them
as floating-point numbers. Bytes are the newtype `byte` (0..255).

`app.py` does not reconnect to the camera or show a placeholder frame: it leaves
its loop at the first failed read (app.py:59-61). It also ignores the success
flag that `cv2.imencode` returns (app.py:95-96). So no frame is skipped:
whatever bytes the encoder produced are framed and emitted.

## Model

| member | source | states |
|---|---|---|
| `FireAlarm.FireAlarmSystem.constructor` | app.py:20-23 | a new system has the alarm off and the last detection time 0 |
| `FireAlarm.FireAlarmSystem.Trigger` | app.py:44-46 | afterwards the alarm is on and the last detection time is `now`, whatever the state was before |
| `FireAlarm.FireAlarmSystem.Update` | app.py:48-51 | only `alarmActive` may change, and it never goes from off to on; the new state is `Updated(old state, now)` |
| `FireAlarm.Triggered` | app.py:44-46 | whatever the old state, the latch is on and its detection time is `now` |
| `FireAlarm.Updated` | app.py:48-51 | the detection time is kept; the alarm is on afterwards exactly when it was on and `now - lastDetected <= 3` |
| `FireAlarm.UpdateNeverRaises` | app.py:48-51 | an update never switches the alarm on |
| `FireAlarm.UpdateChangesOnlyOnExpiry` | app.py:48-51 | an update changes the state exactly when the alarm is on and more than 3 s have passed; the only change is clearing the alarm |
| `FireAlarm.UpdateIdempotent` | app.py:48-51 | two updates at the same time leave the same state as one |
| `FireAlarm.InitialCoherent` | app.py:20-23 | the initial state satisfies "on iff a detection at most 3 s ago" exactly at clock readings above 3 s |
| `Stream.DetectFire` | app.py:78-85 | `fire_detected` is true iff some contour area is strictly greater than 1000 |
| `Stream.ThresholdIsStrict` | app.py:81 | an area of exactly 1000 is not fire; 1000.5 is |
| `Stream.DetectionFrameLatches` | app.py:88-92 | in a frame with fire, the latch ends with detection time `triggerAt`, and it is on iff `updateAt - triggerAt <= 3` |
| `Stream.Step` | app.py:88-92 | one frame's latch: the detection time becomes `triggerAt` iff fire is seen, otherwise stays; the alarm is on iff it was on or fire was seen, and the update reading is at most 3 s after the resulting detection time |
| `Stream.QuietFrameNeverRaises` | app.py:88-92 | a frame without fire never switches the alarm on and never moves the detection time |
| `Stream.CapturedPrefix` | app.py:58-61 | the number of reads before the first failure: all of them succeed, and the one after them (if any) fails |
| `Stream.Emitted` | app.py:58-100 | the generator yields one part per read before the first failure |
| `Stream.Run` | app.py:57-92 | the final latch is on only if it started on or some processed frame saw fire; its detection time is the starting one or the trigger reading of a frame that saw fire |
| `Stream.Trace` | app.py:57-92 | one latch state per read before the first failure |
| `Stream.EmittedOnePartPerFrame` | app.py:58-100 | exactly one part per successful read before the first failed one; the i-th part is `Part` of the i-th encoded frame, with length payload + 39 |
| `Stream.FailureEndsStream` | app.py:59-61 | reads after the first failure change neither the parts, the final latch nor the trace |
| `Stream.RunIsLastOfTrace` | app.py:57-92 | the latch the generator leaves is the state after its last processed frame |
| `Stream.DebounceAfterLastDetection` | app.py:88-92 | from a latched state, with quiet frames and a non-decreasing clock: every frame keeps the detection time, and the alarm is on iff that frame's update is at most 3 s after it |
| `Stream.DebounceFromDetection` | app.py:88-92 | counted from the frame of the last detection at `t0`: on for every update at time <= t0 + 3, off for every later one, no flicker |
| `Stream.StaysClearWithoutDetection` | app.py:88-92 | once off, the alarm stays off, and the detection time stays put, through every frame without fire |
| `Stream.CoherentAfterEveryFrame` | app.py:88-92 | with a clock that never runs backwards, after every frame the alarm is on iff the last detection is at most 3 s before that frame's update |
| `Stream.GenerateFrames` | app.py:57-100 | returns exactly `Emitted(frames)` and leaves the alarm object in `Run(old state, frames)` |
| `Multipart.Part` | app.py:99-100 | a part is 39 bytes longer than its payload: the 37-byte `--frame`/content-type preamble, the payload, then CRLF |
| `Multipart.ParsePart` | app.py:99-100 | a payload recovered from a byte string is 39 bytes shorter than it |
| `Multipart.ParsePartOfPart` | app.py:99-100 | parsing a part gives back its payload |
| `Multipart.PartOfParsePart` | app.py:99-100 | every byte string that parses is the part of the payload it yields |
| `Multipart.PartInjective` | app.py:99-100 | distinct payloads give distinct parts |

## Left out

- The sound thread (`_alarm_loop`, `_fallback_beep`, `playsound`, `winsound.Beep`, `stop_thread`, app.py:22-42). It is concurrency plus audio output, and it only reads `alarm_active`. Nothing in the program ever sets `stop_thread` to True; app.py:22 only initialises it to False.
- The data race between that thread and the streaming loop(s) on the shared object. The model is sequential. Flask's threaded mode can run several `generate_frames` loops on one alarm object at the same time, and the model does not capture that interleaving.
- Every vision-library call (`VideoCapture`, `read`, `resize`, `GaussianBlur`, `cvtColor`, `inRange`, `findContours`, `contourArea`, `boundingRect`, `imencode`). Their results (read success, contour areas, encoded bytes) are inputs in `CameraRead`.
- The drawing calls (`rectangle`, `putText`, app.py:83-84 and 90). They only change pixels of a frame whose encoding is an input here.
- `time.time()`. Each clock reading is an input of its frame. The ordering lemmas assume a clock that never runs backwards, which the program does not guarantee.
- The unbounded, lazy generator. `generate_frames` never stops while reads succeed (app.py:58); the model covers a finite run of reads, and `GenerateFrames` also stops when that sequence runs out.
- Floating-point rounding of timestamps and areas. They are exact reals here.
- The Flask routes, `Response`, `render_template` and `app.run` (app.py:16, 102-111). The model stops at the sequence of parts the generator yields. Writing those parts to the HTTP connection, and a client disconnecting, are not modelled.
- The module-level objects (app.py:54-55). `GenerateFrames` takes the alarm object as a parameter instead of using a global.
