# SkAnimatedImage playback, modelled in Dafny

This project models the playback state machine of Skia's `SkAnimatedImage`: the
drawable that plays an animated image such as a GIF. An image is stopped,
running or finished. The caller drives it with `start`, `stop`, `reset`,
`setRepetitionCount` and `update(msecs)`. `update` moves the clock and, once the
active frame's time is up, asks the codec for the next frame. The animation
finishes when its repetitions are used up or when a decode or a bitmap copy fails.

The model is functional. `AnimatedImage.Image` is an immutable record of the
header's playback fields: finished, running, now, remaining time, the active
and restore frames, the repetition count and the repetitions completed. Each
public call is a pure function from one record to the next.

The codec is an oracle. At each frame boundary, `update` receives an
`Advance`, which gives:

- the index of the next frame;
- whether moving to it completes a pass over all frames;
- the decode outcome: a disposal method and a duration, or a failure;
- the outcome of any bitmap copy the move needs.

A frame is reduced to its index and its disposal method.

Files:

- `optional.dfy`: `Option`, which stands in for null results.
- `frames.dfy`: the frame record and the two slots (active and restore).
  `Show` draws a frame over its base. A RestorePrevious frame saves the base
  into the restore slot, and the base comes back when that frame is retired.
- `codec.dfy`: the oracle's answers and the repetition sentinel
  `kRepetitionCountInfinite` (-1).
- `animated_image.dfy`: the state record, `IsRunning` and `IsFinished`
  (exactly as the header writes them), `Make`, the transitions,
  `ComputeNextFrame`, `Finish` and `Update`.
- `playback.dfy`: runs of calls (`Run`), a driver that updates exactly at
  each promised deadline (`Drive`), and lemmas about whole runs.

The model follows the doc comments and inline queries of
include/android/SkAnimatedImage.h; the bodies of `update`, `computeNextFrame`,
`finish`, `start`, `stop` and `reset` are not modelled. Where the doc comments
leave something open, the model makes these choices:

- `update` returns an absolute time, now plus the remaining time of the
  active frame ("the time to show the next frame"). It is not a duration.
- One `update` call moves across at most one frame boundary ("this may
  decode a new frame"). It does not step through several boundaries that a
  large time jump would span.
- A pass is counted when the codec reports a wrap. The animation ends when
  more passes have completed than the repetition count asks for. This follows
  the header's statement that a count of 0 shows all frames once and then
  stops. So a count of r shows the frames r + 1 times.
- When the repetitions run out, the last frame stays on screen. No frame 0 is
  decoded for a pass that will not be shown.
- `make` and `reset` put the image's clock at 0, so frame 0 is due at its own duration. `reset` leaves the image stopped and not finished, at time 0, with frame 0
  decoded again. If that decode fails, the image is finished and the last
  frame shown stays.
- `finish` sets only the finished flag. `isRunning` is `fRunning && !fFinished`,
  so a finished image never reports running, whatever the running flag says.
- `kRepetitionCountInfinite` is -1, the value SkCodec gives it. `SkCodec.h`
  is not part of this model.

## Model

| member | source | states |
|---|---|---|
| `Frames.Show` | include/android/SkAnimatedImage.h:107-114 | Showing a frame makes it active. A RestorePrevious frame saves the current base into the restore slot. Otherwise the restore slot is untouched. The result is absent exactly when a needed frame copy (`copyTo`) fails. |
| `Frames.ShowAllBase` | include/android/SkAnimatedImage.h:129-130 | After any run of frames, the next frame is drawn over the last frame that is not undone: RestorePrevious frames are transparent. The active frame is the last one shown. |
| `Frames.RestorePreviousRoundTrip` | include/android/SkAnimatedImage.h:129-130 | With A kept and then B restoring the previous frame, the frame after B is drawn over A, not B. |
| `AnimatedImage.IsRunning` | include/android/SkAnimatedImage.h:67 | An image reports running exactly when its running flag is set and it is not finished, so a finished image never reports running. |
| `AnimatedImage.IsFinished` | include/android/SkAnimatedImage.h:75 | An image reports finished exactly when its finished flag is set. |
| `AnimatedImage.Make` | include/android/SkAnimatedImage.h:25-41 | No image when pixels cannot be allocated or there is no frame. Otherwise frame 0 is decoded and active with the restore slot empty, the image is not running, no repetitions are done, and the repetition count is the encoded one. A failed first decode leaves the image finished. |
| `AnimatedImage.Start` | include/android/SkAnimatedImage.h:45-49 | After start the running flag is set, and the image reports running exactly when it was not finished. Start never clears finished and changes nothing but the running flag. |
| `AnimatedImage.Stop` | include/android/SkAnimatedImage.h:51-55 | After stop the running flag is clear and the image is not running. Nothing else changes. |
| `AnimatedImage.Reset` | include/android/SkAnimatedImage.h:57-60 | After reset the image is not running and is at time 0, with no repetitions done, frame 0 active and the restore slot empty. It is finished only if redecoding frame 0 fails, and then the last frame stays shown. The repetition count is kept. |
| `AnimatedImage.ResetIsMake` | include/android/SkAnimatedImage.h:57-60 | A successful reset gives exactly the state of a newly made image with the same frame count and the current repetition count: it goes back to the beginning. |
| `AnimatedImage.SetRepetitionCount` | include/android/SkAnimatedImage.h:91-100 | Only the repetition count changes. The repetitions already completed are kept. |
| `AnimatedImage.ComputeNextFrame` | include/android/SkAnimatedImage.h:131-138 | A repetition is counted only on a wrap. Only a wrap can end the animation, and the infinite count never ends it. A count of 0 ends it at the first wrap. For a count of 0 or more, the animation ends exactly when the completed passes exceed the count. |
| `AnimatedImage.Finish` | include/android/SkAnimatedImage.h:139 | The image becomes finished and not running. It returns kNotRunning and leaves every other field alone. |
| `AnimatedImage.Update` | include/android/SkAnimatedImage.h:77-89 | While not running, nothing changes. Before the deadline only the clock moves and the same deadline is returned. At or after the deadline: the image keeps running exactly when repetitions remain, decoding succeeds and any needed copy succeeds. Then the new frame is active and its time is returned. Otherwise the image is finished, keeps its last frame and returns kNotRunning. |
| `AnimatedImage.UpdateSentinelIff` | include/android/SkAnimatedImage.h:77-89 | For any time from 0 on, update returns kNotRunning exactly when it leaves the animation not running. |
| `AnimatedImage.UpdatePreservesValid` | include/android/SkAnimatedImage.h:125-132 | update keeps the frame indices in range and the remaining time and repetition counter non-negative. A missing active frame only occurs when the image is finished. |
| `AnimatedImage.OperationsPreserveValid` | include/android/SkAnimatedImage.h:125-132 | start, stop, reset and setRepetitionCount keep the same invariant. |
| `Playback.StoppedIgnoresUpdates` | include/android/SkAnimatedImage.h:51-55 | After stop, any sequence of further stops and updates leaves the state exactly as stop left it. |
| `Playback.WaitsForStart` | include/android/SkAnimatedImage.h:45-49 | An image that is not set running stays not running through any calls other than start. |
| `Playback.MadeImageWaitsForStart` | include/android/SkAnimatedImage.h:28-29 | A newly made image does not animate until start is called. |
| `Playback.FinishedUntilReset` | include/android/SkAnimatedImage.h:69-75 | A finished image stays finished and not running, showing the same frames, through any calls other than reset. |
| `Playback.InfiniteNeverFinishes` | include/android/SkAnimatedImage.h:97-98 | With the infinite repetition count, and no decode or copy failure, the image never finishes. |
| `Playback.RunPreservesValid` | include/android/SkAnimatedImage.h:125-132 | Any run of calls keeps the state invariant, provided the codec names frames in range. |
| `Playback.DriveFinishesAfterRepetitions` | include/android/SkAnimatedImage.h:91-100 | Take a finite count, no failures, and updates made at each promised time. The image finishes exactly when the passes completed exceed the count. Until then every pass is counted and the slots hold what showing every answered frame in order produces. |
| `Playback.ZeroCountShowsEachFrameOnce` | include/android/SkAnimatedImage.h:97-98 | With a count of 0, a codec that plays the n frames in order from frame 0, and on-time updates, the image shows frame k after k updates and finishes at exactly the n-th update, with frame n - 1 still shown. The updates are made at the times the image itself returns, counted from its own clock origin of 0. |
| `Playback.DriveInfinite` | include/android/SkAnimatedImage.h:97-98 | With the infinite count and no failures, the image keeps running, counts every pass and shows every answered frame in order. |
| `Playback.ShowOnceScenario` | include/android/SkAnimatedImage.h:97-98 | Three 100 ms frames with a count of 0, updated at 100, 200 and 300 ms on the image's own clock (origin 0): frames 0, 1 and 2 are shown once. The update at 300 ms finishes the image with frame 2 still shown and returns kNotRunning. |
| `Playback.DecodeFailureScenario` | include/android/SkAnimatedImage.h:72-73 | When frame 2 fails to decode, the image finishes and frame 1 stays shown. |

## Left out

- Drawing (`onDraw`) and bounds (`onGetBounds`): these paint onto a canvas, and pixels are not modelled.
- Scaling, cropping, post-processing and the draw matrix (`fScaledSize`, `fCropRect`, `fPostProcess`, `fMatrix`, `fSimple`): these are geometric transforms over library types.
- Bitmap contents and `SkAndroidCodec` decoding: the codec is an oracle, and a bitmap is identified with the frame drawn into it.
- Pixel allocation in the `Make` factories: this is an external allocator, reduced to a boolean outcome.
- `Make` with an explicit size, crop and picture: these arguments only feed the transforms above, so both factories are one function.
- The destructor: the model has no resources to release.
- IEEE `double` arithmetic for times: times are exact reals, and frame durations are whole milliseconds.
- Thread safety: the class is single-threaded and thread-unsafe by its own documentation.
- `computeNextFrame(current)`: the model takes the next index and the wrap flag from the codec oracle instead of computing them from the current frame and `fFrameCount`. Nothing in `Update` ties `wrapped` to the frame count, so "0 to show all frames once" is proved relative to the oracle's wrap flag. `Playback.Sequential` describes an in-order oracle, and `Playback.ZeroCountShowsEachFrameOnce` proves the promise for it.
- Frame dependencies: a new frame is always drawn over `Frames.Base`. The model does not choose among earlier frames that a frame could be decoded over.
- `AnimatedImage.UpdateSentinelIff`: holds only for times of 0 or more. A negative time plus a zero-duration frame could produce -2 while running, because kNotRunning is itself a possible time.
- `AnimatedImage.Update`: two timing behaviours are not the only reading of the header. (a) A late update drops the overshoot: the next frame gets its full duration counted from the time of the update, not from the missed deadline. So with a deadline of 100, `update(150)` and a 100 ms next frame return 250, not 200, and every late update delays all later frames. (b) The clock is frozen while the image is stopped, so time spent stopped counts against the active frame after `start`. With a stop at 40, a deadline of 100 and then `start` and `update(1000)`, the image moves to the next frame at once, so "resume" does not keep the frame's remaining time.
- Several boundaries in one `update`: when one call spans the durations of several frames, the model advances one frame. This follows the header's singular "may decode a new frame".
- `AnimatedImage.Make`: the clock starts at 0, and frame 0 is due at its duration on that clock. The model has no "no update yet" state that would take the first `update` time as the origin. So a caller whose clock is not near 0 cuts frame 0 short: after `start`, a first `update(10000)` with a 100 ms frame 0 moves straight to frame 1.
- `AnimatedImage.Reset`: the same holds after a reset, which puts the clock back to 0. After `reset`, `start` and `update(5000)`, frame 0 is replaced at once.
