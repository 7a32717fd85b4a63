/** The playback state machine of an animated image (such as a GIF) drawn as
    a drawable: stopped, running or finished, advanced by the caller's clock
    through update(). */
module AnimatedImage {

  import opened Optional
  import opened Frames
  import opened Codec

  /** What update() returns when the animation is not running. */
  const kNotRunning: real := -2.0

  /** The playback state. Times are milliseconds on the caller's clock. */
  datatype Image = Image(
    frameCount: int,           // fixed when the image is made
    finished: bool,
    running: bool,
    nowMs: real,               // the time passed to the last update() that had an effect
    remainingMs: real,         // how much longer the active frame is shown
    frames: Slots,             // the active frame and the restore frame
    repetitionCount: int,      // kRepetitionCountInfinite, or how often to repeat
    repetitionsCompleted: int)

  /** Whether update() can animate. */
  predicate IsRunning(img: Image)
    ensures IsRunning(img) ==> img.running && !IsFinished(img)
    ensures img.running && !IsFinished(img) ==> IsRunning(img)
  {
    img.running && !img.finished
  }

  /** Whether all repetitions are complete or an error stopped the animation. */
  predicate IsFinished(img: Image)
    ensures IsFinished(img) <==> img.finished
  {
    img.finished
  }

  /** The time at which the active frame is due to be replaced. */
  function Deadline(img: Image): real
  {
    img.nowMs + img.remainingMs
  }

  /** The state every reachable image is in. */
  predicate Valid(img: Image)
  {
    && img.frameCount >= 1
    && kNone <= img.frames.active.index < img.frameCount
    && kNone <= img.frames.restore.index < img.frameCount
    && (img.frames.active.index == kNone ==> img.finished)
    && img.remainingMs >= 0.0
    && img.repetitionsCompleted >= 0
  }

  /** The state after the first frame has been decoded as `first`, at time 0,
      stopped, with no repetitions done. If decoding fails, the animation is
      finished and the slots keep what they held. */
  function Begin(frameCount: int, repetitionCount: int, shown: Slots, first: FrameResult): (r: Image)
    ensures !IsRunning(r) && r.nowMs == 0.0 && r.repetitionsCompleted == 0
    ensures r.frameCount == frameCount && r.repetitionCount == repetitionCount
    ensures IsFinished(r) <==> first.DecodeFailed?
    ensures first.Decoded? ==> r.frames == Slots(Frame(0, first.disposal), Empty)
    ensures first.Decoded? ==> Deadline(r) == first.durationMs as real
    ensures first.DecodeFailed? ==> r.frames == shown
  {
    match first
    case Decoded(d, ms) =>
      Image(frameCount, false, false, 0.0, ms as real, Show(Blank, Frame(0, d), true).value, repetitionCount, 0)
    case DecodeFailed =>
      Image(frameCount, true, false, 0.0, 0.0, shown, repetitionCount, 0)
  }

  /** Makes an image from what the codec reports. None when the pixels cannot
      be allocated (`allocOk` false) or the data holds no frame; otherwise the
      first frame is decoded and the image waits for Start. */
  function Make(info: Info, allocOk: bool, first: FrameResult): (r: Option<Image>)
    ensures r.Some? <==> info.frameCount >= 1 && allocOk
    ensures r.Some? ==> Valid(r.value) && !IsRunning(r.value)
    ensures r.Some? ==> r.value.frameCount == info.frameCount
    ensures r.Some? ==> r.value.repetitionCount == info.repetitionCount && r.value.repetitionsCompleted == 0
    ensures r.Some? ==> (IsFinished(r.value) <==> first.DecodeFailed?)
    ensures r.Some? && first.Decoded? ==> r.value.frames == Slots(Frame(0, first.disposal), Empty)
    ensures r.Some? && first.Decoded? ==> Deadline(r.value) == first.durationMs as real
  {
    if info.frameCount < 1 || !allocOk then None
    else Some(Begin(info.frameCount, info.repetitionCount, Blank, first))
  }

  /** Starts or resumes the animation; a finished animation stays finished. */
  function Start(img: Image): (r: Image)
    ensures r.running
    ensures IsRunning(r) <==> !IsFinished(img)
    ensures IsFinished(r) == IsFinished(img)
    ensures r.(running := img.running) == img
  {
    img.(running := true)
  }

  /** Stops the animation, so that update() has no effect. */
  function Stop(img: Image): (r: Image)
    ensures !r.running
    ensures !IsRunning(r)
    ensures IsFinished(r) == IsFinished(img)
    ensures r.(running := img.running) == img
  {
    img.(running := false)
  }

  /** Rewinds to the first frame: not finished, not running, time 0, no
      repetitions done, the repetition count kept. The first frame is decoded
      again as `first`; if that fails the animation is finished and the last
      frame shown stays. */
  function Reset(img: Image, first: FrameResult): (r: Image)
    ensures !IsRunning(r)
    ensures IsFinished(r) <==> first.DecodeFailed?
    ensures r.nowMs == 0.0 && r.repetitionsCompleted == 0
    ensures r.frameCount == img.frameCount && r.repetitionCount == img.repetitionCount
    ensures first.Decoded? ==> r.frames == Slots(Frame(0, first.disposal), Empty)
    ensures first.Decoded? ==> Deadline(r) == first.durationMs as real
    ensures first.DecodeFailed? ==> r.frames == img.frames
  {
    Begin(img.frameCount, img.repetitionCount, img.frames, first)
  }

  /** A successful reset puts the image in exactly the state a newly made
      image of the same frames and repetition count is in. */
  lemma ResetIsMake(img: Image, first: FrameResult)
    requires img.frameCount >= 1 && first.Decoded?
    ensures Reset(img, first) == Make(Info(img.frameCount, img.repetitionCount), true, first).value
  {
  }

  /** Changes how often the animation repeats; nothing else changes, and the
      repetitions already completed are kept. */
  function SetRepetitionCount(img: Image, count: int): (r: Image)
    ensures r.repetitionCount == count
    ensures r.repetitionsCompleted == img.repetitionsCompleted
    ensures r.(repetitionCount := img.repetitionCount) == img
  {
    img.(repetitionCount := count)
  }

  /** computeNextFrame's answer: the frame to decode, the repetitions
      completed once it is reached, and whether the animation ends instead. */
  datatype NextFrame = NextFrame(index: int, repetitionsCompleted: int, animationEnded: bool)

  /** Chooses the frame that follows the active one, as the codec says, and
      counts a repetition whenever a pass over all frames completes. The
      animation ends when more passes complete than the count asks for, so a
      count of 0 shows all frames once. */
  function ComputeNextFrame(img: Image, adv: Advance): (r: NextFrame)
    ensures r.index == adv.index
    ensures r.animationEnded ==> adv.wrapped
    ensures img.repetitionCount == kRepetitionCountInfinite ==> !r.animationEnded
    ensures img.repetitionCount == 0 && img.repetitionsCompleted >= 0 && adv.wrapped ==> r.animationEnded
    ensures r.repetitionsCompleted == img.repetitionsCompleted + (if adv.wrapped then 1 else 0)
    ensures img.repetitionCount >= 0 ==> (r.animationEnded <==> r.repetitionsCompleted > img.repetitionCount && adv.wrapped)
  {
    var completed := if adv.wrapped then img.repetitionsCompleted + 1 else img.repetitionsCompleted;
    NextFrame(adv.index, completed,
      adv.wrapped && img.repetitionCount != kRepetitionCountInfinite && completed > img.repetitionCount)
  }

  /** update()'s result: the new state and the time to show the next frame. */
  datatype Updated = Updated(image: Image, next: real)

  /** Marks the animation finished; the frames shown stay as they are. */
  function Finish(img: Image): (r: Updated)
    ensures IsFinished(r.image) && !IsRunning(r.image)
    ensures r.next == kNotRunning
    ensures r.image.(finished := img.finished) == img
  {
    Updated(img.(finished := true), kNotRunning)
  }

  /** Sets the current time to `msecs`. While not running nothing changes.
      Before the active frame's deadline only the clock moves. At or after
      it, the next frame is decoded as `adv` says: the animation finishes
      when the repetitions are used up, when decoding fails, or when a bitmap
      copy fails, and otherwise shows the new frame for its duration. */
  function Update(img: Image, msecs: real, adv: Advance): (r: Updated)
    ensures !IsRunning(img) ==> r.image == img
    ensures IsRunning(r.image) ==> r.next == Deadline(r.image) && r.next >= msecs
    ensures !IsRunning(r.image) ==> r.next == kNotRunning
    ensures IsFinished(img) ==> IsFinished(r.image)
    ensures r.image.frameCount == img.frameCount && r.image.repetitionCount == img.repetitionCount
    ensures r.image.running == img.running
    // before the deadline: same frame, same deadline
    ensures IsRunning(img) && msecs < Deadline(img) ==>
      && IsRunning(r.image)
      && r.image.frames == img.frames
      && r.image.nowMs == msecs
      && r.image.repetitionsCompleted == img.repetitionsCompleted
      && r.next == Deadline(img)
    // at or after the deadline: exactly one frame boundary
    ensures IsRunning(img) && msecs >= Deadline(img) ==>
      && r.image.nowMs == msecs
      && r.image.repetitionsCompleted == ComputeNextFrame(img, adv).repetitionsCompleted
    ensures IsRunning(img) && msecs >= Deadline(img) ==>
      (IsRunning(r.image) <==>
        && !ComputeNextFrame(img, adv).animationEnded
        && adv.result.Decoded?
        && !(NeedsCopy(img.frames, Frame(adv.index, adv.result.disposal)) && !adv.copyOk))
    ensures IsRunning(img) && msecs >= Deadline(img) && !IsRunning(r.image) ==>
      IsFinished(r.image) && r.image.frames == img.frames
    ensures IsRunning(img) && msecs >= Deadline(img) && IsRunning(r.image) ==>
      && r.image.frames.active == Frame(adv.index, adv.result.disposal)
      && r.image.frames == Show(img.frames, Frame(adv.index, adv.result.disposal), adv.copyOk).value
      && r.next == msecs + adv.result.durationMs as real
  {
    if !IsRunning(img) then Updated(img, kNotRunning)
    else
      var elapsed := msecs - img.nowMs;
      if elapsed < img.remainingMs then
        var remaining := img.remainingMs - elapsed;
        Updated(img.(nowMs := msecs, remainingMs := remaining), msecs + remaining)
      else
        var nf := ComputeNextFrame(img, adv);
        var moved := img.(nowMs := msecs, repetitionsCompleted := nf.repetitionsCompleted);
        if nf.animationEnded then Finish(moved)
        else
          match adv.result
          case DecodeFailed => Finish(moved)
          case Decoded(d, ms) =>
            match Show(img.frames, Frame(nf.index, d), adv.copyOk)
            case None => Finish(moved)
            case Some(slots) =>
              Updated(moved.(frames := slots, remainingMs := ms as real), msecs + ms as real)
  }

  /** update() returns kNotRunning exactly when it leaves the animation not
      running, for any time from the clock's origin on. */
  lemma UpdateSentinelIff(img: Image, msecs: real, adv: Advance)
    requires msecs >= 0.0
    ensures Update(img, msecs, adv).next == kNotRunning <==> !IsRunning(Update(img, msecs, adv).image)
  {
  }

  /** Every operation keeps the image in a reachable shape, provided the codec
      names frames in range. */
  lemma UpdatePreservesValid(img: Image, msecs: real, adv: Advance)
    requires Valid(img)
    requires 0 <= adv.index < img.frameCount
    ensures Valid(Update(img, msecs, adv).image)
  {
  }

  lemma OperationsPreserveValid(img: Image, first: FrameResult, count: int)
    requires Valid(img)
    ensures Valid(Start(img)) && Valid(Stop(img)) && Valid(Reset(img, first))
    ensures Valid(SetRepetitionCount(img, count))
  {
  }

}
