/** Sequences of calls a caller makes on an animated image, and what holds
    over whole runs of them. */
module Playback {

  import opened Frames
  import opened Codec
  import opened Optional
  import AnimatedImage

  type Image = AnimatedImage.Image

  /** One public call, carrying the codec's answer the call would consume. */
  datatype Call =
    | Start
    | Stop
    | Reset(first: FrameResult)
    | Update(msecs: real, next: Advance)
    | SetRepetitionCount(count: int)

  function Apply(img: Image, c: Call): Image
  {
    match c
    case Start => AnimatedImage.Start(img)
    case Stop => AnimatedImage.Stop(img)
    case Reset(first) => AnimatedImage.Reset(img, first)
    case Update(msecs, next) => AnimatedImage.Update(img, msecs, next).image
    case SetRepetitionCount(count) => AnimatedImage.SetRepetitionCount(img, count)
  }

  /** The state after making the calls in order. */
  function Run(img: Image, calls: seq<Call>): Image
    decreases |calls|
  {
    if |calls| == 0 then img else Run(Apply(img, calls[0]), calls[1..])
  }

  /** Once stopped, any mix of further stops and updates changes nothing:
      stopping is idempotent and update() has no effect. */
  lemma {:induction false} StoppedIgnoresUpdates(img: Image, calls: seq<Call>)
    requires forall i :: 0 <= i < |calls| ==> calls[i].Stop? || calls[i].Update?
    ensures Run(AnimatedImage.Stop(img), calls) == AnimatedImage.Stop(img)
    decreases |calls|
  {
    if |calls| > 0 {
      assert Apply(AnimatedImage.Stop(img), calls[0]) == AnimatedImage.Stop(img);
      StoppedIgnoresUpdates(img, calls[1..]);
    }
  }

  /** A made image does not animate until Start is called, whatever else is
      called in the meantime. */
  lemma {:induction false} WaitsForStart(img: Image, calls: seq<Call>)
    requires !img.running
    requires forall i :: 0 <= i < |calls| ==> !calls[i].Start?
    ensures !AnimatedImage.IsRunning(Run(img, calls))
    ensures !Run(img, calls).running
    decreases |calls|
  {
    if |calls| > 0 {
      WaitsForStart(Apply(img, calls[0]), calls[1..]);
    }
  }

  lemma MadeImageWaitsForStart(info: Info, allocOk: bool, first: FrameResult, calls: seq<Call>)
    requires AnimatedImage.Make(info, allocOk, first).Some?
    requires forall i :: 0 <= i < |calls| ==> !calls[i].Start?
    ensures !AnimatedImage.IsRunning(Run(AnimatedImage.Make(info, allocOk, first).value, calls))
  {
    WaitsForStart(AnimatedImage.Make(info, allocOk, first).value, calls);
  }

  /** A finished animation stays finished, showing the same frames, until it
      is reset. */
  lemma {:induction false} FinishedUntilReset(img: Image, calls: seq<Call>)
    requires AnimatedImage.IsFinished(img)
    requires forall i :: 0 <= i < |calls| ==> !calls[i].Reset?
    ensures AnimatedImage.IsFinished(Run(img, calls))
    ensures !AnimatedImage.IsRunning(Run(img, calls))
    ensures Run(img, calls).frames == img.frames
    decreases |calls|
  {
    if |calls| > 0 {
      FinishedUntilReset(Apply(img, calls[0]), calls[1..]);
    }
  }

  /** Whether a call keeps an endlessly repeating animation free of failures
      and endless. */
  predicate KeepsEndless(c: Call)
  {
    match c
    case Update(_, next) => Clean(next)
    case Reset(first) => first.Decoded?
    case SetRepetitionCount(count) => count == kRepetitionCountInfinite
    case _ => true
  }

  /** With the infinite repetition count, repetitions never finish the
      animation: only a failure can. */
  lemma {:induction false} InfiniteNeverFinishes(img: Image, calls: seq<Call>)
    requires !AnimatedImage.IsFinished(img)
    requires img.repetitionCount == kRepetitionCountInfinite
    requires forall i :: 0 <= i < |calls| ==> KeepsEndless(calls[i])
    ensures !AnimatedImage.IsFinished(Run(img, calls))
    ensures Run(img, calls).repetitionCount == kRepetitionCountInfinite
    decreases |calls|
  {
    if |calls| > 0 {
      var c := calls[0];
      assert KeepsEndless(c);
      var next := Apply(img, c);
      assert !AnimatedImage.IsFinished(next) by {
        match c
        case Update(msecs, adv) =>
          if AnimatedImage.IsRunning(img) && msecs >= AnimatedImage.Deadline(img) {
            assert !AnimatedImage.ComputeNextFrame(img, adv).animationEnded;
            assert !NeedsCopy(img.frames, Frame(adv.index, adv.result.disposal)) || adv.copyOk;
          }
        case _ =>
      }
      InfiniteNeverFinishes(next, calls[1..]);
    }
  }

  /** The image keeps its reachable shape over any run, provided the codec
      names frames in range. */
  lemma {:induction false} RunPreservesValid(img: Image, calls: seq<Call>)
    requires AnimatedImage.Valid(img)
    requires forall i :: 0 <= i < |calls| && calls[i].Update? ==> 0 <= calls[i].next.index < img.frameCount
    ensures AnimatedImage.Valid(Run(img, calls))
    ensures Run(img, calls).frameCount == img.frameCount
    decreases |calls|
  {
    if |calls| > 0 {
      var c := calls[0];
      match c {
        case Update(msecs, adv) => AnimatedImage.UpdatePreservesValid(img, msecs, adv);
        case Reset(first) => AnimatedImage.OperationsPreserveValid(img, first, 0);
        case SetRepetitionCount(count) => AnimatedImage.OperationsPreserveValid(img, DecodeFailed, count);
        case _ => AnimatedImage.OperationsPreserveValid(img, DecodeFailed, 0);
      }
      RunPreservesValid(Apply(img, c), calls[1..]);
    }
  }

  /** A caller that calls update() exactly at the time the previous update()
      asked for, the codec answering each time with the next of `advs`. */
  function Drive(img: Image, advs: seq<Advance>): Image
    decreases |advs|
  {
    if |advs| == 0 then img
    else Drive(AnimatedImage.Update(img, AnimatedImage.Deadline(img), advs[0]).image, advs[1..])
  }

  /** How many of the codec's answers complete a pass over all frames. */
  function Wraps(advs: seq<Advance>): nat
    decreases |advs|
  {
    if |advs| == 0 then 0 else (if advs[0].wrapped then 1 else 0) + Wraps(advs[1..])
  }

  /** The frames the codec's answers name, in order. */
  function Shown(advs: seq<Advance>): (r: seq<Frame>)
    requires forall i :: 0 <= i < |advs| ==> Clean(advs[i])
    ensures |r| == |advs|
    ensures forall i :: 0 <= i < |advs| && advs[i].result.Decoded? ==> r[i] == Frame(advs[i].index, advs[i].result.disposal)
    decreases |advs|
  {
    if |advs| == 0 then []
    else assert Clean(advs[0]); [Frame(advs[0].index, advs[0].result.disposal)] + Shown(advs[1..])
  }

  /** Driving a stopped or finished image changes nothing. */
  lemma {:induction false} DriveIdle(img: Image, advs: seq<Advance>)
    requires !AnimatedImage.IsRunning(img)
    ensures Drive(img, advs) == img
    decreases |advs|
  {
    if |advs| > 0 {
      DriveIdle(img, advs[1..]);
    }
  }

  /** With a finite repetition count and no failures, the animation finishes
      exactly when more passes have completed than the count asks for; until
      then every pass is counted and every frame is shown in turn. A count of
      0 therefore shows all frames once. */
  lemma {:induction false} DriveFinishesAfterRepetitions(img: Image, advs: seq<Advance>)
    requires AnimatedImage.IsRunning(img)
    requires 0 <= img.repetitionsCompleted <= img.repetitionCount
    requires forall i :: 0 <= i < |advs| ==> Clean(advs[i])
    ensures AnimatedImage.IsFinished(Drive(img, advs)) <==> img.repetitionsCompleted + Wraps(advs) > img.repetitionCount
    ensures !AnimatedImage.IsFinished(Drive(img, advs)) ==>
      && Drive(img, advs).repetitionsCompleted == img.repetitionsCompleted + Wraps(advs)
      && Drive(img, advs).frames == ShowAll(img.frames, Shown(advs))
    decreases |advs|
  {
    if |advs| > 0 {
      var adv := advs[0];
      assert Clean(adv);
      var next := AnimatedImage.Update(img, AnimatedImage.Deadline(img), adv).image;
      var nf := AnimatedImage.ComputeNextFrame(img, adv);
      assert Shown(advs)[1..] == Shown(advs[1..]);
      if nf.animationEnded {
        DriveIdle(next, advs[1..]);
      } else {
        assert AnimatedImage.IsRunning(next);
        DriveFinishesAfterRepetitions(next, advs[1..]);
      }
    }
  }

  /** With the infinite repetition count and no failures, the animation runs
      for ever: every pass is counted and every frame is shown in turn. */
  lemma {:induction false} DriveInfinite(img: Image, advs: seq<Advance>)
    requires AnimatedImage.IsRunning(img)
    requires img.repetitionCount == kRepetitionCountInfinite
    requires forall i :: 0 <= i < |advs| ==> Clean(advs[i])
    ensures AnimatedImage.IsRunning(Drive(img, advs))
    ensures Drive(img, advs).repetitionsCompleted == img.repetitionsCompleted + Wraps(advs)
    ensures Drive(img, advs).frames == ShowAll(img.frames, Shown(advs))
    decreases |advs|
  {
    if |advs| > 0 {
      var adv := advs[0];
      assert Clean(adv);
      var next := AnimatedImage.Update(img, AnimatedImage.Deadline(img), adv).image;
      assert Shown(advs)[1..] == Shown(advs[1..]);
      assert AnimatedImage.IsRunning(next);
      DriveInfinite(next, advs[1..]);
    }
  }

  /** The answers of a codec that plays n frames in order after frame `from`:
      each index is one past the one before, modulo n, and a pass completes
      exactly when the index comes back to 0. */
  predicate Sequential(n: int, from: int, advs: seq<Advance>)
    requires n >= 1
  {
    forall i :: 0 <= i < |advs| ==>
      && advs[i].index == (from + i + 1) % n
      && (advs[i].wrapped <==> advs[i].index == 0)
  }

  lemma {:induction false} WrapsAppend(a: seq<Advance>, b: seq<Advance>)
    ensures Wraps(a + b) == Wraps(a) + Wraps(b)
    decreases |a|
  {
    if |a| == 0 {
      assert a + b == b;
    } else {
      assert (a + b)[0] == a[0];
      assert (a + b)[1..] == a[1..] + b;
      WrapsAppend(a[1..], b);
    }
  }

  /** One step round n frames: k stays k below n and comes back to 0 at n. */
  lemma ModStep(k: int, n: int)
    requires 0 < k <= n
    ensures k % n == (if k == n then 0 else k)
  {
  }

  /** Played in order from frame 0, the first pass completes exactly at the
      n-th answer. */
  lemma {:induction false} SequentialWraps(n: int, advs: seq<Advance>, k: int)
    requires n >= 1 && |advs| == n && Sequential(n, 0, advs)
    requires 0 <= k <= n
    ensures Wraps(advs[..k]) == (if k == n then 1 else 0)
    decreases k
  {
    if k == 0 {
      assert advs[..k] == [];
    } else {
      var last := advs[k - 1];
      assert last.index == (0 + (k - 1) + 1) % n && (last.wrapped <==> last.index == 0);
      ModStep(k, n);
      assert last.wrapped <==> k == n;
      SequentialWraps(n, advs, k - 1);
      assert advs[..k] == advs[..k - 1] + [last];
      WrapsAppend(advs[..k - 1], [last]);
      assert Wraps([last]) == (if last.wrapped then 1 else 0) by {
        assert [last][1..] == [];
      }
    }
  }

  /** A repetition count of 0 shows all frames once and then stops: with a
      codec playing n frames in order from frame 0 and updates made on time,
      the image shows frame k after k updates and finishes at exactly the
      n-th. */
  lemma ZeroCountShowsEachFrameOnce(img: Image, advs: seq<Advance>, k: int)
    requires AnimatedImage.IsRunning(img) && img.frames.active.index == 0
    requires img.repetitionCount == 0 && img.repetitionsCompleted == 0
    requires img.frameCount >= 1 && |advs| == img.frameCount && Sequential(img.frameCount, 0, advs)
    requires forall i :: 0 <= i < |advs| ==> Clean(advs[i])
    requires 0 <= k <= |advs|
    ensures AnimatedImage.IsFinished(Drive(img, advs[..k])) <==> k == img.frameCount
    ensures 0 < k < img.frameCount ==> Drive(img, advs[..k]).frames.active.index == k
    ensures k == img.frameCount ==> Drive(img, advs[..k]).frames.active.index == img.frameCount - 1
  {
    ZeroCountPrefix(img, advs, k);
    if k == img.frameCount {
      ZeroCountLast(img, advs);
    }
  }

  /** The first k on-time updates of a count-0, in-order run: finished only
      after all n, and showing frame k before that. */
  lemma ZeroCountPrefix(img: Image, advs: seq<Advance>, k: int)
    requires AnimatedImage.IsRunning(img)
    requires img.repetitionCount == 0 && img.repetitionsCompleted == 0
    requires img.frameCount >= 1 && |advs| == img.frameCount && Sequential(img.frameCount, 0, advs)
    requires forall i :: 0 <= i < |advs| ==> Clean(advs[i])
    requires 0 <= k <= |advs|
    ensures AnimatedImage.IsFinished(Drive(img, advs[..k])) <==> k == img.frameCount
    ensures k < img.frameCount ==> Drive(img, advs[..k]).repetitionsCompleted == 0
    ensures 0 < k < img.frameCount ==> Drive(img, advs[..k]).frames.active.index == k
  {
    var n := img.frameCount;
    var played := advs[..k];
    assert forall i :: 0 <= i < |played| ==> Clean(played[i]) by {
      forall i | 0 <= i < |played| ensures Clean(played[i]) {
        assert played[i] == advs[i];
      }
    }
    SequentialWraps(n, advs, k);
    DriveFinishesAfterRepetitions(img, played);
    if 0 < k < n {
      ShowAllBase(img.frames, Shown(played));
      assert played[k - 1] == advs[k - 1];
      assert advs[k - 1].index == (0 + (k - 1) + 1) % n;
      ModStep(k, n);
    }
  }

  /** The n-th on-time update of a count-0, in-order run ends the pass and
      leaves frame n - 1 shown. */
  lemma ZeroCountLast(img: Image, advs: seq<Advance>)
    requires AnimatedImage.IsRunning(img) && img.frames.active.index == 0
    requires img.repetitionCount == 0 && img.repetitionsCompleted == 0
    requires img.frameCount >= 1 && |advs| == img.frameCount && Sequential(img.frameCount, 0, advs)
    requires forall i :: 0 <= i < |advs| ==> Clean(advs[i])
    ensures Drive(img, advs[..img.frameCount]).frames.active.index == img.frameCount - 1
  {
    var n := img.frameCount;
    var before := Drive(img, advs[..n - 1]);
    ZeroCountPrefix(img, advs, n - 1);
    if n == 1 {
      assert advs[..0] == [];
    }
    assert before.frames.active.index == n - 1;
    DriveKeepsSettings(img, advs[..n - 1]);
    var last := advs[n - 1];
    assert last.index == (0 + (n - 1) + 1) % n && (last.wrapped <==> last.index == 0);
    ModStep(n, n);
    EndingUpdate(before, last);
    assert advs[..n] == advs[..n - 1] + [last];
    DriveAppend(img, advs[..n - 1], [last]);
    assert [last][1..] == [];
  }

  /** An on-time update that completes the only pass a count of 0 allows
      finishes the image and keeps the frame shown. */
  lemma EndingUpdate(img: Image, last: Advance)
    requires AnimatedImage.IsRunning(img) && last.wrapped
    requires img.repetitionCount == 0 && img.repetitionsCompleted == 0
    ensures Drive(img, [last]).frames == img.frames
    ensures AnimatedImage.IsFinished(Drive(img, [last]))
  {
    assert AnimatedImage.ComputeNextFrame(img, last).animationEnded;
    assert [last][1..] == [];
  }

  /** Driving in two parts is driving once over both. */
  lemma {:induction false} DriveAppend(img: Image, a: seq<Advance>, b: seq<Advance>)
    ensures Drive(img, a + b) == Drive(Drive(img, a), b)
    decreases |a|
  {
    if |a| == 0 {
      assert a + b == b;
    } else {
      assert (a + b)[0] == a[0];
      assert (a + b)[1..] == a[1..] + b;
      DriveAppend(AnimatedImage.Update(img, AnimatedImage.Deadline(img), a[0]).image, a[1..], b);
    }
  }

  /** Updates never touch the running flag, the frame count or the
      repetition count. */
  lemma {:induction false} DriveKeepsSettings(img: Image, advs: seq<Advance>)
    ensures Drive(img, advs).running == img.running
    ensures Drive(img, advs).frameCount == img.frameCount
    ensures Drive(img, advs).repetitionCount == img.repetitionCount
    decreases |advs|
  {
    if |advs| > 0 {
      DriveKeepsSettings(AnimatedImage.Update(img, AnimatedImage.Deadline(img), advs[0]).image, advs[1..]);
    }
  }

  /** The image made from three 100 ms frames with repetition count 0. */
  const ShowOnceStart: Image :=
    AnimatedImage.Image(3, false, false, 0.0, 100.0, Slots(Frame(0, Keep), Empty), 0, 0)

  /** The calls that start that image and update it on its first two deadlines. */
  const ShowOnceCalls: seq<Call> := [
    Start,
    Update(100.0, Advance(1, false, Decoded(Keep, 100), true)),
    Update(200.0, Advance(2, false, Decoded(Keep, 100), true))]

  /** Three frames of 100 ms each, repetition count 0: started and updated
      on every deadline, the animation shows frames 0, 1 and 2 once and
      finishes when it would wrap back to frame 0, leaving frame 2 shown. */
  lemma ShowOnceScenario()
    ensures AnimatedImage.Make(Info(3, 0), true, Decoded(Keep, 100)) == Some(ShowOnceStart)
    ensures var shown := Run(ShowOnceStart, ShowOnceCalls);
      && AnimatedImage.IsRunning(shown)
      && shown.frames.active == Frame(2, Keep)
      && AnimatedImage.Deadline(shown) == 300.0
      && var done := AnimatedImage.Update(shown, 300.0, Advance(0, true, Decoded(Keep, 100), true));
      && done.next == AnimatedImage.kNotRunning
      && AnimatedImage.IsFinished(done.image)
      && done.image.frames.active == Frame(2, Keep)
  {
    var s1 := AnimatedImage.Image(3, false, true, 0.0, 100.0, Slots(Frame(0, Keep), Empty), 0, 0);
    var s2 := AnimatedImage.Image(3, false, true, 100.0, 100.0, Slots(Frame(1, Keep), Empty), 0, 0);
    var s3 := AnimatedImage.Image(3, false, true, 200.0, 100.0, Slots(Frame(2, Keep), Empty), 0, 0);
    ShowOnceStep(s1, 100.0, 1, s2);
    ShowOnceStep(s2, 200.0, 2, s3);
    calc {
      Run(ShowOnceStart, ShowOnceCalls);
      { assert ShowOnceCalls[1..] == ShowOnceCalls[1..3]; }
      Run(s1, ShowOnceCalls[1..3]);
      { assert ShowOnceCalls[1..3][1..] == [ShowOnceCalls[2]]; }
      Run(s2, [ShowOnceCalls[2]]);
      { assert [ShowOnceCalls[2]][1..] == []; }
      Run(s3, []);
    }
    var done := AnimatedImage.Update(s3, 300.0, Advance(0, true, Decoded(Keep, 100), true));
    assert AnimatedImage.ComputeNextFrame(s3, Advance(0, true, Decoded(Keep, 100), true)).animationEnded;
  }

  /** One on-time update of the three-frame image, moving to frame `index`. */
  lemma ShowOnceStep(img: Image, msecs: real, index: int, next: Image)
    requires AnimatedImage.IsRunning(img) && msecs == AnimatedImage.Deadline(img)
    requires img.repetitionsCompleted == 0 && img.frames.restore == Empty && img.frames.active.disposal == Keep
    requires next == img.(nowMs := msecs, remainingMs := 100.0, frames := Slots(Frame(index, Keep), Empty))
    ensures Apply(img, Update(msecs, Advance(index, false, Decoded(Keep, 100), true))) == next
  {
  }

  /** The image made from three 100 ms frames with the infinite repetition count. */
  const FailureStart: Image :=
    AnimatedImage.Image(3, false, false, 0.0, 100.0, Slots(Frame(0, Keep), Empty), kRepetitionCountInfinite, 0)

  /** The calls that start that image, move it to frame 1 and then ask for
      frame 2, which fails to decode. */
  const FailureCalls: seq<Call> := [
    Start,
    Update(100.0, Advance(1, false, Decoded(Keep, 100), true)),
    Update(200.0, Advance(2, false, DecodeFailed, true))]

  /** Three frames, the third failing to decode: the animation finishes when
      frame 2 is requested and frame 1 stays shown. */
  lemma DecodeFailureScenario()
    ensures AnimatedImage.Make(Info(3, kRepetitionCountInfinite), true, Decoded(Keep, 100)) == Some(FailureStart)
    ensures AnimatedImage.IsFinished(Run(FailureStart, FailureCalls))
    ensures Run(FailureStart, FailureCalls).frames.active == Frame(1, Keep)
  {
    var s1 := FailureStart.(running := true);
    var s2 := s1.(nowMs := 100.0, frames := Slots(Frame(1, Keep), Empty));
    var s3 := s2.(nowMs := 200.0, finished := true);
    ShowOnceStep(s1, 100.0, 1, s2);
    FailureStep(s2, 200.0, 2, s3);
    calc {
      Run(FailureStart, FailureCalls);
      { assert FailureCalls[1..] == FailureCalls[1..3]; }
      Run(s1, FailureCalls[1..3]);
      { assert FailureCalls[1..3][1..] == [FailureCalls[2]]; }
      Run(s2, [FailureCalls[2]]);
      { assert [FailureCalls[2]][1..] == []; }
      Run(s3, []);
    }
  }

  /** An on-time update whose next frame fails to decode finishes the image
      and changes nothing else but the clock. */
  lemma FailureStep(img: Image, msecs: real, index: int, next: Image)
    requires AnimatedImage.IsRunning(img) && msecs == AnimatedImage.Deadline(img)
    requires next == img.(nowMs := msecs, finished := true)
    ensures Apply(img, Update(msecs, Advance(index, false, DecodeFailed, true))) == next
  {
  }

}
