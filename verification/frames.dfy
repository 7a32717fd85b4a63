/** The two frame slots of an animated image, and the disposal rules that move
    frames between them. Pixels are abstracted away: a frame is its index in
    the animation and the disposal method the encoded data gave it, and a
    slot's bitmap is identified with the frame that was last drawn into it. */
module Frames {

  import opened Optional

  /** What happens to a frame's pixels before the next frame is drawn. */
  datatype Disposal = Keep | RestoreBGColor | RestorePrevious

  /** The index of a slot that holds no frame yet. */
  const kNone: int := -1

  /** One slot's contents: which frame it holds and how that frame is disposed. */
  datatype Frame = Frame(index: int, disposal: Disposal)

  /** A slot that holds nothing: the blank canvas before the first frame. */
  const Empty: Frame := Frame(kNone, Keep)

  /** The active frame (shown now) and the restore frame (what lay under the
      active frame when that one is disposed by restoring the previous one). */
  datatype Slots = Slots(active: Frame, restore: Frame)

  /** Both slots empty, as before the first frame is decoded. */
  const Blank: Slots := Slots(Empty, Empty)

  /** The frame the next decoded frame is drawn over. A RestorePrevious frame
      is undone when it is retired, so what lay under it becomes the base. */
  function Base(s: Slots): Frame
  {
    if s.active.disposal == RestorePrevious then s.restore else s.active
  }

  /** Whether showing `next` copies a bitmap from one slot to the other:
      either the base is restored out of the restore slot, or it is saved into
      it because `next` will be undone. Copying the blank canvas needs no
      bitmap. */
  predicate NeedsCopy(s: Slots, next: Frame)
  {
    && (s.active.disposal == RestorePrevious || next.disposal == RestorePrevious)
    && Base(s).index != kNone
  }

  /** Draws `next` over the base, first saving the base into the restore slot
      when `next` is to be undone later. `copyOk` is the outcome of the bitmap
      copy; a failed copy yields None and leaves the caller to stop. */
  function Show(s: Slots, next: Frame, copyOk: bool): (r: Option<Slots>)
    ensures r.None? <==> NeedsCopy(s, next) && !copyOk
    ensures r.Some? ==> r.value.active == next
    ensures r.Some? ==> Base(r.value) == (if next.disposal == RestorePrevious then Base(s) else next)
    ensures r.Some? && next.disposal != RestorePrevious ==> r.value.restore == s.restore
  {
    if NeedsCopy(s, next) && !copyOk then None
    else if next.disposal == RestorePrevious then Some(Slots(next, Base(s)))
    else Some(Slots(next, s.restore))
  }

  /** Shows the frames of `fs` in order, every copy succeeding. */
  function ShowAll(s: Slots, fs: seq<Frame>): Slots
    decreases |fs|
  {
    if |fs| == 0 then s else ShowAll(Show(s, fs[0], true).value, fs[1..])
  }

  /** The last frame of `fs` that is not undone after it is shown, or `d`
      when every frame of `fs` restores the previous one. */
  function LastKept(fs: seq<Frame>, d: Frame): Frame
    decreases |fs|
  {
    if |fs| == 0 then d
    else LastKept(fs[1..], if fs[0].disposal != RestorePrevious then fs[0] else d)
  }

  /** RestorePrevious frames are transparent: after any run of frames, the
      next frame is drawn over the last frame that was not undone. */
  lemma {:induction false} ShowAllBase(s: Slots, fs: seq<Frame>)
    ensures Base(ShowAll(s, fs)) == LastKept(fs, Base(s))
    ensures |fs| > 0 ==> ShowAll(s, fs).active == fs[|fs| - 1]
    decreases |fs|
  {
    if |fs| > 0 {
      ShowAllBase(Show(s, fs[0], true).value, fs[1..]);
      if |fs| > 1 {
        assert fs[1..][|fs[1..]| - 1] == fs[|fs| - 1];
      }
    }
  }

  /** Frame A kept, frame B restoring the previous one: once B is shown, the
      frame that follows is drawn over A, not over B. */
  lemma RestorePreviousRoundTrip(a: Frame, b: Frame, restore: Frame)
    requires a.disposal != RestorePrevious && b.disposal == RestorePrevious
    ensures Base(ShowAll(Slots(a, restore), [b])) == a
  {
    ShowAllBase(Slots(a, restore), [b]);
  }

}
