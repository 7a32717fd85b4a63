/** What the image learns from its codec. Decoding itself is outside the
    model: the codec is an oracle that, each time the image needs a frame,
    answers which frame comes next and whether decoding it worked. */
module Codec {

  import opened Frames

  /** The repetition count meaning "repeat forever". */
  const kRepetitionCountInfinite: int := -1

  /** The frame count and repetition count recorded in the encoded data. */
  datatype Info = Info(frameCount: int, repetitionCount: int)

  /** A requested frame: decoded, with its disposal method and how many
      milliseconds it is shown, or failed. */
  datatype FrameResult =
    | Decoded(disposal: Disposal, durationMs: nat)
    | DecodeFailed

  /** The codec's answer at one frame boundary: the index of the next frame,
      whether moving to it completes a pass over all frames, the outcome of
      decoding it, and the outcome of any bitmap copy the move needs. */
  datatype Advance = Advance(index: int, wrapped: bool, result: FrameResult, copyOk: bool)

  /** An answer with no decode or copy failure in it. */
  predicate Clean(a: Advance)
  {
    a.result.Decoded? && a.copyOk
  }

}
