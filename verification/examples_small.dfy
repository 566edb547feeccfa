/** Small concrete instances of the segment table and phrase enumeration. */
module SmallCases {
  import Triu
  import opened SegmentTable
  import PhraseDecoder

  /** Three tokens give six segments, listed (0,0), (0,1), (0,2), (1,1), (1,2), (2,2). */
  lemma ThreeTokenSegments()
    ensures Triu.Indices(3) == [(0, 0), (0, 1), (0, 2), (1, 1), (1, 2), (2, 2)]
  {
  }

  /** With four tokens and threshold 2 the spans (0,2), (0,3) and (1,3) keep
      both parts zero, while span (1,2), of length 2, has both parts written. */
  lemma FourTokensThresholdTwo<S, V, O>(step: (S, V) -> (O, S), initForward: nat -> S,
                                         initBackward: nat -> S, outputs: seq<V>)
    requires |outputs| == 4
    ensures ForwardCell(step, initForward, outputs, 2, 0, 2) == Zero
    ensures BackwardCell(step, initBackward, outputs, 2, 0, 2) == Zero
    ensures ForwardCell(step, initForward, outputs, 2, 0, 3) == Zero
    ensures BackwardCell(step, initBackward, outputs, 2, 0, 3) == Zero
    ensures ForwardCell(step, initForward, outputs, 2, 1, 3) == Zero
    ensures BackwardCell(step, initBackward, outputs, 2, 1, 3) == Zero
    ensures ForwardCell(step, initForward, outputs, 2, 1, 2).Seg?
    ensures BackwardCell(step, initBackward, outputs, 2, 1, 2).Seg?
  {
  }

  /** A target of one token has no phrase candidate; one of three tokens has
      (0,1), (0,2), (1,1). */
  lemma SmallTargets()
    ensures PhraseDecoder.Candidates(1) == []
    ensures PhraseDecoder.Candidates(3) == [(0, 1), (0, 2), (1, 1)]
  {
  }
}
