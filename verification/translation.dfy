/**
 The translation model's forward pass (`NP2MT.forward`): it allocates a
 zero-filled trg_len x batch x vocab output, runs the encoder's segment
 builder and the phrase decoder once each, and returns the zero-filled
 output, discarding what the decoder produced.

 The embedding and bidirectional recurrent pass that turn source token ids
 into contextual vectors, and the target-side embedding and recurrent pass,
 are parameters: `sourceOutputs` and `targetStates`.
 */
module Translation {
  import opened Optional
  import opened SegmentTable
  import PhraseDecoder

  /** `x` has shape a x b x c and holds only zeros. */
  predicate IsZeros(x: seq<seq<seq<real>>>, a: nat, b: nat, c: nat)
  {
    && |x| == a
    && (forall p :: 0 <= p < a ==> |x[p]| == b)
    && (forall p, q :: 0 <= p < a && 0 <= q < b ==> |x[p][q]| == c)
    && (forall p, q, v :: 0 <= p < a && 0 <= q < b && 0 <= v < c ==> x[p][q][v] == 0.0)
  }

  /** The forward pass. The source sentence must be non-empty (otherwise the
      segment builder reaches its return with unbound hidden states) and the
      target must have at least two tokens (otherwise the decoder returns no
      value and unpacking its result fails). Whatever the encoder and decoder
      compute, the result is the all-zero trg_len x batch x vocab tensor. */
  method Forward<S, V, O, Tok, D, P>(step: (S, V) -> (O, S), initForward: nat -> S, initBackward: nat -> S,
                                     threshold: int, sourceOutputs: seq<V>,
                                     target: seq<Tok>, targetStates: seq<D>, sop: Tok, eop: Tok,
                                     predict: (Tok, D, seq<(Cell<O>, Cell<O>)>) -> P,
                                     batch: nat, vocab: nat)
    returns (outputs: seq<seq<seq<real>>>)
    requires |sourceOutputs| >= 1
    requires |target| >= 2 && |targetStates| == |target|
    ensures IsZeros(outputs, |target|, batch, vocab)
  {
    outputs := seq(|target|, _ => seq(batch, _ => seq(vocab, _ => 0.0)));
    var segments, hidden := SegmentRnn(step, initForward, initBackward, sourceOutputs, threshold);
    var decoded := PhraseDecoder.DecoderForward(target, targetStates, segments, sop, eop, predict);
    assert decoded.Some?;
  }
}
