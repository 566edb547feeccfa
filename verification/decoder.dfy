/**
 The control skeleton of the phrase decoder (`Decoder.forward`).

 The decoder enumerates phrase candidates (start, phraseLen) of the target,
 brackets the target tokens input[start..start+phraseLen] with the
 start-of-phrase and end-of-phrase marker ids, and walks positions
 0..phraseLen of the bracketed phrase, producing a prediction at each step.
 As written, it returns from inside the innermost loop on its very first
 step, so at most one prediction is ever produced.

 Attention, the weighted sum over segments, the phrase recurrent cell and the
 output projection are folded into one parameter `predict`, applied to the
 current phrase token, the target-side recurrent output at the phrase end and
 the encoder's segments.
 */
module PhraseDecoder {
  import opened Optional
  import Triu

  /** The candidates with start at least `s`, in loop order: for each start,
      phrase lengths 1, 2, ... while start + phraseLen < n. */
  function CandidatesFrom(n: nat, s: nat): seq<(nat, nat)>
    requires s <= n
    decreases n - s
  {
    if s == n then []
    else Lengths(n, s) + CandidatesFrom(n, s + 1)
  }

  /** All phrase candidates (start, phraseLen) of a target of length n. */
  function Candidates(n: nat): seq<(nat, nat)>
  {
    CandidatesFrom(n, 0)
  }

  /** Row `s` of the enumeration: (s, 1), (s, 2), ..., (s, n - s - 1). */
  function Lengths(n: nat, s: nat): seq<(nat, nat)>
    requires s < n
  {
    seq(n - s - 1, k requires 0 <= k < n - s - 1 => (s, k + 1))
  }

  lemma {:induction false} CandidatesFromBounds(n: nat, s: nat)
    requires s <= n
    ensures forall k :: 0 <= k < |CandidatesFrom(n, s)| ==>
              var (start, len) := CandidatesFrom(n, s)[k];
              s <= start && 1 <= len && start + len <= n - 1
    decreases n - s
  {
    if s < n {
      CandidatesFromBounds(n, s + 1);
      assert CandidatesFrom(n, s) == Lengths(n, s) + CandidatesFrom(n, s + 1);
    }
  }

  lemma {:induction false} CandidatesFromComplete(n: nat, s: nat)
    requires s <= n
    ensures forall start: nat, len: nat :: s <= start && 1 <= len && start + len <= n - 1 ==>
              (start, len) in CandidatesFrom(n, s)
    decreases n - s
  {
    if s < n {
      CandidatesFromComplete(n, s + 1);
      var row, rest := Lengths(n, s), CandidatesFrom(n, s + 1);
      assert CandidatesFrom(n, s) == row + rest;
      forall start: nat, len: nat | s <= start && 1 <= len && start + len <= n - 1
        ensures (start, len) in CandidatesFrom(n, s)
      {
        if start == s {
          assert row[len - 1] == (start, len);
        } else {
          assert (start, len) in rest;
        }
      }
    }
  }

  lemma {:induction false} CandidatesFromSorted(n: nat, s: nat)
    requires s <= n
    ensures forall a, b :: 0 <= a < b < |CandidatesFrom(n, s)| ==>
              Triu.Before(CandidatesFrom(n, s)[a], CandidatesFrom(n, s)[b])
    decreases n - s
  {
    if s < n {
      CandidatesFromSorted(n, s + 1);
      CandidatesFromBounds(n, s + 1);
      var row, rest := Lengths(n, s), CandidatesFrom(n, s + 1);
      var all := CandidatesFrom(n, s);
      assert all == row + rest;
      forall a, b | 0 <= a < b < |all|
        ensures Triu.Before(all[a], all[b])
      {
        if b < |row| {
        } else if a < |row| {
          assert all[b] == rest[b - |row|];
        } else {
          assert all[a] == rest[a - |row|] && all[b] == rest[b - |row|];
        }
      }
    }
  }

  lemma {:induction false} CandidatesFromLength(n: nat, s: nat)
    requires s <= n
    ensures 2 * |CandidatesFrom(n, s)| == (n - s) * (n - s - 1)
    decreases n - s
  {
    if s < n {
      CandidatesFromLength(n, s + 1);
      var m := n - s;
      assert (m - 1) * (m - 2) + 2 * (m - 1) == m * (m - 1);
    }
  }

  /** Every candidate has start >= 0, phraseLen >= 1 and end = start +
      phraseLen <= n - 1, so the target-side output at `end` is always in
      range; every such pair is a candidate; they come in row-major order;
      there are n(n-1)/2 of them; there are none exactly when n <= 1, and
      otherwise the first one is (0, 1). */
  lemma CandidatesSpec(n: nat)
    ensures forall k :: 0 <= k < |Candidates(n)| ==>
              var (start, len) := Candidates(n)[k];
              1 <= len && start + len <= n - 1
    ensures forall start: nat, len: nat :: 1 <= len && start + len <= n - 1 ==>
              (start, len) in Candidates(n)
    ensures forall a, b :: 0 <= a < b < |Candidates(n)| ==>
              Triu.Before(Candidates(n)[a], Candidates(n)[b])
    ensures 2 * |Candidates(n)| == n * (n - 1)
    ensures Candidates(n) == [] <==> n <= 1
    ensures n >= 2 ==> Candidates(n)[0] == (0, 1)
  {
    CandidatesFromBounds(n, 0);
    CandidatesFromComplete(n, 0);
    CandidatesFromSorted(n, 0);
    CandidatesFromLength(n, 0);
    if n >= 2 {
      assert Candidates(n)[0] == Lengths(n, 0)[0];
    }
  }

  /** The phrase input: the target tokens in [start, end) between the
      start-of-phrase and end-of-phrase markers. */
  function Bracket<Tok>(input: seq<Tok>, start: nat, end: nat, sop: Tok, eop: Tok): seq<Tok>
    requires start <= end <= |input|
  {
    [sop] + input[start..end] + [eop]
  }

  /** The walk of the step loop over one phrase, followed to its end: the
      phrase is bracketed, then positions t = 0, 1, ..., phraseLen are read in
      turn and each token read is fed to the phrase recurrence. The phrase has
      phraseLen + 2 positions; every position read is at most phraseLen, so
      the end marker in the last position is never fed, and the tokens fed
      are the start marker followed by the phraseLen content tokens. In the
      decoder as written only the first of these steps happens (see
      `DecoderForward`). */
  method PhraseWalk<Tok>(input: seq<Tok>, start: nat, phraseLen: nat, sop: Tok, eop: Tok)
    returns (phrase: seq<Tok>, read: seq<nat>, fed: seq<Tok>)
    requires start + phraseLen <= |input|
    ensures |phrase| == phraseLen + 2 && phrase[0] == sop && phrase[phraseLen + 1] == eop
    ensures phrase[1..phraseLen + 1] == input[start..start + phraseLen]
    ensures |read| == phraseLen + 1 && |fed| == |read|
    ensures forall k :: 0 <= k < |read| ==> read[k] == k && read[k] < |phrase| - 1
    ensures forall k :: 0 <= k < |fed| ==> fed[k] == phrase[read[k]]
    ensures fed == [sop] + input[start..start + phraseLen]
    ensures fed == phrase[..|phrase| - 1]
  {
    phrase := Bracket(input, start, start + phraseLen, sop, eop);
    read, fed := [], [];
    for t := 0 to phraseLen + 1
      invariant |read| == t && |fed| == t
      invariant forall k :: 0 <= k < t ==> read[k] == k && fed[k] == phrase[k]
    {
      read, fed := read + [t], fed + [phrase[t]];
    }
  }

  /** The decoder's forward pass as written: enumerate candidates, bracket the
      phrase, walk its positions, and return the first prediction. It produces
      the prediction for the first candidate's first position, and nothing
      (`Decoder.forward` falls through, returning no value) when there is no
      candidate. Concretely that is the prediction for the start marker with
      the target-side output at position 1, and nothing exactly when the
      target has at most one token. The prediction type `P` stands for the
      pair (prediction, hidden state) that `Decoder.forward` returns. */
  method DecoderForward<Tok, D, E, P>(input: seq<Tok>, targetStates: seq<D>, segments: seq<E>,
                                      sop: Tok, eop: Tok, predict: (Tok, D, seq<E>) -> P)
    returns (r: Option<P>)
    requires |targetStates| == |input|
    ensures r.None? <==> Candidates(|input|) == []
    ensures r.Some? ==>
              var (start, len) := Candidates(|input|)[0];
              && start + len < |input|
              && r.value == predict(Bracket(input, start, start + len, sop, eop)[0],
                                    targetStates[start + len], segments)
    ensures r.None? <==> |input| <= 1
    ensures r.Some? ==> |input| >= 2 && r.value == predict(sop, targetStates[1], segments)
  {
    CandidatesSpec(|input|);
    var trgLen := |input|;
    for start := 0 to trgLen
      invariant start == 0 || trgLen <= 1
    {
      for phraseLen := 1 to trgLen - start
        invariant phraseLen == 1
      {
        var end := start + phraseLen;
        var target := targetStates[end];
        var phrase := Bracket(input, start, end, sop, eop);
        for t := 0 to phraseLen + 1
          invariant t == 0
        {
          r := Some(predict(phrase[t], target, segments));
          return;
        }
      }
    }
    r := None;
  }
}
