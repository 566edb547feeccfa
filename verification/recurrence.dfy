/**
 The recurrent cell of the segment encoder, seen only through its step
 function: one step consumes the current state and an input vector and
 yields an output vector and the next state. Nothing is assumed about the
 step; every property below holds for any step function.
 */
module Recurrence {

  /** The outputs, in order, of running `step` from state `h` over `xs`. */
  function Trace<S, V, O>(step: (S, V) -> (O, S), h: S, xs: seq<V>): (r: seq<O>)
    ensures |r| == |xs|
    decreases |xs|
  {
    if |xs| == 0 then []
    else [step(h, xs[0]).0] + Trace(step, step(h, xs[0]).1, xs[1..])
  }

  /** The state left behind after running `step` from `h` over `xs`. */
  function Final<S, V, O>(step: (S, V) -> (O, S), h: S, xs: seq<V>): S
    decreases |xs|
  {
    if |xs| == 0 then h else Final(step, step(h, xs[0]).1, xs[1..])
  }

  /** Running over one more input appends exactly one output, the one the
      step produces from the state reached so far. This is what lets a loop
      that keeps only the current state compute the trace. */
  lemma {:induction false} TraceSnoc<S, V, O>(step: (S, V) -> (O, S), h: S, xs: seq<V>, x: V)
    ensures Trace(step, h, xs + [x]) == Trace(step, h, xs) + [step(Final(step, h, xs), x).0]
    ensures Final(step, h, xs + [x]) == step(Final(step, h, xs), x).1
    decreases |xs|
  {
    if |xs| == 0 {
      assert xs + [x] == [x];
    } else {
      var h' := step(h, xs[0]).1;
      assert (xs + [x])[1..] == xs[1..] + [x];
      TraceSnoc(step, h', xs[1..], x);
    }
  }

  /** The trace of a prefix is the prefix of the trace: an output never
      depends on inputs that come after it. */
  lemma {:induction false} TracePrefix<S, V, O>(step: (S, V) -> (O, S), h: S, xs: seq<V>, k: nat)
    requires k <= |xs|
    ensures Trace(step, h, xs[..k]) == Trace(step, h, xs)[..k]
    decreases |xs|
  {
    if k > 0 {
      assert xs[..k][1..] == xs[1..][..k - 1];
      TracePrefix(step, step(h, xs[0]).1, xs[1..], k - 1);
    }
  }

  /** `s` read from its last element to its first. */
  function Reverse<T>(s: seq<T>): seq<T>
  {
    if |s| == 0 then [] else Reverse(s[1..]) + [s[0]]
  }

  lemma {:induction false} ReverseAt<T>(s: seq<T>)
    ensures |Reverse(s)| == |s|
    ensures forall k :: 0 <= k < |s| ==> Reverse(s)[k] == s[|s| - 1 - k]
  {
    if |s| > 0 {
      ReverseAt(s[1..]);
    }
  }

  /** The inputs of a backward run ending at `i` and reaching down to `j`:
      `xs[i], xs[i-1], ..., xs[j]` (empty when `j == i + 1`), that is, the
      slice `xs[j..i+1]` reversed. */
  function BackInputs<V>(xs: seq<V>, j: nat, i: nat): seq<V>
    requires j <= i + 1 && i < |xs|
  {
    seq(i + 1 - j, k requires 0 <= k < i + 1 - j => xs[i - k])
  }

  /** The backward inputs are the slice `xs[j..i+1]` reversed. */
  lemma BackInputsIsReverse<V>(xs: seq<V>, j: nat, i: nat)
    requires j <= i + 1 && i < |xs|
    ensures BackInputs(xs, j, i) == Reverse(xs[j..i + 1])
  {
    ReverseAt(xs[j..i + 1]);
  }

  /** Reaching one position further down appends that position's input. */
  lemma BackInputsExtend<V>(xs: seq<V>, j: nat, i: nat)
    requires j <= i < |xs|
    ensures BackInputs(xs, j, i) == BackInputs(xs, j + 1, i) + [xs[j]]
  {
  }
}
