/**
 The segment table builder of the encoder (`Encoder.segment_rnn`).

 Given the contextual vectors `outputs[0..N-1]` of one sentence, it fills two
 N x N tables. The forward table holds, at (i, j), the output of a fresh
 recurrent run started at i after it has consumed outputs[i..j]; the backward
 table holds, at (j, i), the output of a fresh run started at i going left
 after it has consumed outputs[i], outputs[i-1], ..., outputs[j]. Both runs
 stop after at most T steps. The two tables are then paired cell by cell and
 the upper-triangular cells are listed in row-major order.

 The recurrent cell is the parameter `step`; the random initial states are
 the parameters `initForward` and `initBackward`, one state per sweep index.
 */
module SegmentTable {
  import opened Optional
  import opened Recurrence
  import Triu

  /** A table cell: `Zero` is the content the table is allocated with,
      `Seg(o)` a cell the sweep wrote the step output `o` into. */
  datatype Cell<O> = Zero | Seg(out: O)

  type Table<C> = seq<seq<C>>

  predicate IsSquare<C>(t: Table<C>, n: nat)
  {
    |t| == n && forall r :: 0 <= r < n ==> |t[r]| == n
  }

  function Min(a: int, b: int): int { if a <= b then a else b }

  function Max(a: int, b: int): int { if a >= b then a else b }

  /** One past the last end index the forward run from `i` visits. */
  function ForwardStop(n: nat, t: int, i: nat): int
  {
    Max(i, Min(n, i + t))
  }

  /** The lowest start index the backward run from `i` visits
      (`i + 1` when it visits none). */
  function BackwardStop(t: int, i: nat): nat
  {
    Min(i + 1, Max(0, i - t + 1))
  }

  /** What the forward table holds at (i, j) once the sweep is done. */
  function ForwardCell<S, V, O>(step: (S, V) -> (O, S), init: nat -> S, outputs: seq<V>, t: int,
                                i: nat, j: nat): Cell<O>
    requires i < |outputs| && j < |outputs|
  {
    if i <= j < Min(|outputs|, i + t) then
      Seg(Trace(step, init(i), outputs[i..j + 1])[j - i])
    else
      Zero
  }

  /** What the backward table holds at (j, i) once the sweep is done. */
  function BackwardCell<S, V, O>(step: (S, V) -> (O, S), init: nat -> S, outputs: seq<V>, t: int,
                                 j: nat, i: nat): Cell<O>
    requires j < |outputs| && i < |outputs|
  {
    if Max(-1, i - t) < j <= i then
      Seg(Trace(step, init(i), BackInputs(outputs, j, i))[i - j])
    else
      Zero
  }

  /** Number of steps the forward run from `i` takes. */
  function ForwardSteps(n: nat, t: int, i: nat): int
  {
    if t <= 0 then 0 else Min(n - i, t)
  }

  /** Number of steps the backward run from `i` takes. */
  function BackwardSteps(t: int, i: nat): int
  {
    if t <= 0 then 0 else Min(i + 1, t)
  }

  /** One start index of the forward sweep: a fresh state `init(i)` steps
      over outputs[i], outputs[i+1], ... for at most t tokens, writing each
      output into row i, which the sweep finds still zero. Nothing outside
      row i changes. `count` is the number of steps taken and `h` the state
      the run leaves behind. */
  method ForwardRun<S, V, O>(step: (S, V) -> (O, S), init: nat -> S, outputs: seq<V>, t: int,
                             dp: Table<Cell<O>>, i: nat)
    returns (dp': Table<Cell<O>>, count: int, h: S)
    requires i < |outputs| && IsSquare(dp, |outputs|)
    requires forall c :: 0 <= c < |outputs| ==> dp[i][c] == Zero
    ensures IsSquare(dp', |outputs|)
    ensures forall r :: 0 <= r < |outputs| && r != i ==> dp'[r] == dp[r]
    ensures forall c :: 0 <= c < |outputs| ==> dp'[i][c] == ForwardCell(step, init, outputs, t, i, c)
    ensures count == ForwardSteps(|outputs|, t, i)
    ensures h == Final(step, init(i), outputs[i..ForwardStop(|outputs|, t, i)])
  {
    var n := |outputs|;
    dp' := dp;
    h := init(i);
    var stop := ForwardStop(n, t, i);
    var j := i;
    while j < stop
      invariant i <= j <= stop
      invariant h == Final(step, init(i), outputs[i..j])
      invariant IsSquare(dp', n)
      invariant forall r :: 0 <= r < n && r != i ==> dp'[r] == dp[r]
      invariant forall c :: 0 <= c < n ==> dp'[i][c] == if c < j then ForwardCell(step, init, outputs, t, i, c) else Zero
    {
      var res := step(h, outputs[j]);
      assert outputs[i..j + 1] == outputs[i..j] + [outputs[j]];
      TraceSnoc(step, init(i), outputs[i..j], outputs[j]);
      assert Seg(res.0) == ForwardCell(step, init, outputs, t, i, j);
      var row := dp'[i][j := Seg(res.0)];
      assert forall c :: 0 <= c < n ==> row[c] == if c < j + 1 then ForwardCell(step, init, outputs, t, i, c) else Zero;
      dp' := dp'[i := row];
      h := res.1;
      j := j + 1;
    }
    count := j - i;
  }

  /** The forward sweep. For each start i it draws a fresh state, steps over
      outputs[i], outputs[i+1], ... for at most t tokens and writes each step's
      output into (i, j). `steps[i]` counts the steps taken from start i;
      `hidden` is the state left by the last start index, or None when the
      sentence is empty and the loop never binds it. */
  method ForwardSweep<S, V, O>(step: (S, V) -> (O, S), init: nat -> S, outputs: seq<V>, t: int)
    returns (dp: Table<Cell<O>>, steps: seq<int>, hidden: Option<S>)
    ensures IsSquare(dp, |outputs|)
    ensures forall i, j :: 0 <= i < |outputs| && 0 <= j < |outputs| ==>
              dp[i][j] == ForwardCell(step, init, outputs, t, i, j)
    ensures |steps| == |outputs|
    ensures forall i :: 0 <= i < |steps| ==> steps[i] == ForwardSteps(|outputs|, t, i)
    ensures |outputs| == 0 ==> hidden == None
    ensures |outputs| > 0 ==>
              hidden == Some(Final(step, init(|outputs| - 1),
                                   outputs[|outputs| - 1..ForwardStop(|outputs|, t, |outputs| - 1)]))
  {
    var n := |outputs|;
    dp := seq(n, _ => seq(n, _ => Zero));
    steps := [];
    hidden := None;
    var i := 0;
    while i < n
      invariant 0 <= i <= n
      invariant IsSquare(dp, n)
      invariant forall r, c :: 0 <= r < i && 0 <= c < n ==> dp[r][c] == ForwardCell(step, init, outputs, t, r, c)
      invariant forall r, c :: i <= r < n && 0 <= c < n ==> dp[r][c] == Zero
      invariant |steps| == i
      invariant forall r :: 0 <= r < i ==> steps[r] == ForwardSteps(n, t, r)
      invariant i == 0 ==> hidden == None
      invariant i > 0 ==> hidden == Some(Final(step, init(i - 1), outputs[i - 1..ForwardStop(n, t, i - 1)]))
    {
      var count, h;
      dp, count, h := ForwardRun(step, init, outputs, t, dp, i);
      steps := steps + [count];
      hidden := Some(h);
      i := i + 1;
    }
  }

  /** One end index of the backward sweep: a fresh state `init(i)` steps over
      outputs[i], outputs[i-1], ... for at most t tokens, writing each output
      into column i, which the sweep finds still zero. Nothing outside column
      i changes. */
  method BackwardRun<S, V, O>(step: (S, V) -> (O, S), init: nat -> S, outputs: seq<V>, t: int,
                              dp: Table<Cell<O>>, i: nat)
    returns (dp': Table<Cell<O>>, count: int, h: S)
    requires i < |outputs| && IsSquare(dp, |outputs|)
    requires forall r :: 0 <= r < |outputs| ==> dp[r][i] == Zero
    ensures IsSquare(dp', |outputs|)
    ensures forall r, c :: 0 <= r < |outputs| && 0 <= c < |outputs| && c != i ==> dp'[r][c] == dp[r][c]
    ensures forall r :: 0 <= r < |outputs| ==> dp'[r][i] == BackwardCell(step, init, outputs, t, r, i)
    ensures count == BackwardSteps(t, i)
    ensures h == Final(step, init(i), BackInputs(outputs, BackwardStop(t, i), i))
  {
    var n := |outputs|;
    dp' := dp;
    h := init(i);
    var stop := Max(-1, i - t);
    var j := i;
    while j > stop
      invariant Min(i, stop) <= j <= i
      invariant h == Final(step, init(i), BackInputs(outputs, j + 1, i))
      invariant IsSquare(dp', n)
      invariant forall r, c :: 0 <= r < n && 0 <= c < n && c != i ==> dp'[r][c] == dp[r][c]
      invariant forall r :: 0 <= r < n ==> dp'[r][i] == if r > j then BackwardCell(step, init, outputs, t, r, i) else Zero
    {
      var res := step(h, outputs[j]);
      BackInputsExtend(outputs, j, i);
      TraceSnoc(step, init(i), BackInputs(outputs, j + 1, i), outputs[j]);
      assert Seg(res.0) == BackwardCell(step, init, outputs, t, j, i);
      dp' := dp'[j := dp'[j][i := Seg(res.0)]];
      h := res.1;
      j := j - 1;
    }
    count := i - j;
  }

  /** The backward sweep. For each end i it draws a fresh state, steps over
      outputs[i], outputs[i-1], ... for at most t tokens and writes each step's
      output into (j, i). */
  method BackwardSweep<S, V, O>(step: (S, V) -> (O, S), init: nat -> S, outputs: seq<V>, t: int)
    returns (dp: Table<Cell<O>>, steps: seq<int>, hidden: Option<S>)
    ensures IsSquare(dp, |outputs|)
    ensures forall j, i :: 0 <= j < |outputs| && 0 <= i < |outputs| ==>
              dp[j][i] == BackwardCell(step, init, outputs, t, j, i)
    ensures |steps| == |outputs|
    ensures forall i :: 0 <= i < |steps| ==> steps[i] == BackwardSteps(t, i)
    ensures |outputs| == 0 ==> hidden == None
    ensures |outputs| > 0 ==>
              hidden == Some(Final(step, init(|outputs| - 1),
                                   BackInputs(outputs, BackwardStop(t, |outputs| - 1), |outputs| - 1)))
  {
    var n := |outputs|;
    dp := seq(n, _ => seq(n, _ => Zero));
    steps := [];
    hidden := None;
    var i := 0;
    while i < n
      invariant 0 <= i <= n
      invariant IsSquare(dp, n)
      invariant forall r, c :: 0 <= r < n && 0 <= c < i ==> dp[r][c] == BackwardCell(step, init, outputs, t, r, c)
      invariant forall r, c :: 0 <= r < n && i <= c < n ==> dp[r][c] == Zero
      invariant |steps| == i
      invariant forall r :: 0 <= r < i ==> steps[r] == BackwardSteps(t, r)
      invariant i == 0 ==> hidden == None
      invariant i > 0 ==> hidden == Some(Final(step, init(i - 1), BackInputs(outputs, BackwardStop(t, i - 1), i - 1)))
    {
      var count, h;
      dp, count, h := BackwardRun(step, init, outputs, t, dp, i);
      steps := steps + [count];
      hidden := Some(h);
      i := i + 1;
    }
  }

  /** Pairs the two tables cell by cell: the concatenation along the feature
      axis, so every cell carries a forward and a backward part. */
  function Pair<C>(f: Table<C>, b: Table<C>, n: nat): Table<(C, C)>
    requires IsSquare(f, n) && IsSquare(b, n)
  {
    seq(n, r requires 0 <= r < n => seq(n, c requires 0 <= c < n => (f[r][c], b[r][c])))
  }

  /** The whole builder: both sweeps, the cell-wise pairing and the
      upper-triangular selection, which reads the paired cells in the order
      of the index list. The k-th segment belongs to the k-th span of
      the row-major triangle and carries that span's forward and backward
      cells; a span longer than T is still listed, with both parts
      `Zero`, and every other span (at most T tokens) has both parts
      written. The hidden summary is the pair of states left by the last
      forward and the last backward run. An empty sentence is excluded:
      `Encoder.segment_rnn` then reaches the return with both hidden states
      unbound. */
  method SegmentRnn<S, V, O>(step: (S, V) -> (O, S), initForward: nat -> S, initBackward: nat -> S,
                             outputs: seq<V>, t: int)
    returns (segments: seq<(Cell<O>, Cell<O>)>, hidden: (S, S))
    requires |outputs| >= 1
    ensures |segments| == |outputs| * (|outputs| + 1) / 2
    ensures |segments| == |Triu.Indices(|outputs|)|
    ensures forall k :: 0 <= k < |segments| ==>
              var (i, j) := Triu.Indices(|outputs|)[k];
              && i <= j < |outputs|
              && segments[k] == (ForwardCell(step, initForward, outputs, t, i, j),
                                 BackwardCell(step, initBackward, outputs, t, i, j))
    ensures forall k :: 0 <= k < |segments| ==>
              var (i, j) := Triu.Indices(|outputs|)[k];
              segments[k] == (Zero, Zero) <==> j - i >= t
    ensures forall k :: 0 <= k < |segments| ==>
              var (i, j) := Triu.Indices(|outputs|)[k];
              segments[k].0.Seg? && segments[k].1.Seg? <==> j - i < t
    ensures hidden.0 == Final(step, initForward(|outputs| - 1),
                              outputs[|outputs| - 1..ForwardStop(|outputs|, t, |outputs| - 1)])
    ensures hidden.1 == Final(step, initBackward(|outputs| - 1),
                              BackInputs(outputs, BackwardStop(t, |outputs| - 1), |outputs| - 1))
  {
    var n := |outputs|;
    var forward, _, hiddenForward := ForwardSweep(step, initForward, outputs, t);
    var backward, _, hiddenBackward := BackwardSweep(step, initBackward, outputs, t);
    var dp := Pair(forward, backward, n);
    var idx := Triu.Indices(n);
    Triu.IndicesSpec(n);
    segments := [];
    for k := 0 to |idx|
      invariant |segments| == k
      invariant forall m :: 0 <= m < k ==>
                  var (i, j) := idx[m];
                  && segments[m] == (ForwardCell(step, initForward, outputs, t, i, j),
                                     BackwardCell(step, initBackward, outputs, t, i, j))
                  && (segments[m] == (Zero, Zero) <==> j - i >= t)
                  && (segments[m].0.Seg? && segments[m].1.Seg? <==> j - i < t)
    {
      var (i, j) := idx[k];
      SpanWritten(step, initForward, initBackward, outputs, t, i, j);
      segments := segments + [dp[i][j]];
    }
    hidden := (hiddenForward.value, hiddenBackward.value);
  }

  /** Both halves of a span (i, j) with i <= j are written for the same spans:
      exactly those with j - i < T. */
  lemma SpanWritten<S, V, O>(step: (S, V) -> (O, S), initForward: nat -> S, initBackward: nat -> S,
                             outputs: seq<V>, t: int, i: nat, j: nat)
    requires i <= j < |outputs|
    ensures ForwardCell(step, initForward, outputs, t, i, j).Seg? <==> j - i < t
    ensures BackwardCell(step, initBackward, outputs, t, i, j).Seg? <==> j - i < t
  {
  }

  /** Sum of a sequence of step counts. */
  function Sum(s: seq<int>): int
  {
    if |s| == 0 then 0 else s[0] + Sum(s[1..])
  }

  lemma {:induction false} SumSnoc(s: seq<int>, x: int)
    ensures Sum(s + [x]) == Sum(s) + x
  {
    if |s| > 0 {
      assert (s + [x])[1..] == s[1..] + [x];
      SumSnoc(s[1..], x);
    }
  }

  lemma {:induction false} SumBounds(s: seq<int>, m: int)
    requires forall k :: 0 <= k < |s| ==> 0 <= s[k] <= m
    ensures 0 <= Sum(s) <= |s| * m
  {
    if |s| > 0 {
      SumBounds(s[1..], m);
    }
  }

  lemma {:induction false} SumReversed(s: seq<int>, r: seq<int>)
    requires |r| == |s|
    requires forall k :: 0 <= k < |s| ==> r[k] == s[|s| - 1 - k]
    ensures Sum(r) == Sum(s)
  {
    if |s| > 0 {
      var init := s[..|s| - 1];
      SumReversed(init, r[1..]);
      assert s == init + [s[|s| - 1]];
      SumSnoc(init, s[|s| - 1]);
    }
  }

  /** Work is bounded by the threshold, not by the table size: both sweeps
      take the same total number of steps, at most N * T of them. */
  lemma SweepWork(n: nat, t: int, forwardSteps: seq<int>, backwardSteps: seq<int>)
    requires |forwardSteps| == n && |backwardSteps| == n
    requires forall i :: 0 <= i < n ==> forwardSteps[i] == ForwardSteps(n, t, i)
    requires forall i :: 0 <= i < n ==> backwardSteps[i] == BackwardSteps(t, i)
    ensures Sum(forwardSteps) == Sum(backwardSteps)
    ensures 0 <= Sum(forwardSteps) <= n * Max(t, 0)
  {
    SumReversed(backwardSteps, forwardSteps);
    SumBounds(forwardSteps, Max(t, 0));
  }

  /** A whole forward row is one run from the row's own fresh state: cell
      (i, j) is the (j-i)-th output of running from `init(i)` over the row's
      full window, so no state is carried in from another start index. */
  lemma ForwardRowIsOneRun<S, V, O>(step: (S, V) -> (O, S), init: nat -> S, outputs: seq<V>, t: int,
                                    i: nat, j: nat)
    requires i <= j < |outputs| && j - i < t
    ensures i <= ForwardStop(|outputs|, t, i) <= |outputs|
    ensures ForwardCell(step, init, outputs, t, i, j)
            == Seg(Trace(step, init(i), outputs[i..ForwardStop(|outputs|, t, i)])[j - i])
  {
    var stop := ForwardStop(|outputs|, t, i);
    assert stop == Min(|outputs|, i + t) && j < stop;
    var window := outputs[i..stop];
    assert |window| == stop - i && j - i + 1 <= |window|;
    assert window[..j - i + 1] == outputs[i..j + 1];
    TracePrefix(step, init(i), window, j - i + 1);
    assert Trace(step, init(i), outputs[i..j + 1])[j - i] == Trace(step, init(i), window)[j - i];
  }

  /** A whole backward column is one run from the column's own fresh state. */
  lemma BackwardColumnIsOneRun<S, V, O>(step: (S, V) -> (O, S), init: nat -> S, outputs: seq<V>, t: int,
                                        j: nat, i: nat)
    requires j <= i < |outputs| && i - j < t
    ensures BackwardStop(t, i) <= j
    ensures BackwardCell(step, init, outputs, t, j, i)
            == Seg(Trace(step, init(i), BackInputs(outputs, BackwardStop(t, i), i))[i - j])
  {
    var low := BackwardStop(t, i);
    assert low == Max(0, i - t + 1) && low <= j;
    var window := BackInputs(outputs, low, i);
    assert window[..i - j + 1] == BackInputs(outputs, j, i);
    TracePrefix(step, init(i), window, i - j + 1);
    assert Trace(step, init(i), BackInputs(outputs, j, i))[i - j] == Trace(step, init(i), window)[i - j];
  }

  /** Raising the threshold never changes a cell that was written: it only
      writes cells that stayed `Zero` before. */
  lemma ThresholdOnlyExtends<S, V, O>(step: (S, V) -> (O, S), init: nat -> S, outputs: seq<V>,
                                      t: int, t': int, i: nat, j: nat)
    requires t <= t' && i < |outputs| && j < |outputs|
    ensures ForwardCell(step, init, outputs, t, i, j).Seg? ==>
              ForwardCell(step, init, outputs, t', i, j) == ForwardCell(step, init, outputs, t, i, j)
    ensures BackwardCell(step, init, outputs, t, i, j).Seg? ==>
              BackwardCell(step, init, outputs, t', i, j) == BackwardCell(step, init, outputs, t, i, j)
  {
  }
}
