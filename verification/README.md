# Segment-based encoder and phrase decoder (npmtplus), index and control model

This project models the index and control logic of the NP2MT translation
model in `main.py`, with every neural operation abstracted away:

- **Segment table builder** (`Encoder.segment_rnn`). It runs a forward sweep
  and a backward sweep of a recurrent cell over the contextual vectors of one
  sentence. Each sweep index starts from its own fresh state and takes at most
  max(T, 0) steps (T is the segment threshold). Each step's output is written into an
  N x N table. The two tables are paired cell by cell, and the
  upper-triangular cells are listed in row-major order.
  The recurrent cell is an arbitrary function `step(state, input) -> (out, state')`.
  The random initial states are arbitrary functions from the sweep index to a
  state. A table cell is `Zero` (the content the table is allocated with) or
  `Seg(out)` (a cell the sweep wrote).
- **Phrase decoder** (`Decoder.forward`). It enumerates the phrase candidates
  (start, phraseLen). It brackets each phrase with the start-of-phrase and
  end-of-phrase marker ids, which are parameters here. It walks the bracketed
  phrase and returns on its very first step. Attention, the weighted sum,
  the phrase recurrent cell and the output projection are one parameter,
  `predict`. Its result stands for the pair (prediction, hidden state) that
  the decoder returns.
- **Translation model** (`NP2MT.forward`). It allocates the zero output,
  runs the encoder and the decoder, and returns the zero output unchanged.

Modules: `Recurrence` (runs of the step function), `Triu` (the
upper-triangular index list), `SegmentTable`, `PhraseDecoder`, `Translation`,
`SmallCases` (concrete instances), and `Optional`.

Behaviour as written, which the model follows:
- An empty source sentence does not give an empty table. With N = 0 neither
  sweep binds its hidden state, and the return at `main.py:170` fails. The
  sweeps are modelled for every N (the hidden state is `None` when unbound).
  `SegmentRnn` requires N >= 1.
- A target of length 1 has no phrase candidate. `range(1, trg_len - start)`
  is empty for every start, so the decoder falls through and returns nothing.
  `NP2MT.forward` then fails to unpack that result, so `Translation.Forward`
  requires at least two target tokens.
- The last target position never ends a phrase: every candidate has
  start + phraseLen <= trg_len - 1.
- A bracketed phrase of length L has L + 2 positions, but the step loop
  visits only positions 0..L, so the end marker is never a step input. Because
  of the early return, only position 0 of candidate (0, 1) is ever visited.
- A span longer than T (j - i >= T) stays in the selected sequence, with both
  of its halves `Zero`; a span of exactly T tokens is written.
- A threshold T <= 0 is not rejected. Both sweeps then take no steps and
  every cell stays `Zero`.

## Model

| member | source | states |
|---|---|---|
| SegmentTable.ForwardSweep | main.py:136-151 | The forward table is N x N. Cell (i, j) holds the (j-i)-th output of a run of `step` from the fresh state for i over outputs[i..j] exactly when i <= j < min(N, i+T), and is `Zero` everywhere else. Start i takes min(N-i, T) steps (none when T <= 0). The returned hidden state is the one left by start N-1, and is unbound when N = 0. |
| SegmentTable.BackwardSweep | main.py:153-165 | The backward table is N x N. Cell (j, i) holds the (i-j)-th output of a run from the fresh state for i over outputs[i], outputs[i-1], ..., outputs[j] exactly when max(-1, i-T) < j <= i, and is `Zero` everywhere else. End i takes min(i+1, T) steps (none when T <= 0). The returned hidden state is the one left by end N-1. |
| SegmentTable.ForwardRun | main.py:140-151 | One forward start i, from its fresh state, on a row that is still all `Zero`: row i afterwards holds, at each j with i <= j < min(N, i+T), the (j-i)-th output of the run over outputs[i..j], and `Zero` elsewhere. It takes exactly min(N-i, T) steps (none when T <= 0) and leaves the state of the run over the whole window. No other row changes. |
| SegmentTable.BackwardRun | main.py:154-165 | One backward end i, from its fresh state, on a column that is still all `Zero`: column i afterwards holds, at each j with max(-1, i-T) < j <= i, the (i-j)-th output of the run over outputs[i] down to outputs[j], and `Zero` elsewhere. It takes exactly min(i+1, T) steps (none when T <= 0) and leaves the state of the run down to the window's lowest index. No other column changes. |
| SegmentTable.SpanWritten | main.py:141-155 | For a span (i, j) with i <= j < N, the forward sweep writes it exactly when j - i < T, and so does the backward sweep. The two tables agree on which spans carry a segment. |
| SegmentTable.SegmentRnn | main.py:133-170 | For N >= 1 there are exactly N(N+1)/2 segments. Segment k belongs to the k-th span (i, j) of the row-major triangle and is the pair (forward cell (i, j), backward cell (i, j)). A segment is (Zero, Zero) exactly when j-i >= T, and has both halves written exactly when j-i < T. The hidden summary is the pair of states left by the last forward run and the last backward run. |
| SegmentTable.SweepWork | main.py:139-165 | Summed over all sweep indices, the forward and backward step counts are equal, and each total is at most N * max(T, 0). The work is O(N·T), not O(N²). |
| SegmentTable.ForwardRowIsOneRun | main.py:139-151 | Every written cell of forward row i is an output of one single run from the fresh state for i over the row's window. No state is carried in from another start index. |
| SegmentTable.BackwardColumnIsOneRun | main.py:153-165 | Every written cell of backward column i is an output of one single run from the fresh state for i over outputs[i] down to the column's lowest index. |
| SegmentTable.ThresholdOnlyExtends | main.py:141-155 | Raising T never changes a cell that was already written. It only writes cells that were `Zero`. |
| Triu.IndicesSpec | main.py:168-169 | The selection list has N(N+1)/2 entries. It contains exactly the cells with i <= j < N, lists them in strictly increasing row-major order, and starts at (0, 0). |
| Triu.IndicesPosition | main.py:168-169 | Cell (i, j) with i <= j < N sits at position i*N - i(i-1)/2 + (j-i) of the selection list. |
| Recurrence.TraceSnoc | main.py:140-151 | A run over one more input appends exactly the output the step produces from the state reached so far. So a loop that keeps only the current state yields the run's outputs. |
| Recurrence.BackInputsIsReverse | main.py:155-158 | The inputs of the backward run from end i down to j are the slice outputs[j..i] reversed. |
| Recurrence.TracePrefix | main.py:141-151 | The outputs of a run over a prefix are a prefix of the run's outputs. A cell never depends on inputs the run reaches later. |
| PhraseDecoder.CandidatesSpec | main.py:257-261 | Every candidate has phraseLen >= 1 and end = start + phraseLen <= trg_len - 1, so the target-side output at `end` is in range. Every such pair is a candidate. Candidates come in row-major order, and there are trg_len(trg_len-1)/2 of them. There are none exactly when trg_len <= 1; otherwise the first is (0, 1). |
| PhraseDecoder.PhraseWalk | main.py:273-282 | The bracketed phrase of length L has L + 2 positions: the start marker, the L content tokens, the end marker. The step loop reads positions 0, 1, ..., L in order, every one below the end-marker slot, so the tokens fed to the phrase recurrence are exactly the start marker followed by the L content tokens. |
| PhraseDecoder.DecoderForward | main.py:237-292 | The decoder returns nothing exactly when there is no candidate, that is, when trg_len <= 1. Otherwise it returns the prediction for position 0 of the first candidate, that is, for the start marker with the target-side output at position 1. |
| Translation.Forward | main.py:303-324 | For a non-empty source and a target of at least two tokens, the result is the all-zero trg_len x batch x vocab tensor, whatever the encoder and decoder compute. |
| SmallCases.ThreeTokenSegments | main.py:168-169 | Three tokens give the six spans (0,0), (0,1), (0,2), (1,1), (1,2), (2,2), in that order. |
| SmallCases.FourTokensThresholdTwo | main.py:139-165 | With N = 4 and T = 2, the spans (0,2), (0,3) and (1,3) keep both halves `Zero`, and span (1,2) has both halves written. |
| SmallCases.SmallTargets | main.py:257-258 | A one-token target has no candidate. A three-token target has the candidates (0,1), (0,2), (1,1). |

## Left out

- The recurrent cells, embeddings, linear layers and dropout. They are floating-point numerics of the tensor library. The segment recurrent cell is the parameter `step`. The encoder's embedding and bidirectional pass are the parameter `sourceOutputs`, and the decoder's target-side pass is `targetStates`.
- `Attention.forward` (tanh, affine map, softmax), the `torch.bmm` weighting and the `permute` calls in the decoder. These are float arithmetic and tensor layout. Together with the phrase recurrent cell and `fc_out`, they are folded into the parameter `predict`.
- `torch.randn` initial states. Each sweep index gets an arbitrary state from the parameters `initForward` and `initBackward`; randomness is not modelled.
- Numeric zeros in written cells. The model keeps `Seg(out)` distinct from `Zero` even when `out` is numerically the zero vector. That is what makes "which cells are written" observable.
- The batch dimension. The model treats one sentence; the batch size appears only in the shape of the output tensor.
- Translation.Forward: does not model the failure for a batch of one. Then `squeeze(0)` at main.py:261 also drops the batch axis, so the decoder state has shape [H]. `unsqueeze(1).repeat(1, S, 1)` at main.py:193 turns it into [1, H·S, 1], which the concatenation at main.py:200 cannot join with the [1, S, 2·segment_dim] segments unless H = 1. With the shipped hidden width of 10 (main.py:90), every batch of one raises there. This is a tensor-shape failure of the numeric layers, which the model abstracts away.
- The encoder hidden state handed to the decoder. The decoder never uses it: its phrase recurrent cell starts from the library's default state.
- Data and vocabulary setup, tokenisation, dataset loading and batching (main.py:33-84). These are foreign-library I/O. The marker ids are parameters, not global vocabulary lookups.
- Training and evaluation loops, loss, gradient clipping, optimiser, `init_weights`, checkpoint save/load, `epoch_time`, device placement and printing. These are orchestration, timing and I/O.
