# Smith-Waterman token alignment, edit labels, padding and aligned n-grams

A Dafny model of `alignment.py`, which aligns a reference token list with a hypothesis token
list. It has one aligner and three consumers:

- **The aligner** (`smith_waterman_alignment`) fills a score matrix `H` and a backpointer
  matrix `bp`. It then picks a start cell and walks the backpointers back, emitting one
  aligned pair per step: `(ref token | eps, hyp token | eps, refi_from, hypi_from, refi_to, hypi_to)`.
  - In full-hypothesis mode, the walk starts in the last hypothesis column. It runs while the
    hypothesis index is positive, but it stops at the first cell whose backpointer is the
    unset `(0,0)`. That cell gives one last record from the origin, or none when it scores 0
    (line 127). So for a general scorer the records need not start at the first hypothesis
    token. Full coverage of the hypothesis is proved for the fixed scorer only
    (`FixedScorer.FixedAlignment`).
  - In local mode, the walk starts at the best cell anywhere and stops on a zero score.
- **The edit labeller** (`get_edit_type`, `align_and_calc_edit_types`) labels each pair of
  the fixed-scorer alignment "cor", "sub", "ins" or "del". The fixed scorer gives +2 for a
  match and -1 for a mismatch, a deletion and an insertion, in full-hypothesis mode.
- **The padder** (`padded_alignments`) adds a synthetic `(ref[i], eps)` record for every
  reference position left of where the alignment starts and right of where it ends.
- **The n-gram extractor** (`calc_aligned_ngram_tuples`) groups the padded records by
  `refi_from`. For every order and every reference window it yields a pair: a slice of the
  hypothesis, and the reference n-gram. The slice runs from the `hypi_from` of the window's
  first record through the `hypi_from` of its last record. That is not always the set of
  hypothesis tokens the window's records align. A padding or deletion record aligns no
  hypothesis token, yet it contributes the token at its `hypi_from` (see "## Findings").

The modules follow the program's structure:

| module | file | contents |
|---|---|---|
| `Wrappers`, `Records` | wrappers.dfy, records.dfy | `Option`/`Result`, the `Alignment` record, one `Fault` per place the source raises |
| `Matrix` | matrix.dfy | one cell of `H`/`bp` as a recursive function `Cell(m, n)`; the filled matrices `Scores`/`Backs` |
| `Terminal` | terminal.dfy | the running maximum that picks the start cell |
| `Traceback` | traceback.dfy | the traceback as a recursive function, and the whole aligner `Align` as a pure function |
| `Aligner` | aligner.dfy | the source's loops: rows initialised then overwritten, a running maximum, a traceback that appends then reverses; each method is proved equal to the pure functions |
| `FixedScorer` | fixedscorer.dfy | facts about the 2/-1/-1/-1 full-hypothesis scorer |
| `Edits` | edits.dfy | `get_edit_type` and `align_and_calc_edit_types` |
| `Padding` | padding.dfy | `padded_alignments` |
| `Ngrams` | ngrams.dfy | `calc_aligned_ngram_tuples`, as written and with the hypothesis n-gram corrected |
| `NgramExample` | finding.dfy | a two-token input on which line 272 misreads the hypothesis side |
| `EditExample` | editexample.dfy | a three-token input whose middle pair is a substitution, labelled end to end |

Modelling choices:

- Tokens are a generic type `T`.
- The `eps` symbol is a parameter. The consumers pass `"|"` in the source.
- The similarity function is a parameter `(T, T) -> int`.
- The `-inf` of `max_score` is `None`.
- Every place that raises returns a `Failure` instead:
  - the `RuntimeError` of the traceback;
  - the assertion of line 170;
  - `alignments[0]` on an empty output;
  - the bucket assertion;
  - `ngram[0]` on an empty window.
- A generator is modelled as the list it yields. The first raise makes the whole result a
  `Failure`.
- `Ngrams.Extract` is the body of `calc_aligned_ngram_tuples`. It takes the reading of the
  hypothesis n-gram as a parameter:
  - `Ngrams.CalcAlignedNgramTuples` passes the reading of line 272;
  - `Ngrams.AlignedNgramTuples` passes the corrected reading, namely the hypothesis tokens
    that the window's records align.

Where the source's behaviour is easy to misread, the model follows the code:

- **Column 0 in full-hypothesis mode.** Line 59 resets `H[m][0]` to 0 in full-hypothesis
  mode. So column 0 is 0 in both modes, and leading reference tokens cost nothing. Column 0
  does not hold the large negative initial value.
- **Empty input.** In full-hypothesis mode, an empty reference or hypothesis gives no
  records and a `-inf` score, not an all-deletion alignment. So `padded_alignments` and
  `calc_aligned_ngram_tuples` raise at `alignments[0]` on empty input. In local mode, empty
  input fails the assertion of line 170.
- **Right padding.** Line 248 takes the last record's `refi_from`, not its `refi_to`, as the
  boundary for right padding. Under the fixed scorer this is exact:
  - `Padding.PadRef` and `Padding.PaddedShape` prove that the padded list spells out the
    whole reference, with no token missing or repeated, when `eps` is not a token.
  - The step that makes this work is `FixedScorer.NoEarlyInsertion`: the traceback never
    starts on an insertion above the last reference row.

## Model

| member | source | states |
|---|---|---|
| Records.Reverse | alignment.py:172 | the reversed list has the same length and holds element `len(s)-1-i` at position `i` |
| Matrix.Relax | alignment.py:78-107 | the three guarded updates of one interior cell; it has no contract of its own, and `Matrix.RelaxChoice` characterises its result |
| Matrix.RelaxChoice | alignment.py:78-107 | an interior cell scores the maximum of the floor and the three candidates; the backpointer is the insertion iff it beats all others strictly, the deletion iff it beats the floor and diagonal strictly and is not beaten by the insertion, the diagonal when accepted and not beaten, and otherwise stays the unset `(0,0)` on the floor |
| Matrix.Cell | alignment.py:54-107 | the final `H[m][n]` and `bp[m][n]` as a recursion over the cell's neighbours; it has no contract of its own, and `Matrix.Boundary`, `Matrix.CellShape` and `Matrix.FilledStep` state what it holds |
| Matrix.Boundary | alignment.py:56-67 | column 0 is `(0, (0,0))` in both modes; in full-hypothesis mode the top row is `n * ins_score` with backpointer `(0, n-1)`; in local mode every boundary cell is `(0, (0,0))` |
| Matrix.CellShape | alignment.py:76-107 | every backpointer is `(0,0)` or one of the three moves into its cell; in local mode no cell is negative |
| Matrix.FilledStep | alignment.py:76-107 | read off the filled matrices, interior cell `(m, n)` is the relaxation of its three neighbours' final scores |
| Matrix.FilledShape | alignment.py:54-107 | the filled matrices have `H[0][0] == 0`, only neighbour or unset backpointers, and no negative score in local mode |
| Terminal.Scan | alignment.py:73-113 | the running `(max_score, max_score_element)` after each cell of the fill loop; it has no contract of its own, and `Terminal.ScanMeetsSpec` characterises it |
| Terminal.ScanMeetsSpec | alignment.py:73-113 | after any cell of the fill loop, the running maximum is `-inf` exactly when no eligible cell was seen, and is otherwise the last seen eligible cell of maximal score |
| Terminal.StartCell | alignment.py:73-115 | the score stays `-inf` iff an input is empty; otherwise the start cell is eligible (last hypothesis column in full-hypothesis mode), holds the returned score, no eligible cell scores more, and every eligible cell visited later scores strictly less |
| Traceback.Trace | alignment.py:120-168 | the traceback raises nothing but the `RuntimeError`, and every record it emits ends inside the rectangle from the origin to its start cell |
| Traceback.TraceStep | alignment.py:120-163 | one loop step over a backpointer that is a real move emits the record of that move after the records traced from the neighbour |
| Traceback.TraceIsChain | alignment.py:120-168 | over neighbour-only backpointers, the traceback terminates and never raises; its records link up, are moves (the first may come straight from the origin) and end at the start cell |
| Traceback.LocalTraceEndsOnZero | alignment.py:120-170 | in local mode over non-negative scores, the traceback ends on score 0, so the assertion of line 170 holds |
| Traceback.Align | alignment.py:17-189 | the aligner raises only the traceback's `RuntimeError` or, in local mode, the assertion of line 170; every returned record ends inside the `(len(ref)+1) x (len(hyp)+1)` matrix |
| Traceback.AlignOutcome | alignment.py:17-189 | full-hypothesis mode never fails; local mode fails iff an input is empty; the returned score is the start cell's; an empty input gives no records and `-inf` |
| Traceback.AlignIsChain | alignment.py:115-172 | the records of every aligner result link up and end at the start cell; each is a move into its cell, except that the first may come straight from the origin and so skip tokens on either side |
| Traceback.NeverBothEps | alignment.py:124-157 | no record has `eps` on both sides when `eps` is not a token |
| Aligner.InitialRow | alignment.py:56-67 | the row built by the initialisation loop holds each cell's initial value and backpointer |
| Aligner.InitialMatrices | alignment.py:46-71 | the initialised matrices are the initial values cell by cell |
| Aligner.RelaxCell | alignment.py:78-107 | the three guarded updates leave the cell's final score and backpointer |
| Aligner.TrackBest | alignment.py:109-113 | the running-maximum update after cell `(i, j)` equals the scan up to `(i, j)` |
| Aligner.FillRow | alignment.py:76-113 | overwriting one initialised row gives the final row of `H` and `bp` and advances the running maximum over the row |
| Aligner.FillMatrices | alignment.py:46-113 | the nested loops leave exactly the final `H` and `bp` and the start cell |
| Aligner.TraceBack | alignment.py:115-172 | the loop that appends end-to-start and then reverses returns the start-to-end traceback, or the `RuntimeError` where it would raise |
| Aligner.SmithWatermanAlignment | alignment.py:17-189 | the whole imperative aligner returns exactly the pure aligner's records and score, or its failure |
| FixedScorer.FixedRelax | alignment.py:78-107 | under the fixed scorer an interior cell stays within `-n .. 2*min(m, n)` and points along a real move |
| FixedScorer.FixedBounds | alignment.py:76-107 | under the fixed scorer every cell scores between `-n` and `2*min(m, n)`, so the diagonal always clears the floor `-(len(hyp)+2)` |
| FixedScorer.FixedInterior | alignment.py:78-107 | the bounds carry from three neighbours to the cell, whose backpointer is a real move |
| FixedScorer.FixedStep | alignment.py:76-107 | every cell with `n >= 1` points along a real move, and an unset one never scores 0 |
| FixedScorer.WalkTrace | alignment.py:120-163 | a full-hypothesis traceback over such matrices never raises, emits at least one record, all moves, linked, starting at hypothesis index 0 and ending at the start cell |
| FixedScorer.WalkHyp | alignment.py:120-163 | that traceback's hypothesis side is exactly `hyp[..n]` when `eps` is not a hypothesis token |
| FixedScorer.FixedAlignment | alignment.py:207-218 | the fixed-scorer aligner on non-empty inputs succeeds with linked moves from hypothesis index 0 to `len(hyp)`; its hypothesis side is all of `hyp`; a final insertion happens only at the last reference row |
| FixedScorer.BelowInsertion | alignment.py:93-107 | in the last column, the cell below one whose backpointer is an insertion scores at least as much |
| FixedScorer.NoEarlyInsertion | alignment.py:109-113 | the start cell's backpointer is an insertion only on the last reference row, because the `>=` of line 111 lets the cell below win |
| FixedScorer.IdentityCell | alignment.py:76-107 | aligning a sequence with itself, diagonal cell `(i, i)` scores `2i` and points back along the diagonal |
| FixedScorer.IdentityStart | alignment.py:109-115 | aligning a sequence with itself, the start cell is the corner with score `2 * len(s)` |
| FixedScorer.IdentityTrace | alignment.py:120-172 | aligning a sequence with itself, the traceback from `(i, i)` is the diagonal and ends on score 0 |
| FixedScorer.IdentityAlignment | alignment.py:207-218 | a non-empty sequence aligned with itself gives exactly one matching pair per token and score `2 * len(s)` |
| Edits.GetEditType | alignment.py:194-204 | "cor" iff the two sides agree; otherwise "ins" iff the reference side is `eps`, "del" iff only the hypothesis side is, "sub" iff neither is |
| Edits.Labels | alignment.py:220 | one label per aligned pair, in order; `Edits.MoveLabel` and `Edits.LabelsCountHyp` relate the labels to the moves |
| Edits.AlignAndCalcEditTypes | alignment.py:207-221 | `align_and_calc_edit_types` never raises, and it returns no labels exactly when an input is empty |
| Edits.MoveLabel | alignment.py:194-204 | on a move, "ins" iff the move keeps the reference index, "del" iff it keeps the hypothesis index, "cor"/"sub" iff it is diagonal |
| Edits.LabelsCountHyp | alignment.py:220 | over a run of moves, the labels other than "del" are as many as the hypothesis tokens on the run's hypothesis side |
| Edits.EditTypesCoverHyp | alignment.py:207-221 | no labels iff an input is empty; otherwise, with `eps` not a token, the labels other than "del" are exactly `len(hyp)` in number |
| Edits.IdentityEdits | alignment.py:207-221 | a non-empty sequence labelled against itself is "cor" throughout |
| Padding.LeftPad | alignment.py:245-247 | the left padding has one record per position before `start`; it adds nothing to the hypothesis side, and its reference side is `ref[..start]` when `eps` is not a reference token |
| Padding.RightPad | alignment.py:248-252 | the right padding is empty once `end + 1 >= len(ref)`; it adds nothing to the hypothesis side, and its reference side is `ref[end+1..]` when `eps` is not a reference token |
| Padding.Pad | alignment.py:244-253 | padding leaves the hypothesis side of the aligner's records unchanged |
| Padding.PaddedAlignments | alignment.py:233-254 | `padded_alignments` raises exactly when an input is empty, and then at `alignments[0]` |
| Padding.MovesCover | alignment.py:243-248 | a linked run of moves never decreases `refi_from` and takes every value from the first record's to the last's |
| Padding.MovesRefSide | alignment.py:243-248 | a linked run of moves spells, on its reference side, exactly the reference tokens between its first `refi_from` and its last `refi_to` |
| Padding.PadRefSide | alignment.py:244-253 | padding a run whose reference side is `ref[start..M]`, and which ends on a step into `M` or at `M == len(ref)`, gives all of `ref` |
| Padding.PadRef | alignment.py:244-253 | padding a linked run of moves that does not end on an insertion short of the last reference token gives all of `ref` on the reference side |
| Padding.PadCovers | alignment.py:244-253 | after padding, every reference position is the `refi_from` of some record, and `refi_from` never decreases |
| Padding.PadParts | alignment.py:244-253 | the padded list has `start + len(recs) + max(0, len(ref) - end - 1)` records; the aligner's records sit unchanged after the left padding; before them, record `i` is `(ref[i], eps, i, 0, None, None)`; after them, record `end + 1 + j` is `(ref[end+1+j], eps, end+1+j, len(hyp), None, None)` |
| Padding.PadKeeps | alignment.py:244-253 | everything `Padding.PadParts` states, and the padded hypothesis side equals the aligner's |
| Padding.PadBounded | alignment.py:244-253 | every padded record starts at a reference position no greater than `len(ref)` |
| Padding.PaddedOutcome | alignment.py:233-254 | `padded_alignments` fails iff an input is empty (at `alignments[0]`); otherwise it is the padding of the aligner's records |
| Padding.PaddedShape | alignment.py:233-254 | on non-empty inputs every reference position has a record, `refi_from` is sorted, the hypothesis side is `hyp`, and the reference side is `ref` (each when `eps` is not a token) |
| Padding.PaddedIdentity | alignment.py:233-254 | a non-empty sequence padded against itself needs no padding: the result is the diagonal |
| Padding.PadDiagonal | alignment.py:244-253 | padding the diagonal of a non-empty sequence adds nothing on either side |
| Ngrams.BucketMembers | alignment.py:262-264 | a bucket holds only records of the list at its position, and every record of the list at that position |
| Ngrams.BucketNonEmpty | alignment.py:262-266 | a bucket is non-empty iff some record starts at its position |
| Ngrams.BucketNone | alignment.py:262-264 | a position at which no record starts has an empty bucket |
| Ngrams.BucketConcat | alignment.py:263-264 | the bucket of `a + b` is the bucket of `a` followed by the bucket of `b`: records are appended in list order |
| Ngrams.BucketFirst | alignment.py:262-264 | the first record of a bucket is the first record of the list at that position (what `ngram[0]` reads) |
| Ngrams.BucketLast | alignment.py:262-264 | the last record of a bucket is the last record of the list at that position (what `ngram[-1]` reads) |
| Ngrams.GatherMembers | alignment.py:270 | a gathered window holds only records of the list whose `refi_from` lies in the window, and every such record |
| Ngrams.GatherOrdered | alignment.py:270 | a gathered window is ordered by `refi_from`, bucket by bucket |
| Ngrams.GatherNone | alignment.py:270 | a window in which no record starts gathers nothing |
| Ngrams.GatherDropFront | alignment.py:270 | records in front that start outside the window do not change what the window gathers |
| Ngrams.GatherCons | alignment.py:270 | gathering from the first record's own position puts that record first |
| Ngrams.GatherAll | alignment.py:262-270 | a list sorted by `refi_from`, all inside the window, is gathered back unchanged |
| Ngrams.GatherBack | alignment.py:270 | widening a window by one position appends that position's bucket |
| Ngrams.SliceContents | alignment.py:271-272 | the clamped slice is `s[lo:hi]` when the bounds fit, `s[lo:min(hi, len(s))]` whenever `lo < hi` and `lo < len(s)`, and empty otherwise |
| Ngrams.Window | alignment.py:270-273 | one window raises (at `ngram[0]`) exactly when no record starts inside it |
| Ngrams.Level | alignment.py:269-273 | the inner loop raises only at `ngram[0]`, and otherwise yields `len(ref) - o + 1 - k` tuples from window `k` on (none once the window runs past the reference) |
| Ngrams.Levels | alignment.py:268-273 | the outer loop raises only at `ngram[0]` |
| Ngrams.CalcAlignedNgramTuples | alignment.py:257-273 | `calc_aligned_ngram_tuples` raises exactly when an input is empty, and then at `alignments[0]` |
| Ngrams.AlignedNgramTuples | alignment.py:257-273 | the corrected extractor raises exactly where the original does |
| Ngrams.BucketsAlwaysFilled | alignment.py:262-266 | the assertion of line 266 always holds |
| Ngrams.CoversBuckets | alignment.py:262-266 | over a list with a record at every reference position, every position's bucket is non-empty |
| Ngrams.GatherHead | alignment.py:270-271 | a window whose first position has records gathers that bucket's first record first |
| Ngrams.GatherTail | alignment.py:270-272 | a window whose last position has records gathers that bucket's last record last |
| Ngrams.GatherEnds | alignment.py:270-272 | over a window whose end positions have records, the gather is non-empty and runs from the first record at the window's first position to the last record at its last position |
| Ngrams.WindowValue | alignment.py:270-273 | such a window yields the hypothesis n-gram read from those two records, next to the clamped reference slice `ref[k:k+o]` |
| Ngrams.SelfWindowHyp | alignment.py:272 | when every record sits on the diagonal, line 272 reads `s[k:k+o]` |
| Ngrams.WindowRef | alignment.py:270-273 | over a covering list, every window succeeds and its reference n-gram is `ref[k..k+o]`; for a list aligned with itself the hypothesis n-gram is the same |
| Ngrams.SliceSpanWindow | alignment.py:270-273 | over a covering list, window `(o, k)` yields `hyp[F.hypi_from : L.hypi_from + 1]` next to `ref[k:k+o]`, where `F` is the first record at `k` and `L` the last record at `k + o - 1` |
| Ngrams.LevelRef | alignment.py:269-273 | over a covering list, the inner loop yields exactly the reference n-grams of order `o`, in order, each next to its window's hypothesis n-gram |
| Ngrams.LevelsRef | alignment.py:268-273 | over a covering list, the outer loop yields exactly the reference n-grams of every order, shortest first, each next to its window's hypothesis n-gram |
| Ngrams.RefLevel | alignment.py:269 | there are `len(ref) - o + 1` windows of order `o` (none when `o > len(ref)`) |
| Ngrams.ExtractOutcome | alignment.py:257-273 | under either reading of the hypothesis n-gram, the extractor raises exactly when an input is empty; otherwise the padded list covers the reference, the reference sides are all n-grams of orders 1 to `order` in order, and each hypothesis side is its window's hypothesis n-gram |
| Ngrams.NgramTuples | alignment.py:257-273 | `calc_aligned_ngram_tuples` fails iff an input is empty; otherwise its reference n-grams are all of `ref`'s n-grams of orders 1 to `order`, in order, and each hypothesis n-gram is `hyp[F.hypi_from : L.hypi_from + 1]` over the window's first and last padded records |
| Ngrams.IdentityNgrams | alignment.py:257-273 | a non-empty sequence against itself pairs every reference n-gram with itself |
| Ngrams.AlignedUnigrams | alignment.py:268-273 | under the corrected reading, the unigram hypothesis sides from window `k` on, joined, are the hypothesis tokens of the records gathered from `k` on |
| Ngrams.AlignedUnigramsCoverHyp | alignment.py:257-273 | under the corrected reading, with `eps` not a hypothesis token, the unigram hypothesis sides, joined and followed by the insertions after the last reference token, are exactly `hyp`; it raises exactly when an input is empty |
| NgramExample.ExampleAlign | alignment.py:17-189 | the fixed-scorer aligner on reference `[1, 2]` and hypothesis `[2]` returns the single match of `2` with score 2 |
| NgramExample.ExamplePadded | alignment.py:233-254 | padding that alignment adds `(1, eps, 0, 0, None, None)` in front |
| NgramExample.ExampleTuples | alignment.py:257-273 | as written, the unigram tuples of that input are `([2], [1])` and `([2], [2])`: the hypothesis token 2 appears twice |
| NgramExample.ExampleAlignedTuples | alignment.py:257-273 | under the corrected reading, the unigram tuples are `([], [1])` and `([2], [2])`: the padded pairs, one per reference position |
| EditExample.ExampleEditAlign | alignment.py:17-189 | the fixed-scorer aligner on reference `[1, 2, 3]` and hypothesis `[1, 9, 3]` pairs the tokens along the diagonal, with score 3 |
| EditExample.ExampleEdits | alignment.py:207-221 | `align_and_calc_edit_types([1, 2, 3], [1, 9, 3])` is `["cor", "sub", "cor"]` |

## Findings

| source | as written | input that shows it | evidently intended | confidence | as-written member | corrected member |
|---|---|---|---|---|---|---|
| alignment.py:272 | the hypothesis n-gram is `hyp_tok[ngram[0].hypi_from : ngram[-1].hypi_from + 1]`; a padding or deletion record aligns no hypothesis token, yet it contributes the token at its `hypi_from` | reference `[1, 2]`, hypothesis `[2]`, order 1: padding pairs `1` with `eps`, but the unigram tuples are `([2], [1])` and `([2], [2])` | each window's hypothesis n-gram is the hypothesis tokens its records align, so the unigrams repeat the padded pairs: `([], [1])` and `([2], [2])` | medium, not executed | NgramExample.ExampleTuples | Ngrams.AlignedUnigramsCoverHyp |

`NgramExample.ExampleAlignedTuples` shows the corrected reading on the same input. Joined, the
corrected unigram hypothesis sides give back `hyp`, apart from insertions after the last
reference token, which no window reaches (`Ngrams.AlignedUnigramsCoverHyp`). The reading as
written gives `[2, 2]` for the hypothesis `[2]`.

## Left out

- Logging (`logger.debug`, `logger.error`), `verbose_level` and the stderr matrix dump: diagnostics with no effect on results.
- The `__main__` demo and the unused imports: driver code.
- The `except` clause that re-raises as `RuntimeError`: the model returns `Inconsistent(m, n)` where the source raises. `Traceback.TraceIsChain` proves that point unreachable.
- Floating point: `-float("inf")` is only an unset sentinel, modelled as `None`. Scores are integers, as every scorer in the source is.
- Generator laziness: a consumer of the real generator sees the tuples before a raise; the model returns only the failure.
- The keys that a `defaultdict` lookup creates as a side effect: only bucket contents are modelled.
- `NamedTuple` machinery: `Alignment` is a plain datatype whose "to" indices are `Option<nat>`.
- Default arguments: every parameter is explicit, because every caller in the source passes its own values. The defaults are `eps_symbol="<eps>"` and `align_full_hyp=True` (alignment.py:19), `eps="-"` for `get_edit_type` (alignment.py:194), and `eps="|"` for `padded_alignments` (alignment.py:233).
- Matrix.Relax, Matrix.Cell, Terminal.Scan: these carry no `ensures` of their own. `Cell` and `Scan` are recursive, and `Relax` is unfolded inside `Cell`. Their contracts are stated by lemmas (`Matrix.RelaxChoice`, `Matrix.Boundary`, `Matrix.CellShape`, `Matrix.FilledStep`, `Terminal.ScanMeetsSpec`), which keeps every caller's proof small.
- Edits.EditTypesCoverHyp: counts labels against the hypothesis. The reference-side count follows from `Padding.MovesRefSide` but is not restated for labels.
- Ngrams.AlignedUnigramsCoverHyp: states the corrected reading for order 1 only. For longer n-grams, `Ngrams.ExtractOutcome` gives the hypothesis sides window by window, without a joined form.
- The character-level sentence of the `__main__` demo (alignment.py:276-300): no result is stated for it. The concrete inputs with proved results are the two-token input of `NgramExample` and the three-token input of `EditExample`.
