# Pairwise sequence alignment, modelled in Dafny

This project models the pairwise sequence aligner of the `amlg` repository
(`src/demos/pairwise_sequence_alignment_demo/alignment.py`). `make_align`
checks the alignment mode and returns an `align` closure. The closure
computes a global (Needleman-Wunsch) or local (Smith-Waterman) alignment of
two lists of string symbols. It does so in four steps:

- it initialises a scoring matrix and a pointer matrix;
- it fills both in row-major order with a three-way maximum;
- it picks a traceback start;
- it walks the pointers back and then reverses and shifts the collected lists.

The project has three files:

- `Sequences.dfy` holds list reversal and gap removal as functions.
- `AlignSpec.dfy` is the pure specification. It holds the captured
  configuration (`Aligner`) and the mode check (`MakeAligner`). `Score` and
  `Ptr` give the value of every cell after the fill, as recursive functions.
  `Walk` is the traceback as a recursive walk. `IsAlignment` and
  `AlignmentScore` define an alignment on their own, without the matrices.
  The lemmas relate all of these.
- `AlignImpl.dfy` is the imperative part. It has the two initialisers, the
  fill over `array2<int>`, the first-maximum search, the traceback
  `while` loop and `Align`. Each one is proved against the specification.

The main results:

- **Global mode.** Suppose the traceback succeeds. Then it is an alignment of
  all of `a` with all of `b`. Removing the `"-"` markers gives back both
  sequences. No alignment of `a` with `b` scores more
  (`GlobalTracebackOptimal`).
- **Local mode.** A traceback that starts at a maximal cell always succeeds.
  It aligns two contiguous slices and ends on a cell that scores 0. No
  alignment of any slices through interior cells scores more
  (`LocalTracebackOptimal`).
- **Written boundary codes.** These make the global traceback fail exactly
  when it would visit a row-0 or column-0 cell other than (0, 0)
  (`GlobalWalkFailsIffBoundary`).

Two places where the code does not do what its own comments say:

- The docstring of `_init_scoring_mat` (alignment.py:41-45) builds row 0
  from the cell to the left and column 0 from the cell above, which is an
  all-gap alignment along the boundary. Lines 81-82, however, write pointer 2
  into column 0 and pointer 1 into row 0. The traceback at lines 159-166 reads
  1 as "decrement i" and 2 as "decrement j", so on the boundary it moves
  along the wrong axis (see Findings).
- As a consequence, a global alignment against an empty sequence does not
  give the all-gap alignment. With `b` empty and `a` nonempty, the first step
  evaluates `seq_b[-1]` at line 165. With `a` empty and `b` nonempty, it
  evaluates `seq_a[-1]` at line 160.

## Model

| member | source | states |
|---|---|---|
| `AlignSpec.MakeAligner` | src/demos/pairwise_sequence_alignment_demo/alignment.py:32-35 | Construction succeeds exactly when the mode is "global" or "local". The scores are kept unchanged and are not checked. Any other mode gives the error "Invalid mode: " followed by the mode. |
| `AlignImpl.InitScoringMat` | src/demos/pairwise_sequence_alignment_demo/alignment.py:55-63 | The fresh matrix is (nA+1)×(nB+1) and its interior is 0. In global mode cell (k,0) and cell (0,k) hold k·gap. In local mode row 0 and column 0 are 0. |
| `AlignImpl.InitPtrMat` | src/demos/pairwise_sequence_alignment_demo/alignment.py:80-83 | The fresh matrix has 2 in column 0 and 1 in row 0. Row 0 is written last, so (0,0) holds 1. Every other cell holds 0. |
| `AlignSpec.Score` | src/demos/pairwise_sequence_alignment_demo/alignment.py:113-125 | Every local-mode cell is ≥ 0, because a negative maximum is clamped to 0. |
| `AlignSpec.Candidates` | src/demos/pairwise_sequence_alignment_demo/alignment.py:115-121 | The `trace` vector of an interior cell has exactly three entries: diagonal (match or mismatch), then the cell above plus gap, then the cell to the left plus gap. |
| `AlignSpec.Max3` | src/demos/pairwise_sequence_alignment_demo/alignment.py:122-123 | As `np.max`, the result is at least each of the three candidates and equal to one of them. |
| `AlignSpec.ArgMax3` | src/demos/pairwise_sequence_alignment_demo/alignment.py:127 | As `np.argmax` does, it returns the first index whose candidate equals the maximum. Every earlier candidate is strictly smaller. |
| `AlignSpec.Ptr` | src/demos/pairwise_sequence_alignment_demo/alignment.py:113-127 | An unclamped interior pointer selects the first candidate equal to the cell's score. A clamped local cell keeps pointer 0. Boundary pointers are 1 on row 0 and 2 on column 0; the intended convention has them the other way round. |
| `AlignImpl.Fill` | src/demos/pairwise_sequence_alignment_demo/alignment.py:113-127 | After the row-major fill of the initialised matrices, every cell equals the recursive `Score` and `Ptr`. The loop therefore computes the pure recurrence. |
| `AlignImpl.FillRow` | src/demos/pairwise_sequence_alignment_demo/alignment.py:114-127 | One pass of the inner loop fills row i+1 so that it equals `Score` and `Ptr`. The rows below stay at pointer 0. |
| `AlignImpl.FillCell` | src/demos/pairwise_sequence_alignment_demo/alignment.py:115-127 | Cell (i+1,j+1) gets `Score` and `Ptr`, computed from its three filled neighbours. Every other cell is unchanged. |
| `AlignImpl.FirstMaxCell` | src/demos/pairwise_sequence_alignment_demo/alignment.py:133-134 | It returns a cell that holds the matrix maximum. Every cell before it in row-major order is strictly smaller, as `np.argwhere(...)[0]` gives. |
| `AlignSpec.FirstMaxCellUnique` | src/demos/pairwise_sequence_alignment_demo/alignment.py:133-134 | Only one cell is the first maximal cell in row-major order. |
| `AlignImpl.FirstMaxOfFilled` | src/demos/pairwise_sequence_alignment_demo/alignment.py:133-134 | On the filled matrix, the cell `FirstMaxCell` returns is the first maximal cell of `Score`. |
| `AlignImpl.Traceback` | src/demos/pairwise_sequence_alignment_demo/alignment.py:144-174 | The `while` loop, followed by the reversals, returns exactly `Walk` from the start cell. A step that would drive an index below 0 is reported as an error. |
| `AlignSpec.Continues` | src/demos/pairwise_sequence_alignment_demo/alignment.py:149-151 | The loop condition. In global mode it holds at every cell except (0,0). In local mode it never holds on row 0 or column 0, whose scores are 0. |
| `AlignSpec.Walk` | src/demos/pairwise_sequence_alignment_demo/alignment.py:149-166 | Every step appends one entry to each of the four lists, so a successful walk returns four lists of equal length. |
| `AlignSpec.WalkIsAlignment` | src/demos/pairwise_sequence_alignment_demo/alignment.py:149-166 | A successful walk from (i,j) aligns a[ie..i) with b[je..j). Each column is a diagonal, a-only or b-only step. The walk ends at the first cell that fails the loop condition, which in global mode is (0,0). When no input symbol is "-", its score equals Score(i,j) − Score(ie,je). |
| `AlignSpec.WalkVisits` | src/demos/pairwise_sequence_alignment_demo/alignment.py:149-151 | Every visited cell satisfies the loop condition, so local mode visits only cells with score > 0. With the written codes, and in local mode, no visited cell lies on row 0 or column 0. |
| `AlignSpec.LocalWalkSucceeds` | src/demos/pairwise_sequence_alignment_demo/alignment.py:149-166 | The local traceback never fails and never indexes outside the sequences, from any start. |
| `AlignSpec.LocalTracebackOptimal` | src/demos/pairwise_sequence_alignment_demo/alignment.py:129-170 | From a maximal start cell (si,sj), the gap-free outputs are the contiguous slices a[ie..si) and b[je..sj), and Score(ie,je) = 0. The alignment's score equals the matrix maximum. No alignment of any slices through interior cells scores more. |
| `AlignSpec.LocalNoPositiveCellIsEmpty` | src/demos/pairwise_sequence_alignment_demo/alignment.py:149-151 | If no cell is positive, all local outputs are empty. |
| `AlignSpec.GlobalTracebackOptimal` | src/demos/pairwise_sequence_alignment_demo/alignment.py:130-170 | Suppose the global traceback from (nA,nB) succeeds. Then removing "-" from its outputs gives exactly `a` and `b`, and its score is Score(nA,nB). It scores at least as much as every alignment of `a` with `b`. |
| `AlignSpec.GlobalWalkFailsIffBoundary` | src/demos/pairwise_sequence_alignment_demo/alignment.py:149-166 | With the boundary codes of lines 81-82, the global traceback fails exactly when following the pointers reaches row 0 or column 0 at a cell other than (0,0). |
| `AlignSpec.GlobalEmptySecondFails` | src/demos/pairwise_sequence_alignment_demo/alignment.py:163-166 | Take `a` nonempty and `b` empty. The global traceback starts at (nA,0), reads pointer 2 and asks for b[-1], so the step fails. |
| `AlignSpec.GlobalEmptyFirstFails` | src/demos/pairwise_sequence_alignment_demo/alignment.py:159-161 | Take `a` empty and `b` nonempty. The global traceback starts at (0,nB), reads pointer 1 and asks for a[-1], so the step fails. |
| `AlignSpec.IntendedGlobalWalkSucceeds` | src/demos/pairwise_sequence_alignment_demo/alignment.py:80-83 | With the boundary codes swapped back (1 in column 0, 2 in row 0), the global traceback succeeds for every input. |
| `AlignSpec.ScoreBoundsAlignment` | src/demos/pairwise_sequence_alignment_demo/alignment.py:113-127 | Take any alignment of a[ie..i) with b[je..j) of inputs with no "-" symbol; in local mode its cells must be interior. It scores at most Score(i,j) − Score(ie,je). This is the optimality that the fill recurrence promises. |
| `AlignSpec.AlignmentStrips` | src/demos/pairwise_sequence_alignment_demo/alignment.py:168-170 | Removing "-" from an alignment of a[ie..i) with b[je..j) gives exactly those slices, provided no symbol is "-". |
| `AlignSpec.AlignmentPathBounds` | src/demos/pairwise_sequence_alignment_demo/alignment.py:152-153 | Every recorded cell lies between the two ends of the alignment. |
| `AlignSpec.AlignmentPathMonotone` | src/demos/pairwise_sequence_alignment_demo/alignment.py:172-174 | After the reversal both recorded paths are non-decreasing, and i+j grows strictly at every column. |
| `Sequences.Reverse` | src/demos/pairwise_sequence_alignment_demo/alignment.py:168-174 | As `list.reverse()`: the same length, and entry k of the result is entry n−1−k of the input. |
| `AlignSpec.Shift` | src/demos/pairwise_sequence_alignment_demo/alignment.py:175-176 | Every entry of the warp path is decreased by one, and the length is kept. |
| `AlignSpec.WarpPathsValid` | src/demos/pairwise_sequence_alignment_demo/alignment.py:172-176 | For a successful traceback, the shifted warp paths are valid indices into `a` and `b` and are non-decreasing. |
| `AlignSpec.InteriorScores` | src/demos/pairwise_sequence_alignment_demo/alignment.py:178-180 | The returned scoring matrix has nA rows of nB entries. |
| `AlignImpl.DropBoundary` | src/demos/pairwise_sequence_alignment_demo/alignment.py:178-180 | Dropping row 0 and column 0 of the filled matrix gives `InteriorScores`, so out[i][j] = Score(i+1,j+1). |
| `AlignSpec.Output` | src/demos/pairwise_sequence_alignment_demo/alignment.py:168-182 | The returned tuple for a start cell: the walk's error, or its two aligned lists, its two warp paths shifted by −1, and the interior of the scoring matrix. |
| `AlignImpl.Align` | src/demos/pairwise_sequence_alignment_demo/alignment.py:85-182 | The whole closure. Global mode returns `Output` from (nA,nB). Local mode returns `Output` from the picked maximal cell, or from the unique first maximal cell when nothing is picked. `Output` gives the walk's lists, warp paths shifted by −1, and out[i][j] = Score(i+1,j+1). |

## Left out

- `utils.py` (`download_file`) is streaming HTTP and file I/O, with nothing to verify.
- The `random.choice` among tied maxima and the two `print` calls (lines 135-140) are replaced by the parameter `pick` of `Align`. The caller must supply a maximal cell; without one, the first maximal cell is used.
- NumPy float matrices are modelled as `int`. Every value is a sum of the integer scores, and `np.linspace(0, n·gap, n+1)` is the ramp k·gap. A float64 holds such sums exactly only up to 2^53 in magnitude; Dafny's `int` has no such bound, so the model does not capture rounding of larger scores.
- Walk: when the written boundary codes send the global traceback along the wrong axis, Python goes on with negative indices: it wraps around, raises `IndexError` or loops further. The model stops at that step with `BoundaryStep` instead.
- Align: it returns `Err(BoundaryStep)` in the cases above, where Python returns wrap-around output or raises.
- The properties that remove gaps (`AlignmentStrips`, `GlobalTracebackOptimal`, `LocalTracebackOptimal`) assume that no input symbol is itself `"-"`. Python cannot tell such a symbol from a gap either.
- WalkIsAlignment: the score equality is stated only when no input symbol is `"-"`. `ColumnScore` tells a gap column by its `"-"` entry, so a symbol `"-"` in a diagonal column would be scored as a gap. The alignment and end-cell clauses hold for all inputs.
- ScoreBoundsAlignment: it requires that no input symbol is `"-"`, for the same reason. The fill itself accepts such symbols, and `Score` and `Fill` are stated for all inputs.
- The default arguments of `make_align` (1, -1, -1) are not modelled. `MakeAligner` always takes all three scores.
- The closure itself is replaced by the immutable `Aligner` value passed to every operation.
- The returned scoring matrix is modelled as a sequence of rows, not a NumPy view.

## Findings

| source | as written | input that shows it | evidently intended | confidence | as-written member | corrected member |
|---|---|---|---|---|---|---|
| src/demos/pairwise_sequence_alignment_demo/alignment.py:81-82 | Column 0 gets pointer 2 (decrement j) and row 0 gets pointer 1 (decrement i). On the boundary the global traceback therefore moves along the wrong axis. | Global mode, `seq_a = ["A"]`, `seq_b = []`. The traceback starts at (1,0) with pointer 2 and evaluates `seq_b[-1]` on an empty list. Symmetrically, `seq_a = []`, `seq_b = ["A"]` reads pointer 1 at (0,1) and evaluates `seq_a[-1]` at line 160 (`GlobalEmptyFirstFails`). | Column 0 should get 1 and row 0 should get 2, so the walk runs along the boundary to (0,0) and emits gaps. | high (proved; not executed) | `AlignSpec.GlobalEmptySecondFails` | `AlignSpec.IntendedGlobalWalkSucceeds` |

`Ptr` takes the convention as a parameter. With `Intended`, `IntendedGlobalWalkSucceeds` shows that the global traceback always succeeds. `GlobalTracebackOptimal` then gives full reconstruction and optimality for every pair of inputs without "-" symbols. The imperative part keeps the written codes, because that is what the code computes.
