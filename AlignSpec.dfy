/** The pure specification of the pairwise aligner: the configuration that
    `make_align` captures, the score and pointer each matrix cell holds once
    the fill is done, and the traceback as a recursive walk over the cells. */
module AlignSpec {
  import opened Sequences

  /** Sequence elements are strings; the aligner writes "-" for a gap. */
  type Symbol = string

  const GapMark: Symbol := "-"

  /** Pointer codes: 0 steps to the top-left cell, 1 decrements i, 2 decrements j. */
  const TopLeft: int := 0
  const Left: int := 1
  const Top: int := 2

  datatype Mode = Global | Local

  /** The parameters captured by the `align` closure. */
  datatype Aligner = Aligner(mode: Mode, matchScore: int, mismatchScore: int, gap: int)

  datatype Result<T, E> = Ok(value: T) | Err(error: E)

  /** `make_align`: only "global" and "local" are accepted; the scores are not checked. */
  function MakeAligner(mode: string, matchScore: int, mismatchScore: int, gap: int): (r: Result<Aligner, string>)
    ensures r.Ok? <==> mode == "global" || mode == "local"
    ensures r.Ok? ==> r.value.matchScore == matchScore && r.value.mismatchScore == mismatchScore && r.value.gap == gap
    ensures r.Ok? ==> (r.value.mode == Global <==> mode == "global")
    ensures r.Err? ==> r.error == "Invalid mode: " + mode
  {
    if mode == "global" then Ok(Aligner(Global, matchScore, mismatchScore, gap))
    else if mode == "local" then Ok(Aligner(Local, matchScore, mismatchScore, gap))
    else Err("Invalid mode: " + mode)
  }

  // ---------------------------------------------------------------------------
  // Scores and pointers

  /** What `_init_scoring_mat` leaves in row 0 and column 0: the ramps
      k * gap in global mode, zero in local mode. */
  function BoundaryScore(al: Aligner, i: nat, j: nat): (r: int)
    requires i == 0 || j == 0
  {
    if al.mode == Local then 0 else if i == 0 then j * al.gap else i * al.gap
  }

  /** Score of putting x against y in one column. */
  function Sub(al: Aligner, x: Symbol, y: Symbol): (r: int)
  {
    if x == y then al.matchScore else al.mismatchScore
  }

  function Max3(x: int, y: int, z: int): (m: int)
    ensures m >= x && m >= y && m >= z
    ensures m == x || m == y || m == z
  {
    if x >= y && x >= z then x else if y >= z then y else z
  }

  /** `np.argmax` over three candidates: the first index holding the maximum. */
  function ArgMax3(x: int, y: int, z: int): (k: int)
    ensures 0 <= k <= 2
    ensures [x, y, z][k] == Max3(x, y, z)
    ensures forall m :: 0 <= m < k ==> [x, y, z][m] < Max3(x, y, z)
  {
    if x >= y && x >= z then 0 else if y >= z then 1 else 2
  }

  /** The `trace` vector of cell (i, j): diagonal, then decrement i, then decrement j. */
  function Candidates(al: Aligner, a: seq<Symbol>, b: seq<Symbol>, i: nat, j: nat): (t: seq<int>)
    requires 1 <= i <= |a| && 1 <= j <= |b|
    ensures |t| == 3
    decreases i + j, 0
  {
    [Score(al, a, b, i - 1, j - 1) + Sub(al, a[i - 1], b[j - 1]),
     Score(al, a, b, i - 1, j) + al.gap,
     Score(al, a, b, i, j - 1) + al.gap]
  }

  /** True when the local floor rule replaces the maximum of cell (i, j) by 0. */
  predicate Clamped(al: Aligner, a: seq<Symbol>, b: seq<Symbol>, i: nat, j: nat)
    requires 1 <= i <= |a| && 1 <= j <= |b|
  {
    var t := Candidates(al, a, b, i, j);
    al.mode == Local && Max3(t[0], t[1], t[2]) < 0
  }

  /** The value of scoring cell (i, j) after the fill. */
  function Score(al: Aligner, a: seq<Symbol>, b: seq<Symbol>, i: nat, j: nat): (r: int)
    requires i <= |a| && j <= |b|
    ensures al.mode == Local ==> r >= 0
    decreases i + j, 1
  {
    if i == 0 || j == 0 then BoundaryScore(al, i, j)
    else
      var t := Candidates(al, a, b, i, j);
      var m := Max3(t[0], t[1], t[2]);
      if al.mode == Local && m < 0 then 0 else m
  }

  /** Which boundary pointer codes are used: the ones `_init_ptr_mat` writes
      (column 0 gets 2, row 0 gets 1), or the ones the traceback needs
      (column 0 gets 1, row 0 gets 2). */
  datatype Convention = AsWritten | Intended

  /** The value of pointer cell (i, j) after the fill. */
  function Ptr(conv: Convention, al: Aligner, a: seq<Symbol>, b: seq<Symbol>, i: nat, j: nat): (p: int)
    requires i <= |a| && j <= |b|
    ensures 0 <= p <= 2
    ensures 1 <= i && 1 <= j && !Clamped(al, a, b, i, j) ==>
              Candidates(al, a, b, i, j)[p] == Score(al, a, b, i, j) &&
              forall m :: 0 <= m < p ==> Candidates(al, a, b, i, j)[m] < Score(al, a, b, i, j)
    ensures 1 <= i && 1 <= j && Clamped(al, a, b, i, j) ==> p == TopLeft
    ensures i == 0 ==> p == (if conv == AsWritten then Left else Top)
    ensures 1 <= i && j == 0 ==> p == (if conv == AsWritten then Top else Left)
  {
    if i == 0 then (if conv == AsWritten then Left else Top)
    else if j == 0 then (if conv == AsWritten then Top else Left)
    else
      var t := Candidates(al, a, b, i, j);
      if Clamped(al, a, b, i, j) then TopLeft else ArgMax3(t[0], t[1], t[2])
  }

  /** A cell holding the maximum of the whole scoring matrix. */
  ghost predicate IsMaxCell(al: Aligner, a: seq<Symbol>, b: seq<Symbol>, i: nat, j: nat)
  {
    i <= |a| && j <= |b| &&
    forall r: nat, c: nat :: r <= |a| && c <= |b| ==> Score(al, a, b, r, c) <= Score(al, a, b, i, j)
  }

  /** The maximal cell that comes first in row-major order (`np.argwhere(...)[0]`). */
  ghost predicate IsFirstMaxCell(al: Aligner, a: seq<Symbol>, b: seq<Symbol>, i: nat, j: nat)
  {
    IsMaxCell(al, a, b, i, j) &&
    forall r: nat, c: nat :: r <= |a| && c <= |b| && (r < i || (r == i && c < j)) ==>
      Score(al, a, b, r, c) < Score(al, a, b, i, j)
  }

  lemma FirstMaxCellUnique(al: Aligner, a: seq<Symbol>, b: seq<Symbol>, i: nat, j: nat, i': nat, j': nat)
    requires IsFirstMaxCell(al, a, b, i, j) && IsFirstMaxCell(al, a, b, i', j')
    ensures i == i' && j == j'
  {
    assert Score(al, a, b, i, j) == Score(al, a, b, i', j');
  }

  // ---------------------------------------------------------------------------
  // Traceback

  /** The four lists the traceback appends to, in alignment order. */
  datatype Columns = Columns(alnA: seq<Symbol>, alnB: seq<Symbol>, pathA: seq<int>, pathB: seq<int>)
  {
    predicate WellFormed() {
      |alnA| == |alnB| == |pathA| == |pathB|
    }

    function Size(): nat { |alnA| }

    /** All columns but the last. */
    function Init(): (c: Columns)
      requires WellFormed() && Size() > 0
      ensures c.WellFormed() && c.Size() == Size() - 1
    {
      var n := |alnA| - 1;
      Columns(alnA[..n], alnB[..n], pathA[..n], pathB[..n])
    }
  }

  const NoColumns := Columns([], [], [], [])

  /** A traceback step taken from a cell whose pointer would move an index below zero. */
  datatype TraceError = BoundaryStep(i: int, j: int)

  /** Appends the column emitted at cell (i, j). */
  function Snoc(r: Result<Columns, TraceError>, x: Symbol, y: Symbol, i: int, j: int): (r': Result<Columns, TraceError>)
  {
    match r
    case Ok(c) => Ok(Columns(c.alnA + [x], c.alnB + [y], c.pathA + [i], c.pathB + [j]))
    case Err(e) => Err(e)
  }

  /** The loop condition of the traceback at cell (i, j). */
  predicate Continues(al: Aligner, a: seq<Symbol>, b: seq<Symbol>, i: nat, j: nat)
    requires i <= |a| && j <= |b|
    ensures al.mode == Global ==> (Continues(al, a, b, i, j) <==> (i, j) != (0, 0))
    ensures al.mode == Local && (i == 0 || j == 0) ==> !Continues(al, a, b, i, j)
  {
    if al.mode == Global then i > 0 || j > 0 else Score(al, a, b, i, j) > 0
  }

  /** The traceback from cell (i, j), driven by the pointer codes, with the
      columns in alignment order (the order after the lists are reversed). */
  function Walk(conv: Convention, al: Aligner, a: seq<Symbol>, b: seq<Symbol>, i: nat, j: nat): (r: Result<Columns, TraceError>)
    requires i <= |a| && j <= |b|
    ensures r.Ok? ==> r.value.WellFormed()
    decreases i + j
  {
    if !Continues(al, a, b, i, j) then Ok(NoColumns)
    else
      var p := Ptr(conv, al, a, b, i, j);
      if p == TopLeft then
        if i == 0 || j == 0 then Err(BoundaryStep(i, j))
        else Snoc(Walk(conv, al, a, b, i - 1, j - 1), a[i - 1], b[j - 1], i, j)
      else if p == Left then
        if i == 0 then Err(BoundaryStep(i, j))
        else Snoc(Walk(conv, al, a, b, i - 1, j), a[i - 1], GapMark, i, j)
      else
        if j == 0 then Err(BoundaryStep(i, j))
        else Snoc(Walk(conv, al, a, b, i, j - 1), GapMark, b[j - 1], i, j)
  }

  // ---------------------------------------------------------------------------
  // Alignments, independently of the matrices

  /** Moving from cell (i', j') into cell (i, j) emits the column (x, y):
      one symbol of each sequence, or one symbol against a gap. */
  predicate IsStep(a: seq<Symbol>, b: seq<Symbol>, i': nat, j': nat, x: Symbol, y: Symbol, i: nat, j: nat)
    requires i <= |a| && j <= |b|
  {
    (i >= 1 && j >= 1 && i' == i - 1 && j' == j - 1 && x == a[i - 1] && y == b[j - 1]) ||
    (i >= 1 && i' == i - 1 && j' == j && x == a[i - 1] && y == GapMark) ||
    (j >= 1 && i' == i && j' == j - 1 && x == GapMark && y == b[j - 1])
  }

  /** `c` aligns a[ie..i) with b[je..j): each column is a step and records
      the cell the step enters. */
  predicate IsAlignment(c: Columns, a: seq<Symbol>, b: seq<Symbol>, ie: nat, je: nat, i: nat, j: nat)
    decreases c.Size()
  {
    c.WellFormed() && i <= |a| && j <= |b| &&
    if c.Size() == 0 then i == ie && j == je
    else
      var n := c.Size() - 1;
      var x, y := c.alnA[n], c.alnB[n];
      c.pathA[n] == i && c.pathB[n] == j &&
      ((i >= 1 && j >= 1 && IsStep(a, b, i - 1, j - 1, x, y, i, j) && IsAlignment(c.Init(), a, b, ie, je, i - 1, j - 1)) ||
       (i >= 1 && IsStep(a, b, i - 1, j, x, y, i, j) && IsAlignment(c.Init(), a, b, ie, je, i - 1, j)) ||
       (j >= 1 && IsStep(a, b, i, j - 1, x, y, i, j) && IsAlignment(c.Init(), a, b, ie, je, i, j - 1)))
  }

  function ColumnScore(al: Aligner, x: Symbol, y: Symbol): (r: int)
  {
    if x == GapMark || y == GapMark then al.gap else Sub(al, x, y)
  }

  /** The sum of the column scores of an alignment. */
  function AlignmentScore(al: Aligner, c: Columns): (r: int)
    requires c.WellFormed()
    decreases c.Size()
  {
    if c.Size() == 0 then 0
    else AlignmentScore(al, c.Init()) + ColumnScore(al, c.alnA[c.Size() - 1], c.alnB[c.Size() - 1])
  }

  /** Every visited cell satisfies the loop condition. */
  ghost predicate VisitsContinuing(al: Aligner, a: seq<Symbol>, b: seq<Symbol>, c: Columns)
    requires c.WellFormed()
  {
    forall k :: 0 <= k < c.Size() ==>
      0 <= c.pathA[k] <= |a| && 0 <= c.pathB[k] <= |b| && Continues(al, a, b, c.pathA[k], c.pathB[k])
  }

  /** Every visited cell lies off row 0 and column 0. */
  ghost predicate VisitsInterior(c: Columns)
    requires c.WellFormed()
  {
    forall k :: 0 <= k < c.Size() ==> c.pathA[k] >= 1 && c.pathB[k] >= 1
  }

  lemma SnocInit(c: Columns, x: Symbol, y: Symbol, i: int, j: int)
    requires c.WellFormed()
    ensures Snoc(Ok(c), x, y, i, j).value.Init() == c
  {
    var d := Snoc(Ok(c), x, y, i, j).value;
    assert d.alnA[..c.Size()] == c.alnA;
    assert d.alnB[..c.Size()] == c.alnB;
    assert d.pathA[..c.Size()] == c.pathA;
    assert d.pathB[..c.Size()] == c.pathB;
  }

  /** Appending a step to an alignment gives an alignment, one column longer
      in score by the column's score, visiting one more cell. */
  lemma ExtendAlignment(al: Aligner, c: Columns, a: seq<Symbol>, b: seq<Symbol>, ie: nat, je: nat,
                        i': nat, j': nat, x: Symbol, y: Symbol, i: nat, j: nat)
    requires i <= |a| && j <= |b|
    requires IsAlignment(c, a, b, ie, je, i', j') && IsStep(a, b, i', j', x, y, i, j)
    ensures var d := Snoc(Ok(c), x, y, i, j).value;
      IsAlignment(d, a, b, ie, je, i, j) &&
      AlignmentScore(al, d) == AlignmentScore(al, c) + ColumnScore(al, x, y) &&
      (forall k :: 0 <= k < c.Size() ==> d.pathA[k] == c.pathA[k] && d.pathB[k] == c.pathB[k]) &&
      d.pathA[c.Size()] == i && d.pathB[c.Size()] == j
  {
    var d := Snoc(Ok(c), x, y, i, j).value;
    SnocInit(c, x, y, i, j);
    assert d.alnA[c.Size()] == x && d.alnB[c.Size()] == y;
    assert IsAlignment(d, a, b, ie, je, i, j) by {
      if i' == i - 1 && j' == j - 1 {
        assert IsStep(a, b, i - 1, j - 1, x, y, i, j) && IsAlignment(d.Init(), a, b, ie, je, i - 1, j - 1);
      } else if i' == i - 1 {
        assert IsStep(a, b, i - 1, j, x, y, i, j) && IsAlignment(d.Init(), a, b, ie, je, i - 1, j);
      } else {
        assert IsStep(a, b, i, j - 1, x, y, i, j) && IsAlignment(d.Init(), a, b, ie, je, i, j - 1);
      }
    }
  }

  /** One step of a successful traceback keeps the score: the cell's score is
      the score of the cell it moves to plus the score of the emitted column. */
  lemma StepKeepsScore(conv: Convention, al: Aligner, a: seq<Symbol>, b: seq<Symbol>, i: nat, j: nat)
    requires i <= |a| && j <= |b| && GapMark !in a && GapMark !in b
    requires Continues(al, a, b, i, j)
    requires al.mode == Local || conv == Intended || (i >= 1 && j >= 1)
    ensures var p := Ptr(conv, al, a, b, i, j);
      (p == TopLeft && i >= 1 && j >= 1 ==>
         Score(al, a, b, i, j) == Score(al, a, b, i - 1, j - 1) + ColumnScore(al, a[i - 1], b[j - 1])) &&
      (p == Left && i >= 1 ==>
         Score(al, a, b, i, j) == Score(al, a, b, i - 1, j) + ColumnScore(al, a[i - 1], GapMark)) &&
      (p == Top && j >= 1 ==>
         Score(al, a, b, i, j) == Score(al, a, b, i, j - 1) + ColumnScore(al, GapMark, b[j - 1]))
  {
    if i >= 1 && j >= 1 {
      assert a[i - 1] in a && b[j - 1] in b;
      assert !Clamped(al, a, b, i, j);
    }
  }

  /** The cell a pointer moves to and the column it emits, when the move stays
      inside the matrix. */
  lemma PointerStep(conv: Convention, al: Aligner, a: seq<Symbol>, b: seq<Symbol>, i: nat, j: nat)
      returns (i': nat, j': nat, x: Symbol, y: Symbol)
    requires i <= |a| && j <= |b| && Continues(al, a, b, i, j)
    requires Walk(conv, al, a, b, i, j).Ok?
    ensures IsStep(a, b, i', j', x, y, i, j)
    ensures Walk(conv, al, a, b, i', j').Ok?
    ensures Walk(conv, al, a, b, i, j) == Snoc(Walk(conv, al, a, b, i', j'), x, y, i, j)
    ensures GapMark !in a && GapMark !in b && (al.mode == Local || conv == Intended || (i >= 1 && j >= 1)) ==>
      Score(al, a, b, i, j) == Score(al, a, b, i', j') + ColumnScore(al, x, y)
  {
    var p := Ptr(conv, al, a, b, i, j);
    if GapMark !in a && GapMark !in b && (al.mode == Local || conv == Intended || (i >= 1 && j >= 1)) {
      StepKeepsScore(conv, al, a, b, i, j);
    }
    if p == TopLeft {
      i', j', x, y := i - 1, j - 1, a[i - 1], b[j - 1];
    } else if p == Left {
      i', j', x, y := i - 1, j, a[i - 1], GapMark;
    } else {
      assert p == Top;
      i', j', x, y := i, j - 1, GapMark, b[j - 1];
    }
  }

  /** Every cell a successful traceback visits satisfies the loop condition;
      with the written boundary codes, or in local mode, none of them lies on
      row 0 or column 0. */
  lemma {:induction false} WalkVisits(conv: Convention, al: Aligner, a: seq<Symbol>, b: seq<Symbol>, i: nat, j: nat)
    requires i <= |a| && j <= |b|
    requires Walk(conv, al, a, b, i, j).Ok?
    ensures VisitsContinuing(al, a, b, Walk(conv, al, a, b, i, j).value)
    ensures conv == AsWritten || al.mode == Local ==> VisitsInterior(Walk(conv, al, a, b, i, j).value)
    decreases i + j
  {
    if Continues(al, a, b, i, j) {
      var i', j', x, y := PointerStep(conv, al, a, b, i, j);
      WalkVisits(conv, al, a, b, i', j');
      var prev := Walk(conv, al, a, b, i', j').value;
      var c := Walk(conv, al, a, b, i, j).value;
      assert c.pathA == prev.pathA + [i] && c.pathB == prev.pathB + [j];
      if conv == AsWritten || al.mode == Local {
        assert i >= 1 && j >= 1;
      }
    }
  }

  /** A successful traceback from (i, j) is an alignment of a[ie..i) with
      b[je..j), where (ie, je) is the first cell that fails the loop
      condition, and the alignment's score is exactly the score difference
      between its two ends. */
  lemma {:induction false} WalkIsAlignment(conv: Convention, al: Aligner, a: seq<Symbol>, b: seq<Symbol>, i: nat, j: nat)
      returns (ie: nat, je: nat)
    requires i <= |a| && j <= |b|
    requires Walk(conv, al, a, b, i, j).Ok?
    ensures ie <= i && je <= j
    ensures IsAlignment(Walk(conv, al, a, b, i, j).value, a, b, ie, je, i, j)
    ensures !Continues(al, a, b, ie, je)
    ensures GapMark !in a && GapMark !in b ==>
      AlignmentScore(al, Walk(conv, al, a, b, i, j).value) + Score(al, a, b, ie, je) == Score(al, a, b, i, j)
    decreases i + j
  {
    if !Continues(al, a, b, i, j) {
      ie, je := i, j;
      return;
    }
    var i', j', x, y := PointerStep(conv, al, a, b, i, j);
    ie, je := WalkIsAlignment(conv, al, a, b, i', j');
    var prev := Walk(conv, al, a, b, i', j').value;
    ExtendAlignment(al, prev, a, b, ie, je, i', j', x, y, i, j);
    if GapMark !in a && GapMark !in b && !(al.mode == Local || conv == Intended) {
      // A global traceback with the written codes never steps from row 0 or column 0.
      assert i >= 1 && j >= 1;
    }
  }

  /** The last column of a nonempty alignment is a step from the cell where
      the rest of the alignment ends. */
  lemma AlignmentLast(c: Columns, a: seq<Symbol>, b: seq<Symbol>, ie: nat, je: nat, i: nat, j: nat)
      returns (i': nat, j': nat)
    requires IsAlignment(c, a, b, ie, je, i, j) && c.Size() > 0
    ensures IsAlignment(c.Init(), a, b, ie, je, i', j')
    ensures IsStep(a, b, i', j', c.alnA[c.Size() - 1], c.alnB[c.Size() - 1], i, j)
    ensures c.pathA[c.Size() - 1] == i && c.pathB[c.Size() - 1] == j
    ensures i - 1 <= i' <= i && j - 1 <= j' <= j && i' + j' < i + j
    ensures (i' == i - 1 && c.alnA[c.Size() - 1] == a[i - 1]) || (i' == i && c.alnA[c.Size() - 1] == GapMark)
    ensures (j' == j - 1 && c.alnB[c.Size() - 1] == b[j - 1]) || (j' == j && c.alnB[c.Size() - 1] == GapMark)
  {
    var n := c.Size() - 1;
    var x, y := c.alnA[n], c.alnB[n];
    if i >= 1 && j >= 1 && IsStep(a, b, i - 1, j - 1, x, y, i, j) && IsAlignment(c.Init(), a, b, ie, je, i - 1, j - 1) {
      i', j' := i - 1, j - 1;
    } else if i >= 1 && IsStep(a, b, i - 1, j, x, y, i, j) && IsAlignment(c.Init(), a, b, ie, je, i - 1, j) {
      i', j' := i - 1, j;
    } else {
      i', j' := i, j - 1;
    }
  }

  /** Removing the gap markers from an alignment of a[ie..i) with b[je..j)
      gives back exactly those slices. */
  lemma {:induction false} AlignmentStrips(c: Columns, a: seq<Symbol>, b: seq<Symbol>, ie: nat, je: nat, i: nat, j: nat)
    requires IsAlignment(c, a, b, ie, je, i, j)
    requires GapMark !in a && GapMark !in b
    ensures ie <= i && je <= j
    ensures Strip(c.alnA, GapMark) == a[ie..i]
    ensures Strip(c.alnB, GapMark) == b[je..j]
    decreases c.Size()
  {
    if c.Size() > 0 {
      var n := c.Size() - 1;
      var d := c.Init();
      var i', j' := AlignmentLast(c, a, b, ie, je, i, j);
      AlignmentStrips(d, a, b, ie, je, i', j');
      assert Strip(c.alnA, GapMark) == a[ie..i] by {
        assert c.alnA == d.alnA + [c.alnA[n]];
        StripStep(d.alnA, c.alnA[n], GapMark, a, ie, i', i);
      }
      assert Strip(c.alnB, GapMark) == b[je..j] by {
        assert c.alnB == d.alnB + [c.alnB[n]];
        StripStep(d.alnB, c.alnB[n], GapMark, b, je, j', j);
      }
    }
  }

  /** The cells an alignment visits lie between its two ends. */
  lemma {:induction false} AlignmentPathBounds(c: Columns, a: seq<Symbol>, b: seq<Symbol>, ie: nat, je: nat, i: nat, j: nat)
    requires IsAlignment(c, a, b, ie, je, i, j)
    ensures ie <= i && je <= j
    ensures forall k :: 0 <= k < c.Size() ==>
      ie <= c.pathA[k] <= i && je <= c.pathB[k] <= j && ie + je < c.pathA[k] + c.pathB[k]
    decreases c.Size()
  {
    if c.Size() > 0 {
      var d := c.Init();
      var i', j' := AlignmentLast(c, a, b, ie, je, i, j);
      AlignmentPathBounds(d, a, b, ie, je, i', j');
      assert forall k :: 0 <= k < d.Size() ==> d.pathA[k] == c.pathA[k] && d.pathB[k] == c.pathB[k];
    }
  }

  /** Both recorded paths are non-decreasing, and every column moves forward. */
  lemma {:induction false} AlignmentPathMonotone(c: Columns, a: seq<Symbol>, b: seq<Symbol>, ie: nat, je: nat, i: nat, j: nat)
    requires IsAlignment(c, a, b, ie, je, i, j)
    ensures forall k :: 0 <= k < c.Size() - 1 ==>
      c.pathA[k] <= c.pathA[k + 1] && c.pathB[k] <= c.pathB[k + 1] &&
      c.pathA[k] + c.pathB[k] < c.pathA[k + 1] + c.pathB[k + 1]
    decreases c.Size()
  {
    if c.Size() > 1 {
      var n := c.Size() - 1;
      var d := c.Init();
      var i', j' := AlignmentLast(c, a, b, ie, je, i, j);
      AlignmentPathMonotone(d, a, b, ie, je, i', j');
      AlignmentPathBounds(d, a, b, ie, je, i', j');
      forall k | 0 <= k < n
        ensures c.pathA[k] <= c.pathA[k + 1] && c.pathB[k] <= c.pathB[k + 1] &&
          c.pathA[k] + c.pathB[k] < c.pathA[k + 1] + c.pathB[k + 1]
      {
        assert c.pathA[k] == d.pathA[k] && c.pathB[k] == d.pathB[k];
        if k < n - 1 {
          assert c.pathA[k + 1] == d.pathA[k + 1] && c.pathB[k + 1] == d.pathB[k + 1];
        }
      }
    }
  }

  /** The traceback always succeeds in local mode: a positive cell is never on
      row 0 or column 0, whose scores are 0. */
  lemma {:induction false} LocalWalkSucceeds(conv: Convention, al: Aligner, a: seq<Symbol>, b: seq<Symbol>, i: nat, j: nat)
    requires al.mode == Local && i <= |a| && j <= |b|
    ensures Walk(conv, al, a, b, i, j).Ok?
    decreases i + j
  {
    if Continues(al, a, b, i, j) {
      var p := Ptr(conv, al, a, b, i, j);
      if p == TopLeft {
        LocalWalkSucceeds(conv, al, a, b, i - 1, j - 1);
      } else if p == Left {
        LocalWalkSucceeds(conv, al, a, b, i - 1, j);
      } else {
        LocalWalkSucceeds(conv, al, a, b, i, j - 1);
      }
    }
  }

  /** Following the written pointers from (i, j) reaches row 0 or column 0
      somewhere other than (0, 0). */
  ghost predicate ReachesBoundary(al: Aligner, a: seq<Symbol>, b: seq<Symbol>, i: nat, j: nat)
    requires i <= |a| && j <= |b|
    decreases i + j
  {
    if i == 0 && j == 0 then false
    else if i == 0 || j == 0 then true
    else
      var p := Ptr(AsWritten, al, a, b, i, j);
      if p == TopLeft then ReachesBoundary(al, a, b, i - 1, j - 1)
      else if p == Left then ReachesBoundary(al, a, b, i - 1, j)
      else ReachesBoundary(al, a, b, i, j - 1)
  }

  /** With the boundary codes as written, the global traceback fails exactly
      when it would visit a row-0 or column-0 cell other than (0, 0). */
  lemma {:induction false} GlobalWalkFailsIffBoundary(al: Aligner, a: seq<Symbol>, b: seq<Symbol>, i: nat, j: nat)
    requires al.mode == Global && i <= |a| && j <= |b|
    ensures Walk(AsWritten, al, a, b, i, j).Err? <==> ReachesBoundary(al, a, b, i, j)
    decreases i + j
  {
    if i >= 1 && j >= 1 {
      var p := Ptr(AsWritten, al, a, b, i, j);
      if p == TopLeft {
        GlobalWalkFailsIffBoundary(al, a, b, i - 1, j - 1);
      } else if p == Left {
        GlobalWalkFailsIffBoundary(al, a, b, i - 1, j);
      } else {
        GlobalWalkFailsIffBoundary(al, a, b, i, j - 1);
      }
    }
  }

  /** The concrete failure: a nonempty first sequence against an empty second
      one starts the global traceback on column 0, where pointer 2 asks for
      b[j - 1] with j == 0. */
  lemma GlobalEmptySecondFails(al: Aligner, a: seq<Symbol>)
    requires al.mode == Global && |a| > 0
    ensures Walk(AsWritten, al, a, [], |a|, 0) == Err(BoundaryStep(|a|, 0))
  {
  }

  /** The mirror image: an empty first sequence against a nonempty second
      one starts on row 0, where pointer 1 asks for a[i - 1] with i == 0. */
  lemma GlobalEmptyFirstFails(al: Aligner, b: seq<Symbol>)
    requires al.mode == Global && |b| > 0
    ensures Walk(AsWritten, al, [], b, 0, |b|) == Err(BoundaryStep(0, |b|))
  {
  }

  /** With the intended boundary codes the global traceback never fails. */
  lemma {:induction false} IntendedGlobalWalkSucceeds(al: Aligner, a: seq<Symbol>, b: seq<Symbol>, i: nat, j: nat)
    requires al.mode == Global && i <= |a| && j <= |b|
    ensures Walk(Intended, al, a, b, i, j).Ok?
    decreases i + j
  {
    if i > 0 || j > 0 {
      var p := Ptr(Intended, al, a, b, i, j);
      if p == TopLeft {
        IntendedGlobalWalkSucceeds(al, a, b, i - 1, j - 1);
      } else if p == Left {
        IntendedGlobalWalkSucceeds(al, a, b, i - 1, j);
      } else {
        IntendedGlobalWalkSucceeds(al, a, b, i, j - 1);
      }
    }
  }


  // ---------------------------------------------------------------------------
  // Optimality of the traceback

  /** No step can gain more than the score difference of its two cells; in
      local mode this holds for steps into cells off the boundary. */
  lemma ScoreDominatesStep(al: Aligner, a: seq<Symbol>, b: seq<Symbol>, i': nat, j': nat, x: Symbol, y: Symbol, i: nat, j: nat)
    requires i <= |a| && j <= |b| && GapMark !in a && GapMark !in b
    requires IsStep(a, b, i', j', x, y, i, j)
    requires al.mode == Local ==> i >= 1 && j >= 1
    ensures Score(al, a, b, i', j') + ColumnScore(al, x, y) <= Score(al, a, b, i, j)
  {
    if i >= 1 && j >= 1 {
      var t := Candidates(al, a, b, i, j);
      assert t[0] <= Score(al, a, b, i, j) && t[1] <= Score(al, a, b, i, j) && t[2] <= Score(al, a, b, i, j);
      if i' == i - 1 && j' == j - 1 {
        assert a[i - 1] in a && b[j - 1] in b;
        assert ColumnScore(al, x, y) == Sub(al, a[i - 1], b[j - 1]);
      }
    }
  }

  /** The filled matrix bounds every alignment: an alignment of a[ie..i) with
      b[je..j) scores at most Score(i, j) - Score(ie, je). */
  lemma {:induction false} ScoreBoundsAlignment(al: Aligner, c: Columns, a: seq<Symbol>, b: seq<Symbol>, ie: nat, je: nat, i: nat, j: nat)
    requires IsAlignment(c, a, b, ie, je, i, j)
    requires GapMark !in a && GapMark !in b
    requires al.mode == Local ==> VisitsInterior(c)
    ensures ie <= |a| && je <= |b|
    ensures AlignmentScore(al, c) + Score(al, a, b, ie, je) <= Score(al, a, b, i, j)
    decreases c.Size()
  {
    if c.Size() > 0 {
      var n := c.Size() - 1;
      var d := c.Init();
      var i', j' := AlignmentLast(c, a, b, ie, je, i, j);
      assert forall k :: 0 <= k < d.Size() ==> d.pathA[k] == c.pathA[k] && d.pathB[k] == c.pathB[k];
      ScoreBoundsAlignment(al, d, a, b, ie, je, i', j');
      ScoreDominatesStep(al, a, b, i', j', c.alnA[n], c.alnB[n], i, j);
    }
  }

  /** Needleman-Wunsch: a successful global traceback from (|a|, |b|) is an
      alignment of all of a with all of b, removing its gaps gives back a
      and b, and no alignment of a with b scores more. */
  lemma GlobalTracebackOptimal(conv: Convention, al: Aligner, a: seq<Symbol>, b: seq<Symbol>)
    requires al.mode == Global && GapMark !in a && GapMark !in b
    requires Walk(conv, al, a, b, |a|, |b|).Ok?
    ensures var c := Walk(conv, al, a, b, |a|, |b|).value;
      IsAlignment(c, a, b, 0, 0, |a|, |b|) &&
      Strip(c.alnA, GapMark) == a && Strip(c.alnB, GapMark) == b &&
      AlignmentScore(al, c) == Score(al, a, b, |a|, |b|) &&
      forall d :: IsAlignment(d, a, b, 0, 0, |a|, |b|) ==> AlignmentScore(al, d) <= AlignmentScore(al, c)
  {
    var c := Walk(conv, al, a, b, |a|, |b|).value;
    var ie, je := WalkIsAlignment(conv, al, a, b, |a|, |b|);
    AlignmentStrips(c, a, b, 0, 0, |a|, |b|);
    assert a[0..|a|] == a && b[0..|b|] == b;
    forall d | IsAlignment(d, a, b, 0, 0, |a|, |b|)
      ensures AlignmentScore(al, d) <= AlignmentScore(al, c)
    {
      ScoreBoundsAlignment(al, d, a, b, 0, 0, |a|, |b|);
    }
  }

  /** Smith-Waterman: the local traceback from a maximal cell (si, sj)
      succeeds, aligns the slices a[ie..si) and b[je..sj) ending on a
      zero cell, and no alignment of any slices through interior cells
      scores more. */
  lemma LocalTracebackOptimal(conv: Convention, al: Aligner, a: seq<Symbol>, b: seq<Symbol>, si: nat, sj: nat)
      returns (ie: nat, je: nat)
    requires al.mode == Local && GapMark !in a && GapMark !in b
    requires IsMaxCell(al, a, b, si, sj)
    ensures Walk(conv, al, a, b, si, sj).Ok?
    ensures var c := Walk(conv, al, a, b, si, sj).value;
      ie <= si && je <= sj && Score(al, a, b, ie, je) == 0 &&
      Strip(c.alnA, GapMark) == a[ie..si] && Strip(c.alnB, GapMark) == b[je..sj] &&
      AlignmentScore(al, c) == Score(al, a, b, si, sj) &&
      forall d, ie': nat, je': nat, i': nat, j': nat ::
        IsAlignment(d, a, b, ie', je', i', j') && VisitsInterior(d) ==> AlignmentScore(al, d) <= AlignmentScore(al, c)
  {
    LocalWalkSucceeds(conv, al, a, b, si, sj);
    var c := Walk(conv, al, a, b, si, sj).value;
    ie, je := WalkIsAlignment(conv, al, a, b, si, sj);
    AlignmentStrips(c, a, b, ie, je, si, sj);
    forall d, ie': nat, je': nat, i': nat, j': nat | IsAlignment(d, a, b, ie', je', i', j') && VisitsInterior(d)
      ensures AlignmentScore(al, d) <= AlignmentScore(al, c)
    {
      ScoreBoundsAlignment(al, d, a, b, ie', je', i', j');
      assert Score(al, a, b, ie', je') >= 0;
      assert Score(al, a, b, i', j') <= Score(al, a, b, si, sj);
    }
  }

  /** When no cell is positive, the local traceback emits nothing. */
  lemma LocalNoPositiveCellIsEmpty(conv: Convention, al: Aligner, a: seq<Symbol>, b: seq<Symbol>, si: nat, sj: nat)
    requires al.mode == Local && IsMaxCell(al, a, b, si, sj)
    requires forall r: nat, c: nat :: r <= |a| && c <= |b| ==> Score(al, a, b, r, c) <= 0
    ensures Walk(conv, al, a, b, si, sj) == Ok(NoColumns)
  {
    assert Score(al, a, b, si, sj) <= 0;
  }

  // ---------------------------------------------------------------------------
  // Output shaping

  /** `[(i - 1) for i in warp_path]`: cell indices become sequence indices. */
  function Shift(path: seq<int>): (r: seq<int>)
    ensures |r| == |path|
    ensures forall k :: 0 <= k < |r| ==> r[k] == path[k] - 1
  {
    seq(|path|, k requires 0 <= k < |path| => path[k] - 1)
  }

  /** With the written boundary codes every successful traceback yields warp
      paths that index into the two sequences and never decrease. */
  lemma WarpPathsValid(al: Aligner, a: seq<Symbol>, b: seq<Symbol>, i: nat, j: nat)
    requires i <= |a| && j <= |b|
    requires Walk(AsWritten, al, a, b, i, j).Ok?
    ensures var c := Walk(AsWritten, al, a, b, i, j).value;
      var wa, wb := Shift(c.pathA), Shift(c.pathB);
      (forall k :: 0 <= k < |wa| ==> 0 <= wa[k] < |a| && 0 <= wb[k] < |b|) &&
      (forall k :: 0 <= k < |wa| - 1 ==> wa[k] <= wa[k + 1] && wb[k] <= wb[k + 1])
  {
    var c := Walk(AsWritten, al, a, b, i, j).value;
    WalkVisits(AsWritten, al, a, b, i, j);
    var ie, je := WalkIsAlignment(AsWritten, al, a, b, i, j);
    AlignmentPathBounds(c, a, b, ie, je, i, j);
    AlignmentPathMonotone(c, a, b, ie, je, i, j);
  }

  /** What `align` returns. */
  datatype Alignment = Alignment(alnA: seq<Symbol>, alnB: seq<Symbol>, warpA: seq<int>, warpB: seq<int>, scoring: seq<seq<int>>)

  /** The scoring matrix without row 0 and column 0. */
  function InteriorScores(al: Aligner, a: seq<Symbol>, b: seq<Symbol>): (m: seq<seq<int>>)
    ensures |m| == |a|
    ensures forall r :: 0 <= r < |a| ==> |m[r]| == |b|
  {
    seq(|a|, r requires 0 <= r < |a| =>
      seq(|b|, c requires 0 <= c < |b| => Score(al, a, b, r + 1, c + 1)))
  }

  /** The result of `align` when the traceback starts at (si, sj). */
  function Output(al: Aligner, a: seq<Symbol>, b: seq<Symbol>, si: nat, sj: nat): (r: Result<Alignment, TraceError>)
    requires si <= |a| && sj <= |b|
  {
    match Walk(AsWritten, al, a, b, si, sj)
    case Ok(c) => Ok(Alignment(c.alnA, c.alnB, Shift(c.pathA), Shift(c.pathB), InteriorScores(al, a, b)))
    case Err(e) => Err(e)
  }
}
