/** The `align` closure as the source runs it: two dense matrices that are
    initialised, filled in row-major order and then walked back from the
    traceback start, each step proved against the pure specification. */
module AlignImpl {
  import opened Sequences
  import opened AlignSpec

  datatype Option<T> = None | Some(value: T)

  predicate Shaped(m: array2<int>, a: seq<Symbol>, b: seq<Symbol>)
  {
    m.Length0 == |a| + 1 && m.Length1 == |b| + 1
  }

  /** Cell (r, c) of both matrices holds what the fill specifies. */
  ghost predicate CellDone(al: Aligner, a: seq<Symbol>, b: seq<Symbol>, s: array2<int>, p: array2<int>, r: nat, c: nat)
    reads s, p
    requires Shaped(s, a, b) && Shaped(p, a, b) && r <= |a| && c <= |b|
  {
    s[r, c] == Score(al, a, b, r, c) && p[r, c] == Ptr(AsWritten, al, a, b, r, c)
  }

  /** Both matrices are completely filled. */
  ghost predicate Mirrors(al: Aligner, a: seq<Symbol>, b: seq<Symbol>, s: array2<int>, p: array2<int>)
    reads s, p
  {
    Shaped(s, a, b) && Shaped(p, a, b) &&
    forall r: nat, c: nat :: r <= |a| && c <= |b| ==> CellDone(al, a, b, s, p, r, c)
  }

  /** `_init_scoring_mat`: a zero matrix whose column 0 and row 0 are the
      `np.linspace(0, n * gap, n + 1)` ramps, or zeros in local mode. */
  method InitScoringMat(al: Aligner, aLen: nat, bLen: nat) returns (s: array2<int>)
    ensures fresh(s) && s.Length0 == aLen + 1 && s.Length1 == bLen + 1
    ensures forall r, c :: 0 <= r <= aLen && 0 <= c <= bLen ==>
      s[r, c] == if r == 0 || c == 0 then BoundaryScore(al, r, c) else 0
  {
    s := new int[aLen + 1, bLen + 1]((_, _) => 0);
    // linspace(0, n * gap, n + 1) steps by gap; by 0 in local mode.
    var step := if al.mode == Local then 0 else al.gap;
    for r := 0 to aLen + 1
      invariant forall r', c :: 0 <= r' <= aLen && 0 <= c <= bLen ==>
        s[r', c] == if c == 0 && r' < r then BoundaryScore(al, r', c) else 0
    {
      s[r, 0] := r * step;
    }
    for c := 0 to bLen + 1
      invariant forall r, c' :: 0 <= r <= aLen && 0 <= c' <= bLen ==>
        s[r, c'] == if c' == 0 || (r == 0 && c' < c) then BoundaryScore(al, r, c') else 0
    {
      s[0, c] := c * step;
    }
  }

  /** `_init_ptr_mat`: a zero matrix whose column 0 is set to 2 and then whose
      row 0 is set to 1, so that (0, 0) holds 1. */
  method InitPtrMat(aLen: nat, bLen: nat) returns (p: array2<int>)
    ensures fresh(p) && p.Length0 == aLen + 1 && p.Length1 == bLen + 1
    ensures forall r, c :: 0 <= r <= aLen && 0 <= c <= bLen ==>
      p[r, c] == if r == 0 then Left else if c == 0 then Top else TopLeft
  {
    p := new int[aLen + 1, bLen + 1]((_, _) => 0);
    for r := 0 to aLen + 1
      invariant forall r', c :: 0 <= r' <= aLen && 0 <= c <= bLen ==>
        p[r', c] == if c == 0 && r' < r then Top else TopLeft
    {
      p[r, 0] := Top;
    }
    for c := 0 to bLen + 1
      invariant forall r, c' :: 0 <= r <= aLen && 0 <= c' <= bLen ==>
        p[r, c'] == if r == 0 && c' < c then Left else if c' == 0 then Top else TopLeft
    {
      p[0, c] := Left;
    }
  }

  /** The fill: every interior cell gets the maximum of its three candidates
      (clamped to 0 in local mode) and the pointer of the first maximal
      candidate; a clamped local cell keeps pointer 0. */
  method Fill(al: Aligner, a: seq<Symbol>, b: seq<Symbol>, s: array2<int>, p: array2<int>)
    requires Shaped(s, a, b) && Shaped(p, a, b) && s != p
    requires forall r, c :: 0 <= r <= |a| && 0 <= c <= |b| ==>
      s[r, c] == if r == 0 || c == 0 then BoundaryScore(al, r, c) else 0
    requires forall r, c :: 0 <= r <= |a| && 0 <= c <= |b| ==>
      p[r, c] == if r == 0 then Left else if c == 0 then Top else TopLeft
    modifies s, p
    ensures Mirrors(al, a, b, s, p)
  {
    for i := 0 to |a|
      invariant forall r, c :: 0 <= r <= |a| && 0 <= c <= |b| && (r <= i || c == 0) ==>
        s[r, c] == Score(al, a, b, r, c)
      invariant forall r, c :: 0 <= r <= |a| && 0 <= c <= |b| && (r <= i || c == 0) ==>
        p[r, c] == Ptr(AsWritten, al, a, b, r, c)
      invariant forall r, c :: i < r <= |a| && 0 < c <= |b| ==> p[r, c] == TopLeft
    {
      FillRow(al, a, b, s, p, i);
    }
    assert Mirrors(al, a, b, s, p) by {
      forall r: nat, c: nat | r <= |a| && c <= |b|
        ensures CellDone(al, a, b, s, p, r, c)
      {
      }
    }
  }

  /** One pass of the inner loop of the fill: row i + 1, left to right. */
  method FillRow(al: Aligner, a: seq<Symbol>, b: seq<Symbol>, s: array2<int>, p: array2<int>, i: nat)
    requires Shaped(s, a, b) && Shaped(p, a, b) && s != p && i < |a|
    requires forall r, c :: 0 <= r <= |a| && 0 <= c <= |b| && (r <= i || c == 0) ==>
      s[r, c] == Score(al, a, b, r, c)
    requires forall r, c :: 0 <= r <= |a| && 0 <= c <= |b| && (r <= i || c == 0) ==>
      p[r, c] == Ptr(AsWritten, al, a, b, r, c)
    requires forall r, c :: i < r <= |a| && 0 < c <= |b| ==> p[r, c] == TopLeft
    modifies s, p
    ensures forall r, c :: 0 <= r <= |a| && 0 <= c <= |b| && (r <= i + 1 || c == 0) ==>
      s[r, c] == Score(al, a, b, r, c)
    ensures forall r, c :: 0 <= r <= |a| && 0 <= c <= |b| && (r <= i + 1 || c == 0) ==>
      p[r, c] == Ptr(AsWritten, al, a, b, r, c)
    ensures forall r, c :: i + 1 < r <= |a| && 0 < c <= |b| ==> p[r, c] == TopLeft
    ensures forall r, c :: i + 1 < r <= |a| && 0 < c <= |b| ==> s[r, c] == old(s[r, c])
  {
    for j := 0 to |b|
      invariant forall r, c :: 0 <= r <= |a| && 0 <= c <= |b| && (r <= i || c == 0 || (r == i + 1 && c <= j)) ==>
        s[r, c] == Score(al, a, b, r, c)
      invariant forall r, c :: 0 <= r <= |a| && 0 <= c <= |b| && (r <= i || c == 0 || (r == i + 1 && c <= j)) ==>
        p[r, c] == Ptr(AsWritten, al, a, b, r, c)
      invariant forall r, c :: i < r <= |a| && 0 < c <= |b| && (r > i + 1 || c > j) ==> p[r, c] == TopLeft
      invariant forall r, c :: i + 1 < r <= |a| && 0 < c <= |b| ==> s[r, c] == old(s[r, c])
    {
      FillCell(al, a, b, s, p, i, j);
    }
  }

  /** The body of the inner loop: cell (i + 1, j + 1) from its three
      already-filled neighbours; every other cell is left as it was. */
  method FillCell(al: Aligner, a: seq<Symbol>, b: seq<Symbol>, s: array2<int>, p: array2<int>, i: nat, j: nat)
    requires Shaped(s, a, b) && Shaped(p, a, b) && s != p && i < |a| && j < |b|
    requires s[i, j] == Score(al, a, b, i, j) && s[i, j + 1] == Score(al, a, b, i, j + 1)
    requires s[i + 1, j] == Score(al, a, b, i + 1, j)
    requires p[i + 1, j + 1] == TopLeft
    modifies s, p
    ensures s[i + 1, j + 1] == Score(al, a, b, i + 1, j + 1)
    ensures p[i + 1, j + 1] == Ptr(AsWritten, al, a, b, i + 1, j + 1)
    ensures forall r, c :: 0 <= r <= |a| && 0 <= c <= |b| && (r != i + 1 || c != j + 1) ==>
      s[r, c] == old(s[r, c]) && p[r, c] == old(p[r, c])
  {
    var t0 := if a[i] == b[j] then s[i, j] + al.matchScore else s[i, j] + al.mismatchScore;
    var t1 := s[i, j + 1] + al.gap;
    var t2 := s[i + 1, j] + al.gap;
    assert [t0, t1, t2] == Candidates(al, a, b, i + 1, j + 1);
    var traceMax := Max3(t0, t1, t2);
    s[i + 1, j + 1] := traceMax;
    if al.mode == Local && traceMax < 0 {
      s[i + 1, j + 1] := 0;
    } else {
      p[i + 1, j + 1] := ArgMax3(t0, t1, t2);
    }
  }

  /** `np.argwhere(scoring_mat == np.max(scoring_mat))[0]`: the first cell in
      row-major order that holds the maximum. */
  method FirstMaxCell(s: array2<int>) returns (mi: nat, mj: nat)
    requires s.Length0 > 0 && s.Length1 > 0
    ensures mi < s.Length0 && mj < s.Length1
    ensures forall r, c :: 0 <= r < s.Length0 && 0 <= c < s.Length1 ==> s[r, c] <= s[mi, mj]
    ensures forall r, c :: 0 <= r < s.Length0 && 0 <= c < s.Length1 && (r < mi || (r == mi && c < mj)) ==>
      s[r, c] < s[mi, mj]
  {
    mi, mj := 0, 0;
    for i := 0 to s.Length0
      invariant mi < s.Length0 && mj < s.Length1 && (mi < i || (mi, mj) == (0, 0))
      invariant forall r, c :: 0 <= r < i && 0 <= c < s.Length1 ==> s[r, c] <= s[mi, mj]
      invariant forall r, c :: 0 <= r < i && 0 <= c < s.Length1 && (r < mi || (r == mi && c < mj)) ==>
        s[r, c] < s[mi, mj]
    {
      for j := 0 to s.Length1
        invariant mi < s.Length0 && mj < s.Length1 && (mi < i || (mi == i && mj < j) || (mi, mj) == (0, 0))
        invariant forall r, c :: 0 <= r < s.Length0 && 0 <= c < s.Length1 && (r < i || (r == i && c < j)) ==>
          s[r, c] <= s[mi, mj]
        invariant forall r, c :: 0 <= r < s.Length0 && 0 <= c < s.Length1 && (r < mi || (r == mi && c < mj)) ==>
          s[r, c] < s[mi, mj]
      {
        if s[i, j] > s[mi, mj] {
          mi, mj := i, j;
        }
      }
    }
  }

  /** The traceback loop: from (i0, j0) it appends one entry to each of the
      four lists per step, as the pointer at the current cell directs, until
      the loop condition fails; then the lists are reversed. A step that
      would take an index below zero is reported as an error. */
  method Traceback(al: Aligner, a: seq<Symbol>, b: seq<Symbol>, s: array2<int>, p: array2<int>, i0: nat, j0: nat)
      returns (r: Result<Columns, TraceError>)
    requires Mirrors(al, a, b, s, p)
    requires i0 <= |a| && j0 <= |b|
    ensures r == Walk(AsWritten, al, a, b, i0, j0)
  {
    var i, j := i0, j0;
    var alnA: seq<Symbol>, alnB: seq<Symbol>, warpA: seq<int>, warpB: seq<int> := [], [], [], [];
    JoinNothing(Walk(AsWritten, al, a, b, i0, j0));
    while (al.mode == Global && (i > 0 || j > 0)) || (al.mode == Local && s[i, j] > 0)
      invariant 0 <= i <= |a| && 0 <= j <= |b|
      invariant |alnA| == |alnB| == |warpA| == |warpB|
      invariant Walk(AsWritten, al, a, b, i0, j0) ==
        Join(Walk(AsWritten, al, a, b, i, j), Columns(Reverse(alnA), Reverse(alnB), Reverse(warpA), Reverse(warpB)))
      decreases i + j
    {
      assert CellDone(al, a, b, s, p, i, j);
      ghost var oldA, oldB, oldWA, oldWB := alnA, alnB, warpA, warpB;
      ghost var x, y, oi, oj := GapMark, GapMark, i, j;
      warpA := warpA + [i];
      warpB := warpB + [j];
      if p[i, j] == TopLeft {
        if i == 0 || j == 0 {
          return Err(BoundaryStep(i, j));
        }
        x, y := a[i - 1], b[j - 1];
        alnA := alnA + [a[i - 1]];
        alnB := alnB + [b[j - 1]];
        i := i - 1;
        j := j - 1;
      } else if p[i, j] == Left {
        if i == 0 {
          return Err(BoundaryStep(i, j));
        }
        x, y := a[i - 1], GapMark;
        alnA := alnA + [a[i - 1]];
        alnB := alnB + [GapMark];
        i := i - 1;
      } else {
        if j == 0 {
          return Err(BoundaryStep(i, j));
        }
        x, y := GapMark, b[j - 1];
        alnA := alnA + [GapMark];
        alnB := alnB + [b[j - 1]];
        j := j - 1;
      }
      WalkStepAt(al, a, b, oi, oj, i, j, x, y);
      StepKeepsJoin(Walk(AsWritten, al, a, b, i0, j0), Walk(AsWritten, al, a, b, i, j),
                    x, y, oi, oj, oldA, oldB, oldWA, oldWB);
    }
    assert CellDone(al, a, b, s, p, i, j);
    assert Walk(AsWritten, al, a, b, i, j) == Ok(NoColumns);
    assert [] + Reverse(alnA) == Reverse(alnA) && [] + Reverse(alnB) == Reverse(alnB);
    assert [] + Reverse(warpA) == Reverse(warpA) && [] + Reverse(warpB) == Reverse(warpB);
    r := Ok(Columns(Reverse(alnA), Reverse(alnB), Reverse(warpA), Reverse(warpB)));
  }

  /** The step the loop body just took is the first step of `Walk` from (oi, oj). */
  lemma WalkStepAt(al: Aligner, a: seq<Symbol>, b: seq<Symbol>, oi: nat, oj: nat, i: nat, j: nat, x: Symbol, y: Symbol)
    requires oi <= |a| && oj <= |b| && Continues(al, a, b, oi, oj)
    requires var q := Ptr(AsWritten, al, a, b, oi, oj);
      (q == TopLeft && 0 < oi && 0 < oj && i == oi - 1 && j == oj - 1 && x == a[oi - 1] && y == b[oj - 1]) ||
      (q == Left && 0 < oi && i == oi - 1 && j == oj && x == a[oi - 1] && y == GapMark) ||
      (q != TopLeft && q != Left && 0 < oj && i == oi && j == oj - 1 && x == GapMark && y == b[oj - 1])
    ensures i <= |a| && j <= |b|
    ensures Walk(AsWritten, al, a, b, oi, oj) == Snoc(Walk(AsWritten, al, a, b, i, j), x, y, oi, oj)
  {
  }

  /** Concatenates `tail` after the columns of a successful walk. */
  function Join(r: Result<Columns, TraceError>, tail: Columns): (r': Result<Columns, TraceError>)
  {
    match r
    case Ok(c) => Ok(Columns(c.alnA + tail.alnA, c.alnB + tail.alnB, c.pathA + tail.pathA, c.pathB + tail.pathB))
    case Err(e) => Err(e)
  }

  /** Emitting one more column moves it from the walk still to be done to
      the front of the reversed lists. */
  lemma StepKeepsJoin(whole: Result<Columns, TraceError>, rest: Result<Columns, TraceError>,
                      x: Symbol, y: Symbol, i: int, j: int,
                      alnA: seq<Symbol>, alnB: seq<Symbol>, warpA: seq<int>, warpB: seq<int>)
    requires whole == Join(Snoc(rest, x, y, i, j), Columns(Reverse(alnA), Reverse(alnB), Reverse(warpA), Reverse(warpB)))
    ensures whole == Join(rest, Columns(Reverse(alnA + [x]), Reverse(alnB + [y]), Reverse(warpA + [i]), Reverse(warpB + [j])))
  {
    JoinSnoc(rest, x, y, i, j, Columns(Reverse(alnA), Reverse(alnB), Reverse(warpA), Reverse(warpB)));
    ReverseSnoc(alnA, x);
    ReverseSnoc(alnB, y);
    ReverseSnoc(warpA, i);
    ReverseSnoc(warpB, j);
  }

  lemma JoinNothing(r: Result<Columns, TraceError>)
    ensures Join(r, Columns(Reverse([]), Reverse([]), Reverse([]), Reverse([]))) == r
  {
    if r.Ok? {
      assert r.value.alnA + [] == r.value.alnA && r.value.alnB + [] == r.value.alnB;
      assert r.value.pathA + [] == r.value.pathA && r.value.pathB + [] == r.value.pathB;
    }
  }

  lemma JoinSnoc(r: Result<Columns, TraceError>, x: Symbol, y: Symbol, i: int, j: int, tail: Columns)
    ensures Join(Snoc(r, x, y, i, j), tail) ==
      Join(r, Columns([x] + tail.alnA, [y] + tail.alnB, [i] + tail.pathA, [j] + tail.pathB))
  {
    if r.Ok? {
      var c := r.value;
      assert c.alnA + [x] + tail.alnA == c.alnA + ([x] + tail.alnA);
      assert c.alnB + [y] + tail.alnB == c.alnB + ([y] + tail.alnB);
      assert c.pathA + [i] + tail.pathA == c.pathA + ([i] + tail.pathA);
      assert c.pathB + [j] + tail.pathB == c.pathB + ([j] + tail.pathB);
    }
  }

  /** `align`: initialise, fill, pick the traceback start, trace back and
      shape the outputs. In local mode `pick` is the cell `random.choice`
      returned when several cells hold the maximum; without it the first
      maximal cell in row-major order is used. */
  method Align(al: Aligner, a: seq<Symbol>, b: seq<Symbol>, pick: Option<(nat, nat)>)
      returns (r: Result<Alignment, TraceError>)
    requires al.mode == Local && pick.Some? ==> IsMaxCell(al, a, b, pick.value.0, pick.value.1)
    ensures al.mode == Global ==> r == Output(al, a, b, |a|, |b|)
    ensures al.mode == Local && pick.Some? ==> r == Output(al, a, b, pick.value.0, pick.value.1)
    ensures al.mode == Local && pick.None? ==>
      exists si: nat, sj: nat :: IsFirstMaxCell(al, a, b, si, sj) && r == Output(al, a, b, si, sj)
  {
    var s := InitScoringMat(al, |a|, |b|);
    var p := InitPtrMat(|a|, |b|);
    Fill(al, a, b, s, p);
    var i: nat, j: nat := |a|, |b|;
    if al.mode == Local {
      i, j := FirstMaxCell(s);
      FirstMaxOfFilled(al, a, b, s, p, i, j);
      if pick.Some? {
        i, j := pick.value.0, pick.value.1;
      }
    }
    var cols := Traceback(al, a, b, s, p, i, j);
    match cols
    case Err(e) =>
      r := Err(e);
    case Ok(c) =>
      var scoring := DropBoundary(al, a, b, s, p);
      r := Ok(Alignment(c.alnA, c.alnB, Shift(c.pathA), Shift(c.pathB), scoring));
  }

  /** The first maximal cell of a filled matrix is the first maximal cell of
      the score recurrence. */
  lemma FirstMaxOfFilled(al: Aligner, a: seq<Symbol>, b: seq<Symbol>, s: array2<int>, p: array2<int>, i: nat, j: nat)
    requires Mirrors(al, a, b, s, p) && i <= |a| && j <= |b|
    requires forall r, c :: 0 <= r < s.Length0 && 0 <= c < s.Length1 ==> s[r, c] <= s[i, j]
    requires forall r, c :: 0 <= r < s.Length0 && 0 <= c < s.Length1 && (r < i || (r == i && c < j)) ==>
      s[r, c] < s[i, j]
    ensures IsFirstMaxCell(al, a, b, i, j)
  {
    forall r: nat, c: nat | r <= |a| && c <= |b|
      ensures Score(al, a, b, r, c) <= Score(al, a, b, i, j)
      ensures r < i || (r == i && c < j) ==> Score(al, a, b, r, c) < Score(al, a, b, i, j)
    {
      assert CellDone(al, a, b, s, p, r, c) && CellDone(al, a, b, s, p, i, j);
    }
  }

  /** `scoring_mat[:, 1:][1:, :]`: the filled matrix without row 0 and column 0. */
  method DropBoundary(al: Aligner, a: seq<Symbol>, b: seq<Symbol>, s: array2<int>, p: array2<int>)
      returns (m: seq<seq<int>>)
    requires Mirrors(al, a, b, s, p)
    ensures m == InteriorScores(al, a, b)
  {
    m := seq(|a|, r requires 0 <= r < |a| reads s =>
      seq(|b|, k requires 0 <= k < |b| reads s => s[r + 1, k + 1]));
    forall r | 0 <= r < |a|
      ensures m[r] == InteriorScores(al, a, b)[r]
    {
      forall k | 0 <= k < |b|
        ensures m[r][k] == InteriorScores(al, a, b)[r][k]
      {
        assert CellDone(al, a, b, s, p, r + 1, k + 1);
      }
    }
  }
}
