// Maze::stamp (src/MazeGen.cpp lines 244-270): the walls of a pattern maze,
// no larger than the receiver, scaled onto the receiver.  A vertical pattern
// wall right(pi, pj) becomes a run of vertical walls in one target column; a
// horizontal pattern wall bottom(pi, pj) a run of horizontal walls in one
// target row.  Nothing else is written, and only Wall is written.
module MazeStamp {
  import opened MazeGrid
  import opened MazeLayout
  import opened Random

  // ---------------------------------------------------------------------------
  // Scaling a pattern coordinate

  /** The pattern coordinate x scaled to a target extent n: (x * n) / pn, on
      non-negative operands, where C's division and Dafny's agree. */
  function Scale(x: int, n: int, pn: int): int
    requires pn >= 1
  {
    (x * n) / pn
  }

  lemma DivMono(a: int, b: int, p: int)
    requires p >= 1 && 0 <= a <= b
    ensures a / p <= b / p
  {
    if b / p < a / p {
      MulStep(b / p, a / p, p);
    }
  }

  /** Scaling up never lands two consecutive pattern coordinates on the same
      target coordinate. */
  lemma ScaleStep(x: int, n: int, pn: int)
    requires 1 <= pn <= n && x >= 0
    ensures Scale(x, n, pn) + 1 <= Scale(x + 1, n, pn)
  {
    MulLeftMono(x, 0, n);
    var q := (x * n) / pn;
    var r := (x * n) % pn;
    DivUnique(x * n + pn, pn, q + 1, r);
    assert (x + 1) * n == x * n + n;
    DivMono(x * n + pn, (x + 1) * n, pn);
  }

  /** The whole pattern extent scales to the whole target extent. */
  lemma ScaleFull(n: int, pn: int)
    requires 1 <= pn <= n
    ensures Scale(pn, n, pn) == n
  {
    DivUnique(pn * n, pn, n, 0);
  }

  /** Scaling by n/n is the identity. */
  lemma ScaleSame(x: int, n: int)
    requires n >= 1
    ensures Scale(x, n, n) == x
  {
    DivUnique(x * n, n, x, 0);
  }

  /** Scale(x) leaves room for the pn - x coordinates still to come. */
  lemma {:induction false} ScaleUpper(x: int, n: int, pn: int)
    requires 1 <= pn <= n && 0 <= x <= pn
    ensures Scale(x, n, pn) <= n - (pn - x)
    decreases pn - x
  {
    if x == pn {
      ScaleFull(n, pn);
    } else {
      ScaleUpper(x + 1, n, pn);
      ScaleStep(x, n, pn);
    }
  }

  /** The target block of pattern coordinate x, from Scale(x) up to
      Scale(x+1), is a non-empty part of 0..n-1 whose last coordinate leaves
      room for the pn - x - 1 blocks after it.  This is what keeps every index
      stamp computes in bounds: for a vertical wall at pattern column
      x <= pn - 2 the target column Scale(x+1) - 1 is at most n - 2. */
  lemma ScaleBlock(x: int, n: int, pn: int)
    requires 1 <= pn <= n && 0 <= x < pn
    ensures 0 <= Scale(x, n, pn) < Scale(x + 1, n, pn) <= n - (pn - x - 1)
  {
    MulLeftMono(x, 0, n);
    ScaleStep(x, n, pn);
    ScaleUpper(x + 1, n, pn);
  }

  // ---------------------------------------------------------------------------
  // Which target slots a pattern wall covers

  /** Vertical pattern wall right(pi, pj) is drawn on target slot right(a, b)
      of a w by h receiver. */
  predicate RightCovers(p: Grid, w: int, h: int, pi: int, pj: int, a: int, b: int)
    requires p.Valid()
  {
    a == Scale(pi + 1, w, p.w) - 1 && Scale(pj, h, p.h) <= b < Scale(pj + 1, h, p.h)
  }

  /** Horizontal pattern wall bottom(pi, pj) is drawn on target slot
      bottom(a, b) of a w by h receiver. */
  predicate BottomCovers(p: Grid, w: int, h: int, pi: int, pj: int, a: int, b: int)
    requires p.Valid()
  {
    Scale(pi, w, p.w) <= a < Scale(pi + 1, w, p.w) && b == Scale(pj + 1, h, p.h) - 1
  }

  /** Some vertical pattern wall that the first pair of loops visits before
      (ni, nj) covers right(a, b). */
  ghost predicate RightStampedBefore(p: Grid, w: int, h: int, ni: int, nj: int, a: int, b: int)
    requires p.Valid()
  {
    exists pi, pj {:trigger RightCovers(p, w, h, pi, pj, a, b)} ::
      0 <= pi < p.w - 1 && 0 <= pj < p.h && (pi < ni || (pi == ni && pj < nj)) &&
      Right(p, pi, pj) == Wall && RightCovers(p, w, h, pi, pj, a, b)
  }

  /** Some horizontal pattern wall that the second pair of loops visits before
      (ni, nj) covers bottom(a, b). */
  ghost predicate BottomStampedBefore(p: Grid, w: int, h: int, ni: int, nj: int, a: int, b: int)
    requires p.Valid()
  {
    exists pi, pj {:trigger BottomCovers(p, w, h, pi, pj, a, b)} ::
      0 <= pi < p.w && 0 <= pj < p.h - 1 && (pi < ni || (pi == ni && pj < nj)) &&
      Bottom(p, pi, pj) == Wall && BottomCovers(p, w, h, pi, pj, a, b)
  }

  /** Some vertical pattern wall covers right(a, b). */
  ghost predicate RightStamped(p: Grid, w: int, h: int, a: int, b: int)
    requires p.Valid()
  {
    RightStampedBefore(p, w, h, p.w - 1, 0, a, b)
  }

  /** Some horizontal pattern wall covers bottom(a, b). */
  ghost predicate BottomStamped(p: Grid, w: int, h: int, a: int, b: int)
    requires p.Valid()
  {
    BottomStampedBefore(p, w, h, p.w, 0, a, b)
  }

  /** Visiting pattern slot right(ni, nj) adds the slots it covers when it is
      a wall, and nothing otherwise. */
  lemma RightBeforeNext(p: Grid, w: int, h: int, ni: int, nj: int)
    requires p.Valid() && 0 <= ni < p.w - 1 && 0 <= nj < p.h
    ensures forall a, b :: (RightStampedBefore(p, w, h, ni, nj + 1, a, b) ==
      (RightStampedBefore(p, w, h, ni, nj, a, b) ||
       (Right(p, ni, nj) == Wall && RightCovers(p, w, h, ni, nj, a, b))))
  {
  }

  lemma RightBeforeWrap(p: Grid, w: int, h: int, ni: int)
    requires p.Valid()
    ensures forall a, b :: (RightStampedBefore(p, w, h, ni, p.h, a, b) ==
      RightStampedBefore(p, w, h, ni + 1, 0, a, b))
  {
  }

  lemma BottomBeforeNext(p: Grid, w: int, h: int, ni: int, nj: int)
    requires p.Valid() && 0 <= ni < p.w && 0 <= nj < p.h - 1
    ensures forall a, b :: (BottomStampedBefore(p, w, h, ni, nj + 1, a, b) ==
      (BottomStampedBefore(p, w, h, ni, nj, a, b) ||
       (Bottom(p, ni, nj) == Wall && BottomCovers(p, w, h, ni, nj, a, b))))
  {
  }

  lemma BottomBeforeWrap(p: Grid, w: int, h: int, ni: int, last: int)
    requires p.Valid() && last == p.h - 1
    ensures forall a, b :: (BottomStampedBefore(p, w, h, ni, last, a, b) ==
      BottomStampedBefore(p, w, h, ni + 1, 0, a, b))
  {
  }

  // ---------------------------------------------------------------------------
  // The result of stamp

  /** The first pass: every vertical slot some vertical pattern wall covers
      becomes Wall. */
  ghost function StampRights(g: Grid, p: Grid): (r: Grid)
    requires g.Valid() && p.Valid()
    ensures r.Valid() && r.w == g.w && r.h == g.h && r.horz == g.horz
  {
    g.(vert := seq(g.w - 1, a requires 0 <= a < g.w - 1 =>
      seq(g.h, b requires 0 <= b < g.h =>
        if RightStamped(p, g.w, g.h, a, b) then Wall else g.vert[a][b])))
  }

  /** The second pass: every horizontal slot some horizontal pattern wall
      covers becomes Wall. */
  ghost function StampBottoms(g: Grid, p: Grid): (r: Grid)
    requires g.Valid() && p.Valid()
    ensures r.Valid() && r.w == g.w && r.h == g.h && r.vert == g.vert
  {
    g.(horz := seq(g.w, a requires 0 <= a < g.w =>
      seq(g.h - 1, b requires 0 <= b < g.h - 1 =>
        if BottomStamped(p, g.w, g.h, a, b) then Wall else g.horz[a][b])))
  }

  /** Maze::stamp(pattern) on a receiver g, when the pattern fits. */
  ghost function StampGrid(g: Grid, p: Grid): (r: Grid)
    requires g.Valid() && p.Valid()
    ensures r.Valid() && r.w == g.w && r.h == g.h
  {
    StampBottoms(StampRights(g, p), p)
  }

  /** Slot by slot: a covered slot is Wall, any other keeps its state. */
  lemma StampGridAt(g: Grid, p: Grid)
    requires g.Valid() && p.Valid()
    ensures forall a, b :: 0 <= a < g.w - 1 && 0 <= b < g.h ==>
      Right(StampGrid(g, p), a, b) == if RightStamped(p, g.w, g.h, a, b) then Wall else Right(g, a, b)
    ensures forall a, b :: 0 <= a < g.w && 0 <= b < g.h - 1 ==>
      Bottom(StampGrid(g, p), a, b) == if BottomStamped(p, g.w, g.h, a, b) then Wall else Bottom(g, a, b)
  {
  }

  /** stamp only ever writes Wall: every slot it changes is Wall afterwards,
      and the walls the receiver had stay. */
  lemma StampOnlyAddsWalls(g: Grid, p: Grid)
    requires g.Valid() && p.Valid()
    ensures forall a, b :: 0 <= a < g.w - 1 && 0 <= b < g.h ==>
      Right(StampGrid(g, p), a, b) == Right(g, a, b) || Right(StampGrid(g, p), a, b) == Wall
    ensures forall a, b :: 0 <= a < g.w && 0 <= b < g.h - 1 ==>
      Bottom(StampGrid(g, p), a, b) == Bottom(g, a, b) || Bottom(StampGrid(g, p), a, b) == Wall
  {
    StampGridAt(g, p);
  }

  /** Every vertical wall of a pattern that fits is drawn: right(pi, pj) =
      Wall in the pattern makes the target column col = Scale(pi+1) - 1, which
      is at most w - 2, Wall on the whole non-empty run of rows from
      lo = Scale(pj) up to hi = Scale(pj+1), which ends at most at h. */
  lemma StampDrawsRight(g: Grid, p: Grid, pi: int, pj: int, col: int, lo: int, hi: int)
    requires g.Valid() && p.Valid() && p.w <= g.w && p.h <= g.h
    requires 0 <= pi < p.w - 1 && 0 <= pj < p.h && Right(p, pi, pj) == Wall
    requires col == Scale(pi + 1, g.w, p.w) - 1 && lo == Scale(pj, g.h, p.h) && hi == Scale(pj + 1, g.h, p.h)
    ensures 0 <= col <= g.w - 2 && 0 <= lo < hi <= g.h
    ensures forall b :: lo <= b < hi ==> Right(StampGrid(g, p), col, b) == Wall
  {
    ScaleBlock(pi, g.w, p.w);
    ScaleStep(pi + 1, g.w, p.w);
    ScaleBlock(pj, g.h, p.h);
    StampGridAt(g, p);
    forall b | lo <= b < hi
      ensures RightStamped(p, g.w, g.h, col, b)
    {
      assert RightCovers(p, g.w, g.h, pi, pj, col, b);
    }
  }

  /** Every horizontal wall of a pattern that fits is drawn: bottom(pi, pj) =
      Wall in the pattern makes the target row row = Scale(pj+1) - 1, which is
      at most h - 2, Wall on the whole non-empty run of columns from
      lo = Scale(pi) up to hi = Scale(pi+1), which ends at most at w. */
  lemma StampDrawsBottom(g: Grid, p: Grid, pi: int, pj: int, row: int, lo: int, hi: int)
    requires g.Valid() && p.Valid() && p.w <= g.w && p.h <= g.h
    requires 0 <= pi < p.w && 0 <= pj < p.h - 1 && Bottom(p, pi, pj) == Wall
    requires row == Scale(pj + 1, g.h, p.h) - 1 && lo == Scale(pi, g.w, p.w) && hi == Scale(pi + 1, g.w, p.w)
    ensures 0 <= row <= g.h - 2 && 0 <= lo < hi <= g.w
    ensures forall a :: lo <= a < hi ==> Bottom(StampGrid(g, p), a, row) == Wall
  {
    ScaleBlock(pj, g.h, p.h);
    ScaleStep(pj + 1, g.h, p.h);
    ScaleBlock(pi, g.w, p.w);
    StampGridAt(g, p);
    forall a | lo <= a < hi
      ensures BottomStamped(p, g.w, g.h, a, row)
    {
      assert BottomCovers(p, g.w, g.h, pi, pj, a, row);
    }
  }

  /** Stamping a second time changes nothing. */
  lemma StampIdempotent(g: Grid, p: Grid)
    requires g.Valid() && p.Valid()
    ensures StampGrid(StampGrid(g, p), p) == StampGrid(g, p)
  {
    var r := StampGrid(g, p);
    var r2 := StampGrid(r, p);
    StampGridAt(g, p);
    StampGridAt(r, p);
    GridExt(r, r2);
  }

  /** A maze stamped with itself is unchanged: at equal size every pattern
      wall covers exactly its own slot. */
  lemma StampSelf(p: Grid)
    requires p.Valid()
    ensures StampGrid(p, p) == p
  {
    var r := StampGrid(p, p);
    StampGridAt(p, p);
    forall a, b | 0 <= a < p.w - 1 && 0 <= b < p.h
      ensures Right(r, a, b) == Right(p, a, b)
    {
      if RightStamped(p, p.w, p.h, a, b) {
        var pi, pj :| 0 <= pi < p.w - 1 && 0 <= pj < p.h && Right(p, pi, pj) == Wall &&
          RightCovers(p, p.w, p.h, pi, pj, a, b);
        ScaleSame(pi + 1, p.w);
        ScaleSame(pj, p.h);
        ScaleSame(pj + 1, p.h);
      }
    }
    forall a, b | 0 <= a < p.w && 0 <= b < p.h - 1
      ensures Bottom(r, a, b) == Bottom(p, a, b)
    {
      if BottomStamped(p, p.w, p.h, a, b) {
        var pi, pj :| 0 <= pi < p.w && 0 <= pj < p.h - 1 && Bottom(p, pi, pj) == Wall &&
          BottomCovers(p, p.w, p.h, pi, pj, a, b);
        ScaleSame(pi, p.w);
        ScaleSame(pi + 1, p.w);
        ScaleSame(pj + 1, p.h);
      }
    }
    GridExt(p, r);
  }
}
