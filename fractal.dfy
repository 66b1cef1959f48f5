// Maze::_fractal and Maze::generateFractal: lines through the centre of a
// square of cells, each with openings placed by the range helpers, then the
// same on the four quarter squares, as a function of the grid and of the
// stream of rand() draws.
module MazeFractal {
  import opened MazeGrid
  import opened Random
  import opened MazeSplit
  import opened MazePaths

  /** Maze::frac_type. */
  datatype FracType = Regular | Reverse | RandomOrientNoCross | ReverseRandomOrientNoCross | RandomOrient | AllRandom

  predicate Reversed(ft: FracType) {
    ft == Reverse || ft == ReverseRandomOrientNoCross
  }

  // ---------------------------------------------------------------------------
  // The range helpers (src/MazeGen.cpp lines 576-607)

  /** Maze::_left_range(x, size, ft) over n = _w, and Maze::_bottom_range
      over n = _h: a position among max(x, 0) .. min(x+size, n) - 1, the
      highest for the reverse types, the lowest for the other fixed types,
      one drawn with rand() for frac_all_random; and the next unused draw. */
  function LowRange(n: int, x: int, size: int, ft: FracType, draws: nat -> nat, pos: nat): (r: (int, nat))
    ensures var lo, hi := (if x < 0 then 0 else x), (if x + size < n then x + size else n) - 1;
      lo <= hi ==> lo <= r.0 <= hi
    ensures r.1 == pos || r.1 == pos + 1
  {
    var lo := if x < 0 then 0 else x;
    var hi := (if x + size < n then x + size else n) - 1;
    if Reversed(ft) then (hi, pos)
    else if ft != AllRandom then (lo, pos)
    else if lo < hi then (lo + RandMod(draws(pos), hi + 1 - lo), pos + 1)
    else (lo, pos)
  }

  /** Maze::_right_range(x, size, ft) over n = _w, and Maze::_top_range over
      n = _h: a position among max(x-size, 0) .. min(x, n) - 1, the lowest
      for the reverse types, the highest for the other fixed types, one drawn
      with rand() for frac_all_random; and the next unused draw. */
  function HighRange(n: int, x: int, size: int, ft: FracType, draws: nat -> nat, pos: nat): (r: (int, nat))
    ensures var lo, hi := (if x - size > 0 then x - size else 0), (if x > n then n else x) - 1;
      lo <= hi ==> lo <= r.0 <= hi
    ensures r.1 == pos || r.1 == pos + 1
  {
    var hi := (if x > n then n else x) - 1;
    var lo := if x - size > 0 then x - size else 0;
    if Reversed(ft) then (lo, pos)
    else if ft != AllRandom then (hi, pos)
    else if lo < hi then (lo + RandMod(draws(pos), hi + 1 - lo), pos + 1)
    else (lo, pos)
  }

  /** The fixed types always take the same end of a range. */
  lemma RangesFixed(n: int, x: int, size: int, ft: FracType, draws: nat -> nat, pos: nat)
    requires ft != AllRandom
    ensures LowRange(n, x, size, ft, draws, pos).1 == pos && HighRange(n, x, size, ft, draws, pos).1 == pos
    ensures Reversed(ft) ==> LowRange(n, x, size, ft, draws, pos).0 == (if x + size < n then x + size else n) - 1
    ensures !Reversed(ft) ==> LowRange(n, x, size, ft, draws, pos).0 == (if x < 0 then 0 else x)
  {
  }

  // ---------------------------------------------------------------------------
  // One level of _fractal

  /** The square of size*2 by size*2 cells centred on the grid corner (i, j),
      in the terms of MazeSplit's rectangles. */
  ghost predicate ChangesInSquare(g: Grid, r: Grid, i: int, j: int, size: int) {
    ChangesInside(g, r, i - size, j - size, 2 * size, 2 * size)
  }

  /** `top(_left_range(i, size, ft), j) = s_passage`, or with _right_range
      when high: one opening in the horizontal line above row j. */
  function LineTop(g: Grid, i: int, j: int, size: int, ft: FracType, high: bool, draws: nat -> nat, pos: nat): (r: (Grid, nat))
    requires g.Valid() && size >= 1 && 0 < j < g.h
    requires if high then 1 <= i && i - size < g.w else i < g.w && i + size > 0
    ensures r.0.Valid() && r.0.w == g.w && r.0.h == g.h && r.1 >= pos
  {
    var x := if high then HighRange(g.w, i, size, ft, draws, pos) else LowRange(g.w, i, size, ft, draws, pos);
    (SetTop(g, x.0, j, Passage), x.1)
  }

  /** The opening LineTop makes is a slot between two cells of the square. */
  lemma LineTopInside(g: Grid, i: int, j: int, size: int, ft: FracType, high: bool, draws: nat -> nat, pos: nat)
    requires g.Valid() && size >= 1 && 0 < j < g.h
    requires if high then 1 <= i && i - size < g.w else i < g.w && i + size > 0
    ensures ChangesInSquare(g, LineTop(g, i, j, size, ft, high, draws, pos).0, i, j, size)
  {
    var x := if high then HighRange(g.w, i, size, ft, draws, pos) else LowRange(g.w, i, size, ft, draws, pos);
    OpenHorzInside(g, x.0, j - 1, i - size, j - size, 2 * size, 2 * size);
  }

  /** `left(i, _bottom_range(j, size, ft)) = s_passage`, or with _top_range
      when high: one opening in the vertical line left of column i. */
  function LineLeft(g: Grid, i: int, j: int, size: int, ft: FracType, high: bool, draws: nat -> nat, pos: nat): (r: (Grid, nat))
    requires g.Valid() && size >= 1 && 0 < i < g.w
    requires if high then 1 <= j && j - size < g.h else j < g.h && j + size > 0
    ensures r.0.Valid() && r.0.w == g.w && r.0.h == g.h && r.1 >= pos
  {
    var y := if high then HighRange(g.h, j, size, ft, draws, pos) else LowRange(g.h, j, size, ft, draws, pos);
    (SetLeft(g, i, y.0, Passage), y.1)
  }

  /** The opening LineLeft makes is a slot between two cells of the square. */
  lemma LineLeftInside(g: Grid, i: int, j: int, size: int, ft: FracType, high: bool, draws: nat -> nat, pos: nat)
    requires g.Valid() && size >= 1 && 0 < i < g.w
    requires if high then 1 <= j && j - size < g.h else j < g.h && j + size > 0
    ensures ChangesInSquare(g, LineLeft(g, i, j, size, ft, high, draws, pos).0, i, j, size)
  {
    var y := if high then HighRange(g.h, j, size, ft, draws, pos) else LowRange(g.h, j, size, ft, draws, pos);
    OpenVertInside(g, i - 1, y.0, i - size, j - size, 2 * size, 2 * size);
  }

  /** The side left closed in the middle of the grid: south for the two
      regular types, drawn next to the corner to avoid for
      frac_random_orient_no_cross, and drawn among all four otherwise. */
  function Orientation(ft: FracType, avoid: int, draws: nat -> nat, pos: nat): (r: (int, nat))
    ensures -1 <= avoid ==> 0 <= r.0 < 4
    ensures ft == RandomOrientNoCross && 0 <= avoid < 4 ==> r.0 == avoid || r.0 == (avoid + 3) % 4
    ensures ft == Regular || ft == Reverse ==> r == (1, pos)
    ensures ft != Regular && ft != Reverse ==> r.1 == pos + 1
  {
    match ft
    case Regular => (1, pos)
    case Reverse => (1, pos)
    case RandomOrientNoCross => (CRem(avoid + 3 + RandMod(draws(pos), 2), 4), pos + 1)
    case _ => (RandMod(draws(pos), 4), pos + 1)
  }

  /** The lines one call of _fractal opens, the side d it leaves closed (-1
      when it opens a single line), and the next unused draw. */
  datatype Lines = Lines(g: Grid, d: int, pos: nat)

  /** The square around (i, j) does not reach into the grid. */
  predicate Outside(g: Grid, i: int, j: int, size: int) {
    i + size <= 0 || i - size >= g.w || j + size <= 0 || j - size >= g.h
  }

  /** The part of _fractal(i, j, size, ft, avoid) before the recursion: a
      centre left or right of the grid opens one slot of the horizontal line
      at j, one above or below it opens one slot of the vertical line at i,
      and a centre inside opens all four half-lines but the side d. */
  function FractalLines(g: Grid, i: int, j: int, size: int, ft: FracType, avoid: int, draws: nat -> nat, pos: nat): (r: Lines)
    requires g.Valid() && size >= 1 && !Outside(g, i, j, size)
    ensures r.g.Valid() && r.g.w == g.w && r.g.h == g.h && r.pos >= pos
  {
    if i <= 0 then
      if 0 < j < g.h then
        var t := LineTop(g, i, j, size, ft, false, draws, pos);
        Lines(t.0, -1, t.1)
      else Lines(g, -1, pos)
    else if i >= g.w then
      if 0 < j < g.h then
        var t := LineTop(g, i, j, size, ft, true, draws, pos);
        Lines(t.0, -1, t.1)
      else Lines(g, -1, pos)
    else if j <= 0 then
      var t := LineLeft(g, i, j, size, ft, false, draws, pos);
      Lines(t.0, -1, t.1)
    else if j >= g.h then
      var t := LineLeft(g, i, j, size, ft, true, draws, pos);
      Lines(t.0, -1, t.1)
    else
      var o := Orientation(ft, avoid, draws, pos);
      CrossLines(g, i, j, size, ft, o.0, draws, o.1)
  }

  /** Half-line k of a centre inside the grid, in the order of the
      directions: 0 east (columns i .. i+size-1 of the line above row j),
      1 south (rows j .. j+size-1 of the line left of column i), 2 west and
      3 north. */
  function HalfLine(g: Grid, i: int, j: int, size: int, ft: FracType, k: int, draws: nat -> nat, pos: nat): (r: (Grid, nat))
    requires g.Valid() && size >= 1 && 0 < i < g.w && 0 < j < g.h
    ensures r.0.Valid() && r.0.w == g.w && r.0.h == g.h && r.1 >= pos
  {
    if k == 0 then LineTop(g, i, j, size, ft, false, draws, pos)
    else if k == 1 then LineLeft(g, i, j, size, ft, false, draws, pos)
    else if k == 2 then LineTop(g, i, j, size, ft, true, draws, pos)
    else LineLeft(g, i, j, size, ft, true, draws, pos)
  }

  /** Half-line k, unless k is the side d left closed. */
  function SkipLine(g: Grid, i: int, j: int, size: int, ft: FracType, d: int, k: int, draws: nat -> nat, pos: nat): (r: (Grid, nat))
    requires g.Valid() && size >= 1 && 0 < i < g.w && 0 < j < g.h
    ensures r.0.Valid() && r.0.w == g.w && r.0.h == g.h && r.1 >= pos
    ensures d == k ==> r == (g, pos)
  {
    if d != k then HalfLine(g, i, j, size, ft, k, draws, pos) else (g, pos)
  }

  /** Changes inside one square, made in three or four steps, are changes
      inside that square. */
  lemma SquareSteps(g: Grid, a: Grid, b: Grid, c: Grid, e: Grid, i: int, j: int, size: int)
    requires ChangesInSquare(g, a, i, j, size) && ChangesInSquare(a, b, i, j, size)
    requires ChangesInSquare(b, c, i, j, size) && ChangesInSquare(c, e, i, j, size)
    ensures ChangesInSquare(g, e, i, j, size)
  {
    var lo, lj, n := i - size, j - size, 2 * size;
    ChangesCompose(g, a, b, lo, lj, n, n, lo, lj, n, n);
    ChangesCompose(g, b, c, lo, lj, n, n, lo, lj, n, n);
    ChangesCompose(g, c, e, lo, lj, n, n, lo, lj, n, n);
  }

  /** The four half-lines from a centre inside the grid but the one numbered
      d, in the order east, south, west, north. */
  function CrossLines(g: Grid, i: int, j: int, size: int, ft: FracType, d: int, draws: nat -> nat, pos: nat): (r: Lines)
    requires g.Valid() && size >= 1 && 0 < i < g.w && 0 < j < g.h
    ensures r.g.Valid() && r.g.w == g.w && r.g.h == g.h && r.pos >= pos && r.d == d
  {
    var a := SkipLine(g, i, j, size, ft, d, 0, draws, pos);
    var b := SkipLine(a.0, i, j, size, ft, d, 1, draws, a.1);
    var c := SkipLine(b.0, i, j, size, ft, d, 2, draws, b.1);
    var e := SkipLine(c.0, i, j, size, ft, d, 3, draws, c.1);
    Lines(e.0, d, e.1)
  }

  lemma SkipLineInside(g: Grid, i: int, j: int, size: int, ft: FracType, d: int, k: int, draws: nat -> nat, pos: nat)
    requires g.Valid() && size >= 1 && 0 < i < g.w && 0 < j < g.h
    ensures ChangesInSquare(g, SkipLine(g, i, j, size, ft, d, k, draws, pos).0, i, j, size)
  {
    if d == k {
      assert ChangesInSquare(g, g, i, j, size);
    } else {
      HalfLineInside(g, i, j, size, ft, k, draws, pos);
    }
  }

  lemma HalfLineInside(g: Grid, i: int, j: int, size: int, ft: FracType, k: int, draws: nat -> nat, pos: nat)
    requires g.Valid() && size >= 1 && 0 < i < g.w && 0 < j < g.h
    ensures ChangesInSquare(g, HalfLine(g, i, j, size, ft, k, draws, pos).0, i, j, size)
  {
    if k == 0 {
      LineTopInside(g, i, j, size, ft, false, draws, pos);
    } else if k == 1 {
      LineLeftInside(g, i, j, size, ft, false, draws, pos);
    } else if k == 2 {
      LineTopInside(g, i, j, size, ft, true, draws, pos);
    } else {
      LineLeftInside(g, i, j, size, ft, true, draws, pos);
    }
  }

  lemma CrossLinesInside(g: Grid, i: int, j: int, size: int, ft: FracType, d: int, draws: nat -> nat, pos: nat)
    requires g.Valid() && size >= 1 && 0 < i < g.w && 0 < j < g.h
    ensures ChangesInSquare(g, CrossLines(g, i, j, size, ft, d, draws, pos).g, i, j, size)
  {
    var a := SkipLine(g, i, j, size, ft, d, 0, draws, pos);
    var b := SkipLine(a.0, i, j, size, ft, d, 1, draws, a.1);
    var c := SkipLine(b.0, i, j, size, ft, d, 2, draws, b.1);
    var e := SkipLine(c.0, i, j, size, ft, d, 3, draws, c.1);
    SkipLineInside(g, i, j, size, ft, d, 0, draws, pos);
    SkipLineInside(a.0, i, j, size, ft, d, 1, draws, a.1);
    SkipLineInside(b.0, i, j, size, ft, d, 2, draws, b.1);
    SkipLineInside(c.0, i, j, size, ft, d, 3, draws, c.1);
    SquareSteps(g, a.0, b.0, c.0, e.0, i, j, size);
  }

  /** The lines of one level of _fractal lie inside its square. */
  lemma LinesInside(g: Grid, i: int, j: int, size: int, ft: FracType, avoid: int, draws: nat -> nat, pos: nat)
    requires g.Valid() && size >= 1 && !Outside(g, i, j, size)
    ensures ChangesInSquare(g, FractalLines(g, i, j, size, ft, avoid, draws, pos).g, i, j, size)
  {
    if i <= 0 || i >= g.w {
      if 0 < j < g.h {
        LineTopInside(g, i, j, size, ft, i >= g.w, draws, pos);
      } else {
        assert ChangesInSquare(g, g, i, j, size);
      }
    } else if j <= 0 || j >= g.h {
      LineLeftInside(g, i, j, size, ft, j >= g.h, draws, pos);
    } else {
      var o := Orientation(ft, avoid, draws, pos);
      CrossLinesInside(g, i, j, size, ft, o.0, draws, o.1);
    }
  }

  // ---------------------------------------------------------------------------
  // _fractal

  /** The corner the k-th quarter (0 north-east, 1 south-east, 2 south-west,
      3 north-west) is told to avoid: the parent's own corner k is passed
      on, otherwise the corner facing a closed side d. */
  function ChildAvoid(avoid: int, d: int, k: int): int {
    if avoid == k then k
    else if d == (k + 1) % 4 || d == (k + 2) % 4 then (k + 2) % 4
    else -1
  }

  /** The centre of the k-th quarter of half size s around (i, j). */
  function QuarterI(i: int, s: int, k: int): int {
    if k <= 1 then i + s else i - s
  }

  function QuarterJ(j: int, s: int, k: int): int {
    if k == 0 || k == 3 then j - s else j + s
  }

  /** _fractal(i, j, size, ft, avoid) applied to g, reading rand() as
      draws(pos), draws(pos+1), ...: nothing when the square misses the grid,
      otherwise its lines, then, for size > 1, the four quarters of half the
      size. */
  function FractalRun(g: Grid, i: int, j: int, size: int, ft: FracType, avoid: int, draws: nat -> nat, pos: nat): (r: (Grid, nat))
    requires g.Valid() && size >= 1
    ensures r.0.Valid() && r.0.w == g.w && r.0.h == g.h && r.1 >= pos
    decreases size, 0
  {
    if Outside(g, i, j, size) then (g, pos)
    else
      var l := FractalLines(g, i, j, size, ft, avoid, draws, pos);
      if size == 1 then (l.g, l.pos)
      else Quarters(l.g, l.pos, i, j, size / 2, ft, avoid, l.d, 0, draws)
  }

  /** The recursive calls of _fractal from quarter k on, in the order
      north-east, south-east, south-west, north-west, each told which
      corner to avoid given the parent's avoid and closed side d. */
  function Quarters(g: Grid, pos: nat, i: int, j: int, s: int, ft: FracType, avoid: int, d: int, k: int, draws: nat -> nat): (r: (Grid, nat))
    requires g.Valid() && s >= 1 && 0 <= k <= 4
    ensures r.0.Valid() && r.0.w == g.w && r.0.h == g.h && r.1 >= pos
    decreases s, 4 - k + 1
  {
    if k == 4 then (g, pos)
    else
      var r := FractalRun(g, QuarterI(i, s, k), QuarterJ(j, s, k), s, ft, ChildAvoid(avoid, d, k), draws, pos);
      Quarters(r.0, r.1, i, j, s, ft, avoid, d, k + 1, draws)
  }

  /** One level of FractalRun on a square that reaches into the grid. */
  lemma FractalStep(g: Grid, i: int, j: int, size: int, ft: FracType, avoid: int, draws: nat -> nat, pos: nat, l: Lines)
    requires g.Valid() && size >= 1 && !Outside(g, i, j, size)
    requires l == FractalLines(g, i, j, size, ft, avoid, draws, pos)
    ensures size == 1 ==> FractalRun(g, i, j, size, ft, avoid, draws, pos) == (l.g, l.pos)
    ensures size > 1 ==>
      FractalRun(g, i, j, size, ft, avoid, draws, pos) == Quarters(l.g, l.pos, i, j, size / 2, ft, avoid, l.d, 0, draws)
  {
  }

  /** Quarter k is FractalRun on the k-th centre, then the quarters after it. */
  lemma QuartersStep(g: Grid, pos: nat, i: int, j: int, s: int, ft: FracType, avoid: int, d: int, k: int, draws: nat -> nat,
                     qi: int, qj: int, a: int, r: (Grid, nat))
    requires g.Valid() && s >= 1 && 0 <= k < 4
    requires qi == QuarterI(i, s, k) && qj == QuarterJ(j, s, k) && a == ChildAvoid(avoid, d, k)
    requires r == FractalRun(g, qi, qj, s, ft, a, draws, pos)
    ensures Quarters(g, pos, i, j, s, ft, avoid, d, k, draws) == Quarters(r.0, r.1, i, j, s, ft, avoid, d, k + 1, draws)
  {
  }

  /** _fractal changes only slots inside its square, and only to Passage:
      every index it writes is in the grid, and it never builds a wall. */
  lemma {:induction false} FractalInside(g: Grid, i: int, j: int, size: int, ft: FracType, avoid: int, draws: nat -> nat, pos: nat)
    requires g.Valid() && size >= 1
    ensures ChangesInSquare(g, FractalRun(g, i, j, size, ft, avoid, draws, pos).0, i, j, size)
    decreases size, 1
  {
    if Outside(g, i, j, size) {
      assert ChangesInSquare(g, g, i, j, size);
    } else {
      var l := FractalLines(g, i, j, size, ft, avoid, draws, pos);
      LinesInside(g, i, j, size, ft, avoid, draws, pos);
      if size > 1 {
        QuartersInside(g, l.g, l.pos, i, j, size, size / 2, ft, avoid, l.d, 0, draws);
      }
    }
  }

  /** Quarters from k on, run after changes inside the whole square (from g0
      to g), leave all changes inside the whole square. */
  lemma {:induction false} QuartersInside(g0: Grid, g: Grid, pos: nat, i: int, j: int, size: int, s: int,
                                          ft: FracType, avoid: int, d: int, k: int, draws: nat -> nat)
    requires g.Valid() && 1 <= s && 2 * s <= size && 0 <= k <= 4 && ChangesInSquare(g0, g, i, j, size)
    ensures ChangesInSquare(g0, Quarters(g, pos, i, j, s, ft, avoid, d, k, draws).0, i, j, size)
    decreases s, 4 - k + 2
  {
    if k < 4 {
      var r := QuarterInside(g0, g, pos, i, j, size, s, ft, ChildAvoid(avoid, d, k), k, draws);
      QuartersInside(g0, r.0, r.1, i, j, size, s, ft, avoid, d, k + 1, draws);
    }
  }

  /** The same for the one quarter k, told to avoid the corner a. */
  lemma {:induction false} QuarterInside(g0: Grid, g: Grid, pos: nat, i: int, j: int, size: int, s: int,
                                         ft: FracType, a: int, k: int, draws: nat -> nat) returns (r: (Grid, nat))
    requires g.Valid() && 1 <= s && 2 * s <= size && 0 <= k < 4 && ChangesInSquare(g0, g, i, j, size)
    ensures r == FractalRun(g, QuarterI(i, s, k), QuarterJ(j, s, k), s, ft, a, draws, pos)
    ensures r.0.Valid() && ChangesInSquare(g0, r.0, i, j, size)
    decreases s, 2
  {
    var qi, qj := QuarterI(i, s, k), QuarterJ(j, s, k);
    r := FractalRun(g, qi, qj, s, ft, a, draws, pos);
    FractalInside(g, qi, qj, s, ft, a, draws, pos);
    ChangesCompose(g0, g, r.0, i - size, j - size, 2 * size, 2 * size, qi - s, qj - s, 2 * s, 2 * s);
  }

  // ---------------------------------------------------------------------------
  // generateFractal

  function Abs(x: int): nat {
    if x < 0 then -x else x
  }

  predicate IsPow2(n: int)
    decreases n
  {
    n == 1 || (n > 1 && n % 2 == 0 && IsPow2(n / 2))
  }

  /** The size loop of generateFractal(i, j, type) as written, continuing
      from size: double while i - size > 0, i + size < _w-1, j - size > 0 or
      j + size < _w-1.  The row test compares with _w, not _h. */
  function CoverSize(w: int, i: int, j: int, size: int): (r: int)
    requires size >= 1
    ensures r >= size
    decreases 2 * (Abs(i) + Abs(j) + Abs(w)) - size
  {
    if i - size > 0 || i + size < w - 1 || j - size > 0 || j + size < w - 1 then CoverSize(w, i, j, size * 2)
    else size
  }

  /** The loop ends on a power of two r with i - r <= 0, i + r >= w-1,
      j - r <= 0 and j + r >= w-1.  The square of _fractal spans the cells
      i-r .. i+r-1, so this bound alone reaches column w-2, not w-1. */
  lemma {:induction false} CoverSizeBounds(w: int, i: int, j: int, size: int)
    requires size >= 1 && IsPow2(size)
    ensures var r := CoverSize(w, i, j, size);
      r >= size && IsPow2(r) && r >= i && r >= w - 1 - i && r >= j && r >= w - 1 - j
    decreases 2 * (Abs(i) + Abs(j) + Abs(w)) - size
  {
    if i - size > 0 || i + size < w - 1 || j - size > 0 || j + size < w - 1 {
      assert (size * 2) / 2 == size;
      CoverSizeBounds(w, i, j, size * 2);
    }
  }

  /** From the centre (w/2, h/2), as generateFractal(type) starts, the size
      also satisfies j + size >= h-1, whatever w is: the test j - size > 0
      already asks for size >= h/2. */
  lemma CentreCovers(w: int, h: int)
    requires w >= 1 && h >= 1
    ensures CoverSize(w, w / 2, h / 2, 1) >= h - 1 - h / 2
  {
    CoverSizeBounds(w, w / 2, h / 2, 1);
  }

  /** The size loop as its square needs it: the square around (i, j) holds
      the cells i-size .. i+size-1 and j-size .. j+size-1, so it covers the
      grid once i - size <= 0, i + size >= _w, j - size <= 0 and
      j + size >= _h. */
  function IntendedCoverSize(w: int, h: int, i: int, j: int, size: int): (r: int)
    requires size >= 1
    ensures r >= size
    decreases 2 * (Abs(i) + Abs(j) + Abs(w) + Abs(h)) - size
  {
    if i - size > 0 || i + size < w || j - size > 0 || j + size < h then IntendedCoverSize(w, h, i, j, size * 2)
    else size
  }

  lemma {:induction false} IntendedCoverSizeBounds(w: int, h: int, i: int, j: int, size: int)
    requires size >= 1 && IsPow2(size)
    ensures var r := IntendedCoverSize(w, h, i, j, size);
      IsPow2(r) && i - r <= 0 && i + r >= w && j - r <= 0 && j + r >= h
    decreases 2 * (Abs(i) + Abs(j) + Abs(w) + Abs(h)) - size
  {
    if i - size > 0 || i + size < w || j - size > 0 || j + size < h {
      assert (size * 2) / 2 == size;
      IntendedCoverSizeBounds(w, h, i, j, size * 2);
    }
  }

  /** With the intended size, the square of _fractal holds every slot of the
      grid, right(a, b) and bottom(a, b) alike, from any start (i, j). */
  lemma IntendedSquareCovers(g: Grid, i: int, j: int, a: int, b: int)
    requires g.Valid()
    ensures var size := IntendedCoverSize(g.w, g.h, i, j, 1);
      (0 <= a < g.w - 1 && 0 <= b < g.h ==> InsideVert(i - size, j - size, 2 * size, 2 * size, a, b)) &&
      (0 <= a < g.w && 0 <= b < g.h - 1 ==> InsideHorz(i - size, j - size, 2 * size, 2 * size, a, b))
  {
    IntendedCoverSizeBounds(g.w, g.h, i, j, 1);
  }

  /** Maze::generateFractal(i, j, type): the size loop, _fractal(i, j, size,
      type, -1), then every slot still Undefined becomes Wall; and the next
      unused draw. */
  function GenerateFractalRun(g: Grid, i: int, j: int, ft: FracType, draws: nat -> nat, pos: nat): (r: (Grid, nat))
    requires g.Valid()
    ensures r.0.Valid() && r.0.w == g.w && r.0.h == g.h && r.1 >= pos
  {
    var f := FractalRun(g, i, j, CoverSize(g.w, i, j, 1), ft, -1, draws, pos);
    ResolveGridDefines(f.0);
    (ResolveGrid(f.0), f.1)
  }

  /** r has no Undefined slot, keeps every Passage of g, and every slot of r
      is the old state of g resolved or a new Passage inside the square of
      the given size around the corner (i, j). */
  ghost predicate ResolvedInSquare(g: Grid, r: Grid, i: int, j: int, size: int)
    requires g.Valid() && r.Valid() && r.w == g.w && r.h == g.h
  {
    (forall a, b :: 0 <= a < g.w - 1 && 0 <= b < g.h ==>
       Right(r, a, b) != Undefined && (Right(g, a, b) == Passage ==> Right(r, a, b) == Passage) &&
       (Right(r, a, b) == Resolve(Right(g, a, b)) ||
        (InsideVert(i - size, j - size, 2 * size, 2 * size, a, b) && Right(r, a, b) == Passage))) &&
    (forall a, b :: 0 <= a < g.w && 0 <= b < g.h - 1 ==>
       Bottom(r, a, b) != Undefined && (Bottom(g, a, b) == Passage ==> Bottom(r, a, b) == Passage) &&
       (Bottom(r, a, b) == Resolve(Bottom(g, a, b)) ||
        (InsideHorz(i - size, j - size, 2 * size, 2 * size, a, b) && Bottom(r, a, b) == Passage)))
  }

  /** Resolving a grid that differs from g only by new Passages inside a
      square gives such a grid. */
  lemma ResolveSquare(g: Grid, f: Grid, i: int, j: int, size: int)
    requires g.Valid() && ChangesInSquare(g, f, i, j, size)
    ensures ResolveGrid(f).Valid() && ResolveGrid(f).w == g.w && ResolveGrid(f).h == g.h
    ensures ResolvedInSquare(g, ResolveGrid(f), i, j, size)
  {
    ResolveGridDefines(f);
  }

  /** After generateFractal(i, j, type) no slot is Undefined, every Passage
      is still one, and every slot either holds what _undefinedToWall makes
      of its old state or is a new Passage inside the square of the size the
      loop found. */
  lemma GenerateFractalShape(g: Grid, i: int, j: int, ft: FracType, draws: nat -> nat, pos: nat)
    requires g.Valid()
    ensures ResolvedInSquare(g, GenerateFractalRun(g, i, j, ft, draws, pos).0, i, j, CoverSize(g.w, i, j, 1))
  {
    var size := CoverSize(g.w, i, j, 1);
    var f := FractalRun(g, i, j, size, ft, -1, draws, pos);
    FractalInside(g, i, j, size, ft, -1, draws, pos);
    ResolveSquare(g, f.0, i, j, size);
  }

  /** On a fresh 3-by-3 maze, generateFractal() leaves the corner cell (2, 2)
      walled in on all four sides, whatever the type and the draws: the size
      loop stops at 1, whose square around (1, 1) covers only columns and
      rows 0 and 1.  The maze is therefore not perfect. */
  lemma FractalWallsInCorner(g: Grid, ft: FracType, draws: nat -> nat, pos: nat)
    requires g.Valid() && g.w == 3 && g.h == 3 && AllUndefined(g)
    ensures var r := GenerateFractalRun(g, g.w / 2, g.h / 2, ft, draws, pos).0;
      WalledIn(r, (2, 2)) && !Perfect(r)
  {
    assert CoverSize(3, 1, 1, 1) == 1;
    var r := GenerateFractalRun(g, 1, 1, ft, draws, pos).0;
    GenerateFractalShape(g, 1, 1, ft, draws, pos);
    assert Right(r, 1, 2) == Wall && Bottom(r, 2, 1) == Wall;
    forall d | 0 <= d < 4
      ensures HasWall(r, 2, 2, d)
    {
    }
    if Perfect(r) {
      assert InGrid(r, 2, 2);
      ReachOpensSide(r, (0, 0), (2, 2));
    }
  }
}
