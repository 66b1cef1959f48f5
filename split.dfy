// Maze::_split, recursive division, as a function of the grid before the call
// and of the stream of rand() draws: a rectangle of cells is cut into two by a
// line with one opening, and each part is divided again, until every part is a
// single row or column, which is opened along its length.
module MazeSplit {
  import opened MazeGrid
  import opened MazePaths
  import opened Random

  /** The rectangle of sw by sh cells with top-left cell (i, j) lies in the grid. */
  predicate Rect(g: Grid, i: int, j: int, sw: int, sh: int) {
    g.Valid() && 0 <= i && 1 <= sw && i + sw <= g.w && 0 <= j && 1 <= sh && j + sh <= g.h
  }

  /** right(a, b) separates two cells of the rectangle. */
  predicate InsideVert(i: int, j: int, sw: int, sh: int, a: int, b: int) {
    i <= a && a + 1 < i + sw && j <= b < j + sh
  }

  /** bottom(a, b) separates two cells of the rectangle. */
  predicate InsideHorz(i: int, j: int, sw: int, sh: int, a: int, b: int) {
    i <= a < i + sw && j <= b && b + 1 < j + sh
  }

  /** r differs from g only inside the rectangle, and only by new Passages. */
  ghost predicate ChangesInside(g: Grid, r: Grid, i: int, j: int, sw: int, sh: int) {
    g.Valid() && r.Valid() && r.w == g.w && r.h == g.h &&
    (forall a, b :: 0 <= a < g.w - 1 && 0 <= b < g.h ==>
       Right(r, a, b) == Right(g, a, b) || (InsideVert(i, j, sw, sh, a, b) && Right(r, a, b) == Passage)) &&
    (forall a, b :: 0 <= a < g.w && 0 <= b < g.h - 1 ==>
       Bottom(r, a, b) == Bottom(g, a, b) || (InsideHorz(i, j, sw, sh, a, b) && Bottom(r, a, b) == Passage))
  }

  /** No slot inside the rectangle is a Passage yet. */
  ghost predicate NoPassageInside(g: Grid, i: int, j: int, sw: int, sh: int)
    requires g.Valid()
  {
    (forall a, b :: 0 <= a < g.w - 1 && 0 <= b < g.h && InsideVert(i, j, sw, sh, a, b) ==> Right(g, a, b) != Passage) &&
    (forall a, b :: 0 <= a < g.w && 0 <= b < g.h - 1 && InsideHorz(i, j, sw, sh, a, b) ==> Bottom(g, a, b) != Passage)
  }

  /** Changes inside a sub-rectangle, made after changes inside the whole,
      are changes inside the whole. */
  lemma ChangesCompose(g: Grid, g1: Grid, g2: Grid, i: int, j: int, sw: int, sh: int,
                       i1: int, j1: int, sw1: int, sh1: int)
    requires ChangesInside(g, g1, i, j, sw, sh) && ChangesInside(g1, g2, i1, j1, sw1, sh1)
    requires i <= i1 && i1 + sw1 <= i + sw && j <= j1 && j1 + sh1 <= j + sh
    ensures ChangesInside(g, g2, i, j, sw, sh)
  {
  }

  /** Opening one slot inside a rectangle is a change inside it. */
  lemma OpenVertInside(g: Grid, a: int, b: int, i: int, j: int, sw: int, sh: int)
    requires g.Valid() && 0 <= a < g.w - 1 && 0 <= b < g.h && InsideVert(i, j, sw, sh, a, b)
    ensures ChangesInside(g, SetRight(g, a, b, Passage), i, j, sw, sh)
  {
  }

  lemma OpenHorzInside(g: Grid, a: int, b: int, i: int, j: int, sw: int, sh: int)
    requires g.Valid() && 0 <= a < g.w && 0 <= b < g.h - 1 && InsideHorz(i, j, sw, sh, a, b)
    ensures ChangesInside(g, SetBottom(g, a, b, Passage), i, j, sw, sh)
  {
  }

  lemma ChangesKeeps(g: Grid, r: Grid, i: int, j: int, sw: int, sh: int)
    requires ChangesInside(g, r, i, j, sw, sh)
    ensures KeepsPassages(g, r)
  {
  }

  // ---------------------------------------------------------------------------
  // Where the dividing line goes

  /** The size of the first part when a side of length size is cut: always 1
      for size 2 (no draw is used), otherwise drawn so that neither part is
      thinner than needed once the side is long enough. */
  function FirstPart(size: int, draw: nat): (r: int)
    requires size >= 2
    ensures 1 <= r < size
  {
    if size == 2 then 1
    else if size <= 4 then 1 + RandMod(draw, size - 1)
    else if size <= 6 then 2 + RandMod(draw, size - 3)
    else 3 + RandMod(draw, size - 5)
  }

  /** From size 5 on each part is at least 2 cells, from size 7 on at least 3. */
  lemma FirstPartBounds(size: int, draw: nat)
    requires size >= 2
    ensures size >= 5 ==> 2 <= FirstPart(size, draw) <= size - 2
    ensures size >= 7 ==> 3 <= FirstPart(size, draw) <= size - 3
  {
  }

  /** Every cut those bounds allow is made by some draw. */
  lemma FirstPartCovers(size: int, r: int)
    requires size >= 3
    requires 1 <= r < size
    requires size >= 5 ==> 2 <= r <= size - 2
    requires size >= 7 ==> 3 <= r <= size - 3
    ensures exists draw: nat :: FirstPart(size, draw) == r
  {
    var lo := if size <= 4 then 1 else if size <= 6 then 2 else 3;
    assert FirstPart(size, r - lo) == r;
  }

  // ---------------------------------------------------------------------------
  // _split

  /** Opens top(i, j+k) for 1 <= k < n, in that order: the w == 1 branch. */
  function OpenColumn(g: Grid, i: int, j: int, n: int): (r: Grid)
    requires g.Valid() && 0 <= i < g.w && 0 <= j && 1 <= n && j + n <= g.h
    ensures r.Valid() && r.w == g.w && r.h == g.h
    decreases n
  {
    if n == 1 then g
    else
      var p := OpenColumn(g, i, j, n - 1);
      SetTop(p, i, j + n - 1, Passage)
  }

  /** Opens left(i+k, j) for 1 <= k < n, in that order: the h == 1 branch. */
  function OpenRow(g: Grid, i: int, j: int, n: int): (r: Grid)
    requires g.Valid() && 0 <= i && 1 <= n && i + n <= g.w && 0 <= j < g.h
    ensures r.Valid() && r.w == g.w && r.h == g.h
    decreases n
  {
    if n == 1 then g
    else
      var p := OpenRow(g, i, j, n - 1);
      SetLeft(p, i + n - 1, j, Passage)
  }

  /** One more step of each loop of the one-cell-wide cases. */
  lemma OpenColumnStep(g: Grid, i: int, j: int, k: int, jk: int)
    requires g.Valid() && 0 <= i < g.w && 0 <= j && 1 <= k && j + k < g.h && jk == j + k
    ensures OpenColumn(g, i, j, k + 1) == SetTop(OpenColumn(g, i, j, k), i, jk, Passage)
  {
  }

  lemma OpenRowStep(g: Grid, i: int, j: int, k: int, ik: int)
    requires g.Valid() && 0 <= i && 1 <= k && i + k < g.w && 0 <= j < g.h && ik == i + k
    ensures OpenRow(g, i, j, k + 1) == SetLeft(OpenRow(g, i, j, k), ik, j, Passage)
  {
  }

  /** _split(i, j, sw, sh) applied to g, reading rand() as draws(pos),
      draws(pos+1), ...: the grid it leaves and the position of the next
      unused draw. */
  function SplitRun(g: Grid, i: int, j: int, sw: int, sh: int, draws: nat -> nat, pos: nat): (r: (Grid, nat))
    requires Rect(g, i, j, sw, sh)
    ensures r.0.Valid() && r.0.w == g.w && r.0.h == g.h && r.1 >= pos
    decreases sw + sh, 1
  {
    if sw == 1 then (OpenColumn(g, i, j, sh), pos)
    else if sh == 1 then (OpenRow(g, i, j, sw), pos)
    else if sw < sh then CutRows(g, i, j, sw, sh, draws, pos)
    else CutColumns(g, i, j, sw, sh, draws, pos)
  }

  /** The w < h branch: a horizontal line after hr rows, opened at column o. */
  function CutRows(g: Grid, i: int, j: int, sw: int, sh: int, draws: nat -> nat, pos: nat): (r: (Grid, nat))
    requires Rect(g, i, j, sw, sh) && sh >= 2
    ensures r.0.Valid() && r.0.w == g.w && r.0.h == g.h && r.1 >= pos
    decreases sw + sh, 0
  {
    var hr := FirstPart(sh, draws(pos));
    var p1 := if sh == 2 then pos else pos + 1;
    var o := RandMod(draws(p1), sw);
    var g1 := SetTop(g, i + o, j + hr, Passage);
    var r1 := SplitRun(g1, i, j, sw, hr, draws, p1 + 1);
    SplitRun(r1.0, i, j + hr, sw, sh - hr, draws, r1.1)
  }

  /** The w >= h branch: a vertical line after wr columns, opened at row o. */
  function CutColumns(g: Grid, i: int, j: int, sw: int, sh: int, draws: nat -> nat, pos: nat): (r: (Grid, nat))
    requires Rect(g, i, j, sw, sh) && sw >= 2
    ensures r.0.Valid() && r.0.w == g.w && r.0.h == g.h && r.1 >= pos
    decreases sw + sh, 0
  {
    var wr := FirstPart(sw, draws(pos));
    var p1 := if sw == 2 then pos else pos + 1;
    var o := RandMod(draws(p1), sh);
    var g1 := SetLeft(g, i + wr, j + o, Passage);
    var r1 := SplitRun(g1, i, j, wr, sh, draws, p1 + 1);
    SplitRun(r1.0, i + wr, j, sw - wr, sh, draws, r1.1)
  }

  /** The steps of the w < h branch, one at a time, make up CutRows. */
  lemma CutRowsSteps(g: Grid, i: int, j: int, sw: int, sh: int, draws: nat -> nat, pos: nat,
                     hr: int, p1: nat, o: int, io: int, j2: int, g1: Grid, q: nat, r1: (Grid, nat), sh2: int, r2: (Grid, nat))
    requires Rect(g, i, j, sw, sh) && sh >= 2
    requires hr == FirstPart(sh, draws(pos)) && p1 == (if sh == 2 then pos else pos + 1)
    requires o == RandMod(draws(p1), sw) && io == i + o && j2 == j + hr
    requires g1 == SetTop(g, io, j2, Passage)
    requires q == p1 + 1 && r1 == SplitRun(g1, i, j, sw, hr, draws, q)
    requires sh2 == sh - hr && r2 == SplitRun(r1.0, i, j2, sw, sh2, draws, r1.1)
    ensures r2 == CutRows(g, i, j, sw, sh, draws, pos)
  {
  }

  /** The steps of the w >= h branch, one at a time, make up CutColumns. */
  lemma CutColumnsSteps(g: Grid, i: int, j: int, sw: int, sh: int, draws: nat -> nat, pos: nat,
                        wr: int, p1: nat, o: int, i2: int, jo: int, g1: Grid, q: nat, r1: (Grid, nat), sw2: int, r2: (Grid, nat))
    requires Rect(g, i, j, sw, sh) && sw >= 2
    requires wr == FirstPart(sw, draws(pos)) && p1 == (if sw == 2 then pos else pos + 1)
    requires o == RandMod(draws(p1), sh) && i2 == i + wr && jo == j + o
    requires g1 == SetLeft(g, i2, jo, Passage)
    requires q == p1 + 1 && r1 == SplitRun(g1, i, j, wr, sh, draws, q)
    requires sw2 == sw - wr && r2 == SplitRun(r1.0, i2, j, sw2, sh, draws, r1.1)
    ensures r2 == CutColumns(g, i, j, sw, sh, draws, pos)
  {
  }

  // ---------------------------------------------------------------------------
  // _split writes only Passage, and only between cells of its rectangle

  lemma {:induction false} OpenColumnLocal(g: Grid, i: int, j: int, n: int)
    requires g.Valid() && 0 <= i < g.w && 0 <= j && 1 <= n && j + n <= g.h
    ensures ChangesInside(g, OpenColumn(g, i, j, n), i, j, 1, n)
    decreases n
  {
    if n > 1 {
      var p := OpenColumn(g, i, j, n - 1);
      OpenColumnLocal(g, i, j, n - 1);
      OpenHorzInside(p, i, j + n - 2, i, j, 1, n);
      ChangesCompose(g, p, OpenColumn(g, i, j, n), i, j, 1, n, i, j, 1, n);
    }
  }

  lemma {:induction false} OpenRowLocal(g: Grid, i: int, j: int, n: int)
    requires g.Valid() && 0 <= i && 1 <= n && i + n <= g.w && 0 <= j < g.h
    ensures ChangesInside(g, OpenRow(g, i, j, n), i, j, n, 1)
    decreases n
  {
    if n > 1 {
      var p := OpenRow(g, i, j, n - 1);
      OpenRowLocal(g, i, j, n - 1);
      OpenVertInside(p, i + n - 2, j, i, j, n, 1);
      ChangesCompose(g, p, OpenRow(g, i, j, n), i, j, n, 1, i, j, n, 1);
    }
  }

  /** Everything _split(i, j, sw, sh) changes is a slot between two cells of
      its rectangle, and it becomes Passage. */
  lemma {:induction false} SplitLocal(g: Grid, i: int, j: int, sw: int, sh: int, draws: nat -> nat, pos: nat)
    requires Rect(g, i, j, sw, sh)
    ensures ChangesInside(g, SplitRun(g, i, j, sw, sh, draws, pos).0, i, j, sw, sh)
    decreases sw + sh, 2
  {
    if sw == 1 {
      OpenColumnLocal(g, i, j, sh);
    } else if sh == 1 {
      OpenRowLocal(g, i, j, sw);
    } else if sw < sh {
      CutRowsLocal(g, i, j, sw, sh, draws, pos);
    } else {
      CutColumnsLocal(g, i, j, sw, sh, draws, pos);
    }
  }

  lemma {:induction false} CutRowsLocal(g: Grid, i: int, j: int, sw: int, sh: int, draws: nat -> nat, pos: nat)
    requires Rect(g, i, j, sw, sh) && sh >= 2
    ensures ChangesInside(g, CutRows(g, i, j, sw, sh, draws, pos).0, i, j, sw, sh)
    decreases sw + sh, 1
  {
    var hr := FirstPart(sh, draws(pos));
    var p1 := if sh == 2 then pos else pos + 1;
    var o := RandMod(draws(p1), sw);
    var r1 := SplitRun(SetTop(g, i + o, j + hr, Passage), i, j, sw, hr, draws, p1 + 1);
    assert CutRows(g, i, j, sw, sh, draws, pos) == SplitRun(r1.0, i, j + hr, sw, sh - hr, draws, r1.1);
    CutRowsLocalAt(g, i, j, sw, sh, hr, o, draws, p1 + 1);
  }

  lemma {:induction false} CutRowsLocalAt(g: Grid, i: int, j: int, sw: int, sh: int, hr: int, o: int, draws: nat -> nat, q: nat)
    requires Rect(g, i, j, sw, sh) && 1 <= hr < sh && 0 <= o < sw
    ensures var g1 := SetTop(g, i + o, j + hr, Passage);
      var r1 := SplitRun(g1, i, j, sw, hr, draws, q);
      ChangesInside(g, SplitRun(r1.0, i, j + hr, sw, sh - hr, draws, r1.1).0, i, j, sw, sh)
    decreases sw + sh, 0
  {
    var g1 := SetTop(g, i + o, j + hr, Passage);
    OpenHorzInside(g, i + o, j + hr - 1, i, j, sw, sh);
    var r1 := SplitRun(g1, i, j, sw, hr, draws, q);
    SplitLocal(g1, i, j, sw, hr, draws, q);
    ChangesCompose(g, g1, r1.0, i, j, sw, sh, i, j, sw, hr);
    var r2 := SplitRun(r1.0, i, j + hr, sw, sh - hr, draws, r1.1);
    SplitLocal(r1.0, i, j + hr, sw, sh - hr, draws, r1.1);
    ChangesCompose(g, r1.0, r2.0, i, j, sw, sh, i, j + hr, sw, sh - hr);
  }

  lemma {:induction false} CutColumnsLocal(g: Grid, i: int, j: int, sw: int, sh: int, draws: nat -> nat, pos: nat)
    requires Rect(g, i, j, sw, sh) && sw >= 2
    ensures ChangesInside(g, CutColumns(g, i, j, sw, sh, draws, pos).0, i, j, sw, sh)
    decreases sw + sh, 1
  {
    var wr := FirstPart(sw, draws(pos));
    var p1 := if sw == 2 then pos else pos + 1;
    var o := RandMod(draws(p1), sh);
    var r1 := SplitRun(SetLeft(g, i + wr, j + o, Passage), i, j, wr, sh, draws, p1 + 1);
    assert CutColumns(g, i, j, sw, sh, draws, pos) == SplitRun(r1.0, i + wr, j, sw - wr, sh, draws, r1.1);
    CutColumnsLocalAt(g, i, j, sw, sh, wr, o, draws, p1 + 1);
  }

  lemma {:induction false} CutColumnsLocalAt(g: Grid, i: int, j: int, sw: int, sh: int, wr: int, o: int, draws: nat -> nat, q: nat)
    requires Rect(g, i, j, sw, sh) && 1 <= wr < sw && 0 <= o < sh
    ensures var g1 := SetLeft(g, i + wr, j + o, Passage);
      var r1 := SplitRun(g1, i, j, wr, sh, draws, q);
      ChangesInside(g, SplitRun(r1.0, i + wr, j, sw - wr, sh, draws, r1.1).0, i, j, sw, sh)
    decreases sw + sh, 0
  {
    var g1 := SetLeft(g, i + wr, j + o, Passage);
    OpenVertInside(g, i + wr - 1, j + o, i, j, sw, sh);
    var r1 := SplitRun(g1, i, j, wr, sh, draws, q);
    SplitLocal(g1, i, j, wr, sh, draws, q);
    ChangesCompose(g, g1, r1.0, i, j, sw, sh, i, j, wr, sh);
    var r2 := SplitRun(r1.0, i + wr, j, sw - wr, sh, draws, r1.1);
    SplitLocal(r1.0, i + wr, j, sw - wr, sh, draws, r1.1);
    ChangesCompose(g, r1.0, r2.0, i, j, sw, sh, i + wr, j, sw - wr, sh);
  }

  // ---------------------------------------------------------------------------
  // What _split builds: w*h-1 passages joining every cell of the rectangle

  lemma NoPassageSub(g: Grid, i: int, j: int, sw: int, sh: int, i1: int, j1: int, sw1: int, sh1: int)
    requires g.Valid() && NoPassageInside(g, i, j, sw, sh)
    requires i <= i1 && i1 + sw1 <= i + sw && j <= j1 && j1 + sh1 <= j + sh
    ensures NoPassageInside(g, i1, j1, sw1, sh1)
  {
  }

  /** Changes inside one rectangle leave a disjoint one (lying after it to the
      right or below) without passages. */
  lemma NoPassageDisjoint(g: Grid, r: Grid, i1: int, j1: int, sw1: int, sh1: int,
                          i2: int, j2: int, sw2: int, sh2: int)
    requires ChangesInside(g, r, i1, j1, sw1, sh1) && NoPassageInside(g, i2, j2, sw2, sh2)
    requires i1 + sw1 <= i2 || j1 + sh1 <= j2
    ensures NoPassageInside(r, i2, j2, sw2, sh2)
  {
  }

  /** Opening a slot outside a rectangle leaves it without passages. */
  lemma NoPassageOpenHorz(g: Grid, a: int, b: int, i: int, j: int, sw: int, sh: int)
    requires g.Valid() && 0 <= a < g.w && 0 <= b < g.h - 1 && NoPassageInside(g, i, j, sw, sh)
    requires !InsideHorz(i, j, sw, sh, a, b)
    ensures NoPassageInside(SetBottom(g, a, b, Passage), i, j, sw, sh)
  {
  }

  lemma NoPassageOpenVert(g: Grid, a: int, b: int, i: int, j: int, sw: int, sh: int)
    requires g.Valid() && 0 <= a < g.w - 1 && 0 <= b < g.h && NoPassageInside(g, i, j, sw, sh)
    requires !InsideVert(i, j, sw, sh, a, b)
    ensures NoPassageInside(SetRight(g, a, b, Passage), i, j, sw, sh)
  {
  }

  /** The passage counts along a cut: one for the opening, then the two
      parts' counts, add up to the whole rectangle's. */
  lemma CountsAdd(n0: int, n1: int, n2: int, n3: int, a: int, b: int, c: int)
    requires n1 == n0 + 1 && n2 == n1 + a * b - 1 && n3 == n2 + a * (c - b) - 1
    ensures n3 == n0 + a * c - 1
  {
    assert a * (c - b) == a * c - a * b;
  }

  lemma CountsAddColumns(n0: int, n1: int, n2: int, n3: int, a: int, b: int, c: int)
    requires n1 == n0 + 1 && n2 == n1 + b * c - 1 && n3 == n2 + (a - b) * c - 1
    ensures n3 == n0 + a * c - 1
  {
    assert (a - b) * c == a * c - b * c;
  }

  lemma {:induction false} OpenColumnCount(g: Grid, i: int, j: int, n: int)
    requires g.Valid() && 0 <= i < g.w && 0 <= j && 1 <= n && j + n <= g.h
    requires NoPassageInside(g, i, j, 1, n)
    ensures Passages(OpenColumn(g, i, j, n)) == Passages(g) + n - 1
    decreases n
  {
    if n > 1 {
      var p := OpenColumn(g, i, j, n - 1);
      NoPassageSub(g, i, j, 1, n, i, j, 1, n - 1);
      OpenColumnCount(g, i, j, n - 1);
      OpenColumnLocal(g, i, j, n - 1);
      OpenBottomCount(p, i, j + n - 2);
    }
  }

  lemma {:induction false} OpenRowCount(g: Grid, i: int, j: int, n: int)
    requires g.Valid() && 0 <= i && 1 <= n && i + n <= g.w && 0 <= j < g.h
    requires NoPassageInside(g, i, j, n, 1)
    ensures Passages(OpenRow(g, i, j, n)) == Passages(g) + n - 1
    decreases n
  {
    if n > 1 {
      var p := OpenRow(g, i, j, n - 1);
      NoPassageSub(g, i, j, n, 1, i, j, n - 1, 1);
      OpenRowCount(g, i, j, n - 1);
      OpenRowLocal(g, i, j, n - 1);
      OpenRightCount(p, i + n - 2, j);
    }
  }

  /** Dividing one rectangle leaves a disjoint one after it without passages. */
  lemma SplitLeavesClear(g: Grid, i: int, j: int, sw: int, sh: int, draws: nat -> nat, pos: nat,
                         i2: int, j2: int, sw2: int, sh2: int)
    requires Rect(g, i, j, sw, sh) && NoPassageInside(g, i2, j2, sw2, sh2)
    requires i + sw <= i2 || j + sh <= j2
    ensures NoPassageInside(SplitRun(g, i, j, sw, sh, draws, pos).0, i2, j2, sw2, sh2)
  {
    SplitLocal(g, i, j, sw, sh, draws, pos);
    NoPassageDisjoint(g, SplitRun(g, i, j, sw, sh, draws, pos).0, i, j, sw, sh, i2, j2, sw2, sh2);
  }

  /** The opening in a horizontal dividing line adds one passage and lies in
      neither part. */
  lemma OpenRowsLink(g: Grid, i: int, j: int, sw: int, sh: int, hr: int, o: int)
    requires Rect(g, i, j, sw, sh) && NoPassageInside(g, i, j, sw, sh)
    requires 1 <= hr < sh && 0 <= o < sw
    ensures var g1 := SetTop(g, i + o, j + hr, Passage);
      Passages(g1) == Passages(g) + 1 &&
      NoPassageInside(g1, i, j, sw, hr) && NoPassageInside(g1, i, j + hr, sw, sh - hr)
  {
    OpenBottomCount(g, i + o, j + hr - 1);
    NoPassageSub(g, i, j, sw, sh, i, j, sw, hr);
    NoPassageSub(g, i, j, sw, sh, i, j + hr, sw, sh - hr);
    NoPassageOpenHorz(g, i + o, j + hr - 1, i, j, sw, hr);
    NoPassageOpenHorz(g, i + o, j + hr - 1, i, j + hr, sw, sh - hr);
  }

  /** The opening in a vertical dividing line adds one passage and lies in
      neither part. */
  lemma OpenColumnsLink(g: Grid, i: int, j: int, sw: int, sh: int, wr: int, o: int)
    requires Rect(g, i, j, sw, sh) && NoPassageInside(g, i, j, sw, sh)
    requires 1 <= wr < sw && 0 <= o < sh
    ensures var g1 := SetLeft(g, i + wr, j + o, Passage);
      Passages(g1) == Passages(g) + 1 &&
      NoPassageInside(g1, i, j, wr, sh) && NoPassageInside(g1, i + wr, j, sw - wr, sh)
  {
    OpenRightCount(g, i + wr - 1, j + o);
    NoPassageSub(g, i, j, sw, sh, i, j, wr, sh);
    NoPassageSub(g, i, j, sw, sh, i + wr, j, sw - wr, sh);
    NoPassageOpenVert(g, i + wr - 1, j + o, i, j, wr, sh);
    NoPassageOpenVert(g, i + wr - 1, j + o, i + wr, j, sw - wr, sh);
  }

  /** On a rectangle without passages, _split opens exactly sw*sh-1 of them,
      the number of edges of a tree over its sw*sh cells. */
  lemma {:induction false} SplitCount(g: Grid, i: int, j: int, sw: int, sh: int, draws: nat -> nat, pos: nat)
    requires Rect(g, i, j, sw, sh) && NoPassageInside(g, i, j, sw, sh)
    ensures Passages(SplitRun(g, i, j, sw, sh, draws, pos).0) == Passages(g) + sw * sh - 1
    decreases sw + sh, 2
  {
    if sw == 1 {
      OpenColumnCount(g, i, j, sh);
    } else if sh == 1 {
      OpenRowCount(g, i, j, sw);
    } else if sw < sh {
      CutRowsCount(g, i, j, sw, sh, draws, pos);
    } else {
      CutColumnsCount(g, i, j, sw, sh, draws, pos);
    }
  }

  lemma {:induction false} CutRowsCount(g: Grid, i: int, j: int, sw: int, sh: int, draws: nat -> nat, pos: nat)
    requires Rect(g, i, j, sw, sh) && sh >= 2 && NoPassageInside(g, i, j, sw, sh)
    ensures Passages(CutRows(g, i, j, sw, sh, draws, pos).0) == Passages(g) + sw * sh - 1
    decreases sw + sh, 1
  {
    var hr := FirstPart(sh, draws(pos));
    var p1 := if sh == 2 then pos else pos + 1;
    var o := RandMod(draws(p1), sw);
    var r1 := SplitRun(SetTop(g, i + o, j + hr, Passage), i, j, sw, hr, draws, p1 + 1);
    assert CutRows(g, i, j, sw, sh, draws, pos) == SplitRun(r1.0, i, j + hr, sw, sh - hr, draws, r1.1);
    CutRowsCountAt(g, i, j, sw, sh, hr, o, draws, p1 + 1);
  }

  lemma {:induction false} CutRowsCountAt(g: Grid, i: int, j: int, sw: int, sh: int, hr: int, o: int, draws: nat -> nat, q: nat)
    requires Rect(g, i, j, sw, sh) && 1 <= hr < sh && 0 <= o < sw && NoPassageInside(g, i, j, sw, sh)
    ensures var g1 := SetTop(g, i + o, j + hr, Passage);
      var r1 := SplitRun(g1, i, j, sw, hr, draws, q);
      Passages(SplitRun(r1.0, i, j + hr, sw, sh - hr, draws, r1.1).0) == Passages(g) + sw * sh - 1
    decreases sw + sh, 0
  {
    var g1 := SetTop(g, i + o, j + hr, Passage);
    OpenRowsLink(g, i, j, sw, sh, hr, o);
    var r1 := SplitRun(g1, i, j, sw, hr, draws, q);
    SplitCount(g1, i, j, sw, hr, draws, q);
    SplitLeavesClear(g1, i, j, sw, hr, draws, q, i, j + hr, sw, sh - hr);
    var r2 := SplitRun(r1.0, i, j + hr, sw, sh - hr, draws, r1.1);
    SplitCount(r1.0, i, j + hr, sw, sh - hr, draws, r1.1);
    CountsAdd(Passages(g), Passages(g1), Passages(r1.0), Passages(r2.0), sw, hr, sh);
  }

  lemma {:induction false} CutColumnsCount(g: Grid, i: int, j: int, sw: int, sh: int, draws: nat -> nat, pos: nat)
    requires Rect(g, i, j, sw, sh) && sw >= 2 && NoPassageInside(g, i, j, sw, sh)
    ensures Passages(CutColumns(g, i, j, sw, sh, draws, pos).0) == Passages(g) + sw * sh - 1
    decreases sw + sh, 1
  {
    var wr := FirstPart(sw, draws(pos));
    var p1 := if sw == 2 then pos else pos + 1;
    var o := RandMod(draws(p1), sh);
    var r1 := SplitRun(SetLeft(g, i + wr, j + o, Passage), i, j, wr, sh, draws, p1 + 1);
    assert CutColumns(g, i, j, sw, sh, draws, pos) == SplitRun(r1.0, i + wr, j, sw - wr, sh, draws, r1.1);
    CutColumnsCountAt(g, i, j, sw, sh, wr, o, draws, p1 + 1);
  }

  lemma {:induction false} CutColumnsCountAt(g: Grid, i: int, j: int, sw: int, sh: int, wr: int, o: int, draws: nat -> nat, q: nat)
    requires Rect(g, i, j, sw, sh) && 1 <= wr < sw && 0 <= o < sh && NoPassageInside(g, i, j, sw, sh)
    ensures var g1 := SetLeft(g, i + wr, j + o, Passage);
      var r1 := SplitRun(g1, i, j, wr, sh, draws, q);
      Passages(SplitRun(r1.0, i + wr, j, sw - wr, sh, draws, r1.1).0) == Passages(g) + sw * sh - 1
    decreases sw + sh, 0
  {
    var g1 := SetLeft(g, i + wr, j + o, Passage);
    OpenColumnsLink(g, i, j, sw, sh, wr, o);
    var r1 := SplitRun(g1, i, j, wr, sh, draws, q);
    SplitCount(g1, i, j, wr, sh, draws, q);
    SplitLeavesClear(g1, i, j, wr, sh, draws, q, i + wr, j, sw - wr, sh);
    var r2 := SplitRun(r1.0, i + wr, j, sw - wr, sh, draws, r1.1);
    SplitCount(r1.0, i + wr, j, sw - wr, sh, draws, r1.1);
    CountsAddColumns(Passages(g), Passages(g1), Passages(r1.0), Passages(r2.0), sw, wr, sh);
  }

  /** _split never closes a passage. */
  lemma SplitKeeps(g: Grid, i: int, j: int, sw: int, sh: int, draws: nat -> nat, pos: nat)
    requires Rect(g, i, j, sw, sh)
    ensures KeepsPassages(g, SplitRun(g, i, j, sw, sh, draws, pos).0)
  {
    SplitLocal(g, i, j, sw, sh, draws, pos);
    ChangesKeeps(g, SplitRun(g, i, j, sw, sh, draws, pos).0, i, j, sw, sh);
  }

  lemma {:induction false} OpenColumnConnects(g: Grid, i: int, j: int, n: int, b: int)
    requires g.Valid() && 0 <= i < g.w && 0 <= j && 1 <= n && j + n <= g.h && j <= b < j + n
    ensures Reach(OpenColumn(g, i, j, n), (i, j), (i, b))
    decreases n
  {
    if b == j {
      ReachRefl(OpenColumn(g, i, j, n), (i, j));
    } else if b < j + n - 1 {
      OpenColumnConnects(g, i, j, n - 1, b);
      ReachOpenTop(OpenColumn(g, i, j, n - 1), i, j + n - 1, (i, j), (i, b));
    } else {
      OpenColumnConnects(g, i, j, n - 1, b - 1);
      ReachThroughTop(OpenColumn(g, i, j, n - 1), i, j + n - 1, (i, j));
    }
  }

  lemma {:induction false} OpenRowConnects(g: Grid, i: int, j: int, n: int, a: int)
    requires g.Valid() && 0 <= i && 1 <= n && i + n <= g.w && 0 <= j < g.h && i <= a < i + n
    ensures Reach(OpenRow(g, i, j, n), (i, j), (a, j))
    decreases n
  {
    if a == i {
      ReachRefl(OpenRow(g, i, j, n), (i, j));
    } else if a < i + n - 1 {
      OpenRowConnects(g, i, j, n - 1, a);
      ReachOpenLeft(OpenRow(g, i, j, n - 1), i + n - 1, j, (i, j), (a, j));
    } else {
      OpenRowConnects(g, i, j, n - 1, a - 1);
      ReachThroughLeft(OpenRow(g, i, j, n - 1), i + n - 1, j, (i, j));
    }
  }

  /** After _split every cell of the rectangle can be reached from its
      top-left cell along passages. */
  lemma {:induction false} SplitConnects(g: Grid, i: int, j: int, sw: int, sh: int, draws: nat -> nat, pos: nat, a: int, b: int)
    requires Rect(g, i, j, sw, sh) && i <= a < i + sw && j <= b < j + sh
    ensures Reach(SplitRun(g, i, j, sw, sh, draws, pos).0, (i, j), (a, b))
    decreases sw + sh, 3
  {
    if sw == 1 {
      OpenColumnConnects(g, i, j, sh, b);
    } else if sh == 1 {
      OpenRowConnects(g, i, j, sw, a);
    } else if sw < sh {
      CutRowsConnects(g, i, j, sw, sh, draws, pos, a, b);
    } else {
      CutColumnsConnects(g, i, j, sw, sh, draws, pos, a, b);
    }
  }

  lemma {:induction false} CutRowsConnects(g: Grid, i: int, j: int, sw: int, sh: int, draws: nat -> nat, pos: nat, a: int, b: int)
    requires Rect(g, i, j, sw, sh) && sh >= 2 && i <= a < i + sw && j <= b < j + sh
    ensures Reach(CutRows(g, i, j, sw, sh, draws, pos).0, (i, j), (a, b))
    decreases sw + sh, 2
  {
    var hr := FirstPart(sh, draws(pos));
    var p1 := if sh == 2 then pos else pos + 1;
    var o := RandMod(draws(p1), sw);
    var r1 := SplitRun(SetTop(g, i + o, j + hr, Passage), i, j, sw, hr, draws, p1 + 1);
    assert CutRows(g, i, j, sw, sh, draws, pos) == SplitRun(r1.0, i, j + hr, sw, sh - hr, draws, r1.1);
    CutRowsConnectsAt(g, i, j, sw, sh, hr, o, draws, p1 + 1, a, b);
  }

  lemma {:induction false} CutColumnsConnects(g: Grid, i: int, j: int, sw: int, sh: int, draws: nat -> nat, pos: nat, a: int, b: int)
    requires Rect(g, i, j, sw, sh) && sw >= 2 && i <= a < i + sw && j <= b < j + sh
    ensures Reach(CutColumns(g, i, j, sw, sh, draws, pos).0, (i, j), (a, b))
    decreases sw + sh, 2
  {
    var wr := FirstPart(sw, draws(pos));
    var p1 := if sw == 2 then pos else pos + 1;
    var o := RandMod(draws(p1), sh);
    var r1 := SplitRun(SetLeft(g, i + wr, j + o, Passage), i, j, wr, sh, draws, p1 + 1);
    assert CutColumns(g, i, j, sw, sh, draws, pos) == SplitRun(r1.0, i + wr, j, sw - wr, sh, draws, r1.1);
    CutColumnsConnectsAt(g, i, j, sw, sh, wr, o, draws, p1 + 1, a, b);
  }

  lemma {:induction false} CutRowsConnectsAt(g: Grid, i: int, j: int, sw: int, sh: int, hr: int, o: int,
                                             draws: nat -> nat, q: nat, a: int, b: int)
    requires Rect(g, i, j, sw, sh) && 1 <= hr < sh && 0 <= o < sw
    requires i <= a < i + sw && j <= b < j + sh
    ensures var g1 := SetTop(g, i + o, j + hr, Passage);
      var r1 := SplitRun(g1, i, j, sw, hr, draws, q);
      Reach(SplitRun(r1.0, i, j + hr, sw, sh - hr, draws, r1.1).0, (i, j), (a, b))
    decreases sw + sh, 1
  {
    var g1 := SetTop(g, i + o, j + hr, Passage);
    var r1 := SplitRun(g1, i, j, sw, hr, draws, q);
    var r2 := SplitRun(r1.0, i, j + hr, sw, sh - hr, draws, r1.1);
    if b < j + hr {
      SplitConnects(g1, i, j, sw, hr, draws, q, a, b);
      SplitKeeps(r1.0, i, j + hr, sw, sh - hr, draws, r1.1);
      ReachMono(r1.0, r2.0, (i, j), (a, b));
    } else {
      CutRowsConnectsBelow(g, i, j, sw, sh, hr, o, draws, q, a, b);
    }
  }

  /** A cell below the dividing line is reached through its opening. */
  lemma {:induction false} CutRowsConnectsBelow(g: Grid, i: int, j: int, sw: int, sh: int, hr: int, o: int,
                                                draws: nat -> nat, q: nat, a: int, b: int)
    requires Rect(g, i, j, sw, sh) && 1 <= hr < sh && 0 <= o < sw
    requires i <= a < i + sw && j + hr <= b < j + sh
    ensures var g1 := SetTop(g, i + o, j + hr, Passage);
      var r1 := SplitRun(g1, i, j, sw, hr, draws, q);
      Reach(SplitRun(r1.0, i, j + hr, sw, sh - hr, draws, r1.1).0, (i, j), (a, b))
    decreases sw + sh, 0
  {
    var g1 := SetTop(g, i + o, j + hr, Passage);
    var r1 := SplitRun(g1, i, j, sw, hr, draws, q);
    var r2 := SplitRun(r1.0, i, j + hr, sw, sh - hr, draws, r1.1);
    SplitKeeps(g1, i, j, sw, hr, draws, q);
    SplitKeeps(r1.0, i, j + hr, sw, sh - hr, draws, r1.1);
    var top, bottom := (i + o, j + hr - 1), (i + o, j + hr);
    SplitConnects(r1.0, i, j + hr, sw, sh - hr, draws, r1.1, a, b);
    SplitConnects(r1.0, i, j + hr, sw, sh - hr, draws, r1.1, bottom.0, bottom.1);
    SplitConnects(g1, i, j, sw, hr, draws, q, top.0, top.1);
    ReachMono(r1.0, r2.0, (i, j), top);
    KeepsPassagesTrans(g1, r1.0, r2.0);
    JoinedDown(r2.0, top.0, top.1);
    ReachAcross(r2.0, (i, j), top, bottom, (i, j + hr), (a, b));
  }

  lemma {:induction false} CutColumnsConnectsAt(g: Grid, i: int, j: int, sw: int, sh: int, wr: int, o: int,
                                                draws: nat -> nat, q: nat, a: int, b: int)
    requires Rect(g, i, j, sw, sh) && 1 <= wr < sw && 0 <= o < sh
    requires i <= a < i + sw && j <= b < j + sh
    ensures var g1 := SetLeft(g, i + wr, j + o, Passage);
      var r1 := SplitRun(g1, i, j, wr, sh, draws, q);
      Reach(SplitRun(r1.0, i + wr, j, sw - wr, sh, draws, r1.1).0, (i, j), (a, b))
    decreases sw + sh, 1
  {
    var g1 := SetLeft(g, i + wr, j + o, Passage);
    var r1 := SplitRun(g1, i, j, wr, sh, draws, q);
    var r2 := SplitRun(r1.0, i + wr, j, sw - wr, sh, draws, r1.1);
    if a < i + wr {
      SplitConnects(g1, i, j, wr, sh, draws, q, a, b);
      SplitKeeps(r1.0, i + wr, j, sw - wr, sh, draws, r1.1);
      ReachMono(r1.0, r2.0, (i, j), (a, b));
    } else {
      CutColumnsConnectsRight(g, i, j, sw, sh, wr, o, draws, q, a, b);
    }
  }

  /** A cell right of the dividing line is reached through its opening. */
  lemma {:induction false} CutColumnsConnectsRight(g: Grid, i: int, j: int, sw: int, sh: int, wr: int, o: int,
                                                   draws: nat -> nat, q: nat, a: int, b: int)
    requires Rect(g, i, j, sw, sh) && 1 <= wr < sw && 0 <= o < sh
    requires i + wr <= a < i + sw && j <= b < j + sh
    ensures var g1 := SetLeft(g, i + wr, j + o, Passage);
      var r1 := SplitRun(g1, i, j, wr, sh, draws, q);
      Reach(SplitRun(r1.0, i + wr, j, sw - wr, sh, draws, r1.1).0, (i, j), (a, b))
    decreases sw + sh, 0
  {
    var g1 := SetLeft(g, i + wr, j + o, Passage);
    var r1 := SplitRun(g1, i, j, wr, sh, draws, q);
    var r2 := SplitRun(r1.0, i + wr, j, sw - wr, sh, draws, r1.1);
    SplitKeeps(g1, i, j, wr, sh, draws, q);
    SplitKeeps(r1.0, i + wr, j, sw - wr, sh, draws, r1.1);
    var west, east := (i + wr - 1, j + o), (i + wr, j + o);
    SplitConnects(r1.0, i + wr, j, sw - wr, sh, draws, r1.1, a, b);
    SplitConnects(r1.0, i + wr, j, sw - wr, sh, draws, r1.1, east.0, east.1);
    SplitConnects(g1, i, j, wr, sh, draws, q, west.0, west.1);
    ReachMono(r1.0, r2.0, (i, j), west);
    KeepsPassagesTrans(g1, r1.0, r2.0);
    JoinedRight(r2.0, west.0, west.1);
    ReachAcross(r2.0, (i, j), west, east, (i + wr, j), (a, b));
  }

  // ---------------------------------------------------------------------------
  // generateSplit

  /** Maze::generateSplit: _split over the whole grid, then _undefinedToWall;
      also the position of the next unused draw. */
  function GenerateSplitRun(g: Grid, draws: nat -> nat, pos: nat): (r: (Grid, nat))
    requires g.Valid()
    ensures r.0.Valid() && r.0.w == g.w && r.0.h == g.h && r.1 >= pos
  {
    var s := SplitRun(g, 0, 0, g.w, g.h, draws, pos);
    ResolveGridDefines(s.0);
    (ResolveGrid(s.0), s.1)
  }

  /** On a fresh maze generateSplit builds a perfect maze, whatever rand()
      returns. */
  lemma GenerateSplitPerfect(g: Grid, draws: nat -> nat, pos: nat)
    requires g.Valid() && AllUndefined(g)
    ensures Perfect(GenerateSplitRun(g, draws, pos).0)
  {
    var s := SplitRun(g, 0, 0, g.w, g.h, draws, pos).0;
    var r := GenerateSplitRun(g, draws, pos).0;
    assert r == ResolveGrid(s);
    AllUndefinedCount(g);
    SplitCount(g, 0, 0, g.w, g.h, draws, pos);
    ResolveGridDefines(s);
    assert KeepsPassages(s, r);
    forall a, b | InGrid(r, a, b)
      ensures Reach(r, (0, 0), (a, b))
    {
      SplitConnects(g, 0, 0, g.w, g.h, draws, pos, a, b);
      ReachMono(s, r, (0, 0), (a, b));
    }
  }
}
