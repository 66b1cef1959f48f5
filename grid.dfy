// The edge-state grid of class Maze: the walls between neighbouring cells,
// the accessors right/left/bottom/top, and the wall queries `_hasWall` and
// `_nrWalls`, as pure functions over a snapshot.  The class keeps the walls in
// two flat arrays; module MazeLayout relates those arrays to this snapshot.
module MazeGrid {

  /** The three states a slot can hold (Maze::state). */
  datatype State = Wall | Passage | Undefined

  /** A snapshot of a maze of w by h cells.  vert[i][j] is right(i, j), the
      wall between (i, j) and (i+1, j), for the w-1 columns that have a right
      neighbour; horz[i][j] is bottom(i, j), the wall between (i, j) and
      (i, j+1), for the h-1 rows that have one below. */
  datatype Grid = Grid(w: int, h: int, vert: seq<seq<State>>, horz: seq<seq<State>>)
  {
    predicate Valid() {
      w >= 1 && h >= 1 && |vert| == w - 1 && |horz| == w &&
      (forall i :: 0 <= i < w - 1 ==> |vert[i]| == h) &&
      (forall i :: 0 <= i < w ==> |horz[i]| == h - 1)
    }
  }

  predicate InGrid(g: Grid, i: int, j: int) {
    0 <= i < g.w && 0 <= j < g.h
  }

  // ---------------------------------------------------------------------------
  // The accessors (src/MazeGen.cpp lines 24-27)

  /** Maze::right(i, j): the wall between (i, j) and (i+1, j). */
  function Right(g: Grid, i: int, j: int): State
    requires g.Valid() && 0 <= i < g.w - 1 && 0 <= j < g.h
  {
    g.vert[i][j]
  }

  /** Maze::left(i, j) is right(i-1, j). */
  function Left(g: Grid, i: int, j: int): State
    requires g.Valid() && 1 <= i < g.w && 0 <= j < g.h
  {
    g.vert[i - 1][j]
  }

  /** Maze::bottom(i, j): the wall between (i, j) and (i, j+1). */
  function Bottom(g: Grid, i: int, j: int): State
    requires g.Valid() && 0 <= i < g.w && 0 <= j < g.h - 1
  {
    g.horz[i][j]
  }

  /** Maze::top(i, j) is bottom(i, j-1). */
  function Top(g: Grid, i: int, j: int): State
    requires g.Valid() && 0 <= i < g.w && 1 <= j < g.h
  {
    g.horz[i][j - 1]
  }

  /** right(i, j) = s. */
  function SetRight(g: Grid, i: int, j: int, s: State): (r: Grid)
    requires g.Valid() && 0 <= i < g.w - 1 && 0 <= j < g.h
    ensures r.Valid() && r.w == g.w && r.h == g.h
  {
    g.(vert := g.vert[i := g.vert[i][j := s]])
  }

  /** bottom(i, j) = s. */
  function SetBottom(g: Grid, i: int, j: int, s: State): (r: Grid)
    requires g.Valid() && 0 <= i < g.w && 0 <= j < g.h - 1
    ensures r.Valid() && r.w == g.w && r.h == g.h
  {
    g.(horz := g.horz[i := g.horz[i][j := s]])
  }

  /** SetRight changes right(i, j) alone. */
  lemma SetRightAt(g: Grid, i: int, j: int, s: State)
    requires g.Valid() && 0 <= i < g.w - 1 && 0 <= j < g.h
    ensures forall a, c :: 0 <= a < g.w - 1 && 0 <= c < g.h ==>
      Right(SetRight(g, i, j, s), a, c) == if a == i && c == j then s else Right(g, a, c)
  {
  }

  /** SetBottom changes bottom(i, j) alone. */
  lemma SetBottomAt(g: Grid, i: int, j: int, s: State)
    requires g.Valid() && 0 <= i < g.w && 0 <= j < g.h - 1
    ensures forall a, c :: 0 <= a < g.w && 0 <= c < g.h - 1 ==>
      Bottom(SetBottom(g, i, j, s), a, c) == if a == i && c == j then s else Bottom(g, a, c)
  {
  }

  /** left(i, j) = s, which writes right(i-1, j). */
  function SetLeft(g: Grid, i: int, j: int, s: State): (r: Grid)
    requires g.Valid() && 1 <= i < g.w && 0 <= j < g.h
    ensures r.Valid() && r.w == g.w && r.h == g.h
  {
    SetRight(g, i - 1, j, s)
  }

  /** top(i, j) = s, which writes bottom(i, j-1). */
  function SetTop(g: Grid, i: int, j: int, s: State): (r: Grid)
    requires g.Valid() && 0 <= i < g.w && 1 <= j < g.h
    ensures r.Valid() && r.w == g.w && r.h == g.h
  {
    SetBottom(g, i, j - 1, s)
  }

  // ---------------------------------------------------------------------------
  // Directions: 0 east, 1 south, 2 west, 3 north

  /** The column reached by one step in direction d. */
  function StepI(i: int, d: int): int {
    if d == 0 then i + 1 else if d == 2 then i - 1 else i
  }

  /** The row reached by one step in direction d. */
  function StepJ(j: int, d: int): int {
    if d == 1 then j + 1 else if d == 3 then j - 1 else j
  }

  /** C++'s `%` on int: the remainder takes the sign of the dividend. */
  function CRem(a: int, n: int): (r: int)
    requires n > 0
    ensures -n < r < n
    ensures a >= 0 ==> r == a % n
    ensures a < 0 ==> r <= 0
  {
    if a >= 0 then a % n else -((-a) % n)
  }

  /** Maze::_hasWall.  The side d of cell (i, j) is chosen by (d+4)%4 in C++
      arithmetic; the grid border is a wall, an inner side is a wall exactly
      when its slot holds Wall (Passage and Undefined are open). */
  predicate HasWall(g: Grid, i: int, j: int, d: int)
    requires g.Valid() && InGrid(g, i, j)
  {
    var q := CRem(d + 4, 4);
    if q == 0 then i >= g.w - 1 || Right(g, i, j) == Wall
    else if q == 1 then j >= g.h - 1 || Bottom(g, i, j) == Wall
    else if q == 2 then i <= 0 || Left(g, i, j) == Wall
    else if q == 3 then j <= 0 || Top(g, i, j) == Wall
    else true
  }

  /** For every d >= -4, _hasWall depends only on d modulo 4; in particular
      d = -1 is north. */
  lemma HasWallMod4(g: Grid, i: int, j: int, d: int)
    requires g.Valid() && InGrid(g, i, j) && d >= -4
    ensures HasWall(g, i, j, d) == HasWall(g, i, j, d % 4)
    ensures d == -1 ==> HasWall(g, i, j, d) == HasWall(g, i, j, 3)
  {
  }

  /** Below -4 the C++ remainder of d+4 is never positive: it is 0 for a
      multiple of 4, which asks about the east side, and negative otherwise,
      where the switch falls through to `return true`. */
  lemma HasWallBelowRange(g: Grid, i: int, j: int, d: int)
    requires g.Valid() && InGrid(g, i, j) && d < -4
    ensures HasWall(g, i, j, d) == (d % 4 != 0 || HasWall(g, i, j, 0))
  {
  }

  /** One side of a cell: right(a, b), bottom(a, b), or the grid border. */
  datatype Slot = Vert(a: int, b: int) | Horz(a: int, b: int) | Border

  predicate SlotOk(g: Grid, e: Slot) {
    match e
    case Vert(a, b) => 0 <= a < g.w - 1 && 0 <= b < g.h
    case Horz(a, b) => 0 <= a < g.w && 0 <= b < g.h - 1
    case Border => true
  }

  /** The state of a side; the border reads as Wall. */
  function SlotState(g: Grid, e: Slot): State
    requires g.Valid() && SlotOk(g, e)
  {
    match e
    case Vert(a, b) => Right(g, a, b)
    case Horz(a, b) => Bottom(g, a, b)
    case Border => Wall
  }

  /** The side d (0..3) of cell (i, j), as the accessors name it. */
  function EdgeOf(g: Grid, i: int, j: int, d: int): (e: Slot)
    requires g.Valid() && InGrid(g, i, j) && 0 <= d < 4
    ensures SlotOk(g, e)
    ensures e.Border? <==> !InGrid(g, StepI(i, d), StepJ(j, d))
  {
    if d == 0 then (if i >= g.w - 1 then Border else Vert(i, j))
    else if d == 1 then (if j >= g.h - 1 then Border else Horz(i, j))
    else if d == 2 then (if i <= 0 then Border else Vert(i - 1, j))
    else (if j <= 0 then Border else Horz(i, j - 1))
  }

  /** _hasWall is true on the grid border and on a Wall slot, and false on a
      Passage or Undefined slot. */
  lemma HasWallIsWallSlot(g: Grid, i: int, j: int, d: int)
    requires g.Valid() && InGrid(g, i, j) && 0 <= d < 4
    ensures HasWall(g, i, j, d) <==> SlotState(g, EdgeOf(g, i, j, d)) == Wall
    ensures !InGrid(g, StepI(i, d), StepJ(j, d)) ==> HasWall(g, i, j, d)
  {
  }

  /** The side d of a cell and the opposite side of its neighbour are one slot,
      so the wall is seen alike from both cells. */
  lemma EdgeShared(g: Grid, i: int, j: int, d: int)
    requires g.Valid() && InGrid(g, i, j) && 0 <= d < 4
    requires InGrid(g, StepI(i, d), StepJ(j, d))
    ensures EdgeOf(g, StepI(i, d), StepJ(j, d), (d + 2) % 4) == EdgeOf(g, i, j, d)
    ensures HasWall(g, StepI(i, d), StepJ(j, d), (d + 2) % 4) == HasWall(g, i, j, d)
  {
    HasWallIsWallSlot(g, i, j, d);
    HasWallIsWallSlot(g, StepI(i, d), StepJ(j, d), (d + 2) % 4);
  }

  /** The sides of (i, j) that _hasWall reports as walls. */
  ghost function WallDirs(g: Grid, i: int, j: int): set<int>
    requires g.Valid() && InGrid(g, i, j)
  {
    set d | 0 <= d < 4 && HasWall(g, i, j, d)
  }

  // ---------------------------------------------------------------------------
  // Counting passages

  function Ind(s: State): nat {
    if s == Passage then 1 else 0
  }

  /** The number of Passage slots in s. */
  function PassageCount(s: seq<State>): (n: nat)
    ensures n <= |s|
  {
    if s == [] then 0 else Ind(s[0]) + PassageCount(s[1..])
  }

  /** Overwriting one slot changes the passage count by the difference of the
      two states' contributions. */
  lemma {:induction false} PassageCountUpdate(s: seq<State>, k: int, v: State)
    requires 0 <= k < |s|
    ensures PassageCount(s[k := v]) == PassageCount(s) - Ind(s[k]) + Ind(v)
  {
    if k > 0 {
      assert s[k := v][1..] == s[1..][k - 1 := v];
      PassageCountUpdate(s[1..], k - 1, v);
    } else {
      assert s[k := v][1..] == s[1..];
    }
  }

  /** The number of Passage slots in a sequence of columns. */
  function ColumnsCount(c: seq<seq<State>>): nat {
    if c == [] then 0 else PassageCount(c[0]) + ColumnsCount(c[1..])
  }

  lemma {:induction false} ColumnsCountUpdate(c: seq<seq<State>>, a: int, b: int, v: State)
    requires 0 <= a < |c| && 0 <= b < |c[a]|
    ensures ColumnsCount(c[a := c[a][b := v]]) == ColumnsCount(c) - Ind(c[a][b]) + Ind(v)
  {
    if a > 0 {
      assert c[a := c[a][b := v]][1..] == c[1..][a - 1 := c[a][b := v]];
      ColumnsCountUpdate(c[1..], a - 1, b, v);
    } else {
      assert c[a := c[a][b := v]][1..] == c[1..];
      PassageCountUpdate(c[0], b, v);
    }
  }

  /** The passages of a whole grid. */
  function Passages(g: Grid): nat {
    ColumnsCount(g.vert) + ColumnsCount(g.horz)
  }

  /** Opening a wall that was not a passage adds one passage. */
  lemma OpenRightCount(g: Grid, i: int, j: int)
    requires g.Valid() && 0 <= i < g.w - 1 && 0 <= j < g.h && Right(g, i, j) != Passage
    ensures Passages(SetRight(g, i, j, Passage)) == Passages(g) + 1
  {
    ColumnsCountUpdate(g.vert, i, j, Passage);
  }

  lemma OpenBottomCount(g: Grid, i: int, j: int)
    requires g.Valid() && 0 <= i < g.w && 0 <= j < g.h - 1 && Bottom(g, i, j) != Passage
    ensures Passages(SetBottom(g, i, j, Passage)) == Passages(g) + 1
  {
    ColumnsCountUpdate(g.horz, i, j, Passage);
  }

  // ---------------------------------------------------------------------------
  // Maze::_undefinedToWall

  function Resolve(s: State): State {
    if s == Undefined then Wall else s
  }

  /** Every Undefined slot of one flat array becomes Wall; the others are kept. */
  function ResolveAll(s: seq<State>): seq<State> {
    if s == [] then [] else [Resolve(s[0])] + ResolveAll(s[1..])
  }

  lemma {:induction false} ResolveAllAt(s: seq<State>, k: int)
    requires 0 <= k < |s|
    ensures |ResolveAll(s)| == |s|
    ensures ResolveAll(s)[k] == Resolve(s[k])
  {
    if k == 0 {
      ResolveAllLength(s[1..]);
    } else {
      ResolveAllAt(s[1..], k - 1);
    }
  }

  lemma {:induction false} ResolveAllLength(s: seq<State>)
    ensures |ResolveAll(s)| == |s|
  {
    if s != [] {
      ResolveAllLength(s[1..]);
    }
  }

  /** A sequence that agrees slot by slot with ResolveAll(s) is ResolveAll(s). */
  lemma ResolveAllPointwise(s: seq<State>, r: seq<State>)
    requires |r| == |s|
    requires forall k :: 0 <= k < |s| ==> r[k] == Resolve(s[k])
    ensures r == ResolveAll(s)
  {
    ResolveAllLength(s);
    forall k | 0 <= k < |s|
      ensures r[k] == ResolveAll(s)[k]
    {
      ResolveAllAt(s, k);
    }
  }

  /** After _undefinedToWall no slot is Undefined, and a slot that already
      held Wall or Passage is unchanged. */
  lemma ResolveAllDefines(s: seq<State>)
    ensures |ResolveAll(s)| == |s|
    ensures forall k :: 0 <= k < |s| ==> ResolveAll(s)[k] != Undefined
    ensures forall k :: 0 <= k < |s| && s[k] != Undefined ==> ResolveAll(s)[k] == s[k]
  {
    ResolveAllLength(s);
    forall k | 0 <= k < |s|
      ensures ResolveAll(s)[k] == Resolve(s[k])
    {
      ResolveAllAt(s, k);
    }
  }

  /** Applying _undefinedToWall twice changes nothing. */
  lemma ResolveAllIdempotent(s: seq<State>)
    ensures ResolveAll(ResolveAll(s)) == ResolveAll(s)
  {
    var r := ResolveAll(s);
    ResolveAllLength(s);
    ResolveAllLength(r);
    forall k | 0 <= k < |r|
      ensures ResolveAll(r)[k] == r[k]
    {
      ResolveAllAt(r, k);
      ResolveAllAt(s, k);
    }
  }

  /** _undefinedToWall neither opens nor closes a passage. */
  lemma {:induction false} ResolveAllKeepsPassages(s: seq<State>)
    ensures PassageCount(ResolveAll(s)) == PassageCount(s)
  {
    if s != [] {
      assert ResolveAll(s)[1..] == ResolveAll(s[1..]);
      ResolveAllKeepsPassages(s[1..]);
    }
  }

  /** ResolveAll on every column. */
  function ResolveColumns(c: seq<seq<State>>): (r: seq<seq<State>>)
    ensures |r| == |c|
  {
    if c == [] then [] else [ResolveAll(c[0])] + ResolveColumns(c[1..])
  }

  lemma {:induction false} ResolveColumnsAt(c: seq<seq<State>>, a: int)
    requires 0 <= a < |c|
    ensures ResolveColumns(c)[a] == ResolveAll(c[a])
  {
    if a > 0 {
      ResolveColumnsAt(c[1..], a - 1);
    }
  }

  lemma {:induction false} ResolveColumnsKeepsPassages(c: seq<seq<State>>)
    ensures ColumnsCount(ResolveColumns(c)) == ColumnsCount(c)
  {
    if c != [] {
      assert ResolveColumns(c)[1..] == ResolveColumns(c[1..]);
      ResolveAllKeepsPassages(c[0]);
      ResolveColumnsKeepsPassages(c[1..]);
    }
  }

  /** Two snapshots of the same size that agree on every slot are equal. */
  lemma GridExt(g: Grid, r: Grid)
    requires g.Valid() && r.Valid() && g.w == r.w && g.h == r.h
    requires forall a, b :: 0 <= a < g.w - 1 && 0 <= b < g.h ==> Right(r, a, b) == Right(g, a, b)
    requires forall a, b :: 0 <= a < g.w && 0 <= b < g.h - 1 ==> Bottom(r, a, b) == Bottom(g, a, b)
    ensures r == g
  {
    forall a | 0 <= a < g.w - 1
      ensures r.vert[a] == g.vert[a]
    {
      assert |r.vert[a]| == g.h == |g.vert[a]|;
      forall b | 0 <= b < g.h
        ensures r.vert[a][b] == g.vert[a][b]
      {
        assert Right(r, a, b) == Right(g, a, b);
      }
    }
    forall a | 0 <= a < g.w
      ensures r.horz[a] == g.horz[a]
    {
      assert |r.horz[a]| == g.h - 1 == |g.horz[a]|;
      forall b | 0 <= b < g.h - 1
        ensures r.horz[a][b] == g.horz[a][b]
      {
        assert Bottom(r, a, b) == Bottom(g, a, b);
      }
    }
  }

  /** Maze::_undefinedToWall on a whole grid. */
  function ResolveGrid(g: Grid): Grid {
    g.(vert := ResolveColumns(g.vert), horz := ResolveColumns(g.horz))
  }

  /** After _undefinedToWall on a grid, no wall is Undefined, the others are
      unchanged, and the number of passages is the same. */
  lemma ResolveGridDefines(g: Grid)
    requires g.Valid()
    ensures ResolveGrid(g).Valid() && Passages(ResolveGrid(g)) == Passages(g)
    ensures forall a, b :: 0 <= a < g.w - 1 && 0 <= b < g.h ==>
      Right(ResolveGrid(g), a, b) == Resolve(Right(g, a, b))
    ensures forall a, b :: 0 <= a < g.w && 0 <= b < g.h - 1 ==>
      Bottom(ResolveGrid(g), a, b) == Resolve(Bottom(g, a, b))
  {
    var r := ResolveGrid(g);
    forall a | 0 <= a < g.w - 1
      ensures r.vert[a] == ResolveAll(g.vert[a]) && |r.vert[a]| == g.h
    {
      ResolveColumnsAt(g.vert, a);
      ResolveAllLength(g.vert[a]);
    }
    forall a | 0 <= a < g.w
      ensures r.horz[a] == ResolveAll(g.horz[a]) && |r.horz[a]| == g.h - 1
    {
      ResolveColumnsAt(g.horz, a);
      ResolveAllLength(g.horz[a]);
    }
    forall a, b | 0 <= a < g.w - 1 && 0 <= b < g.h
      ensures r.vert[a][b] == Resolve(g.vert[a][b])
    {
      ResolveAllAt(g.vert[a], b);
    }
    forall a, b | 0 <= a < g.w && 0 <= b < g.h - 1
      ensures r.horz[a][b] == Resolve(g.horz[a][b])
    {
      ResolveAllAt(g.horz[a], b);
    }
    ResolveColumnsKeepsPassages(g.vert);
    ResolveColumnsKeepsPassages(g.horz);
  }

  /** A freshly constructed maze: every slot Undefined. */
  ghost predicate AllUndefined(g: Grid)
    requires g.Valid()
  {
    (forall a, b :: 0 <= a < g.w - 1 && 0 <= b < g.h ==> Right(g, a, b) == Undefined) &&
    (forall a, b :: 0 <= a < g.w && 0 <= b < g.h - 1 ==> Bottom(g, a, b) == Undefined)
  }

  lemma {:induction false} NoPassageCount(s: seq<State>)
    requires forall k :: 0 <= k < |s| ==> s[k] != Passage
    ensures PassageCount(s) == 0
  {
    if s != [] {
      assert forall k :: 0 <= k < |s[1..]| ==> s[1..][k] == s[k + 1];
      NoPassageCount(s[1..]);
    }
  }

  lemma {:induction false} NoPassageColumns(c: seq<seq<State>>)
    requires forall a, b :: 0 <= a < |c| && 0 <= b < |c[a]| ==> c[a][b] != Passage
    ensures ColumnsCount(c) == 0
  {
    if c != [] {
      NoPassageCount(c[0]);
      assert forall a :: 0 <= a < |c[1..]| ==> c[1..][a] == c[a + 1];
      NoPassageColumns(c[1..]);
    }
  }

  /** A fresh maze has no passage. */
  lemma AllUndefinedCount(g: Grid)
    requires g.Valid() && AllUndefined(g)
    ensures Passages(g) == 0
  {
    forall a, b | 0 <= a < |g.vert| && 0 <= b < |g.vert[a]|
      ensures g.vert[a][b] != Passage
    {
      assert Right(g, a, b) == Undefined;
    }
    forall a, b | 0 <= a < |g.horz| && 0 <= b < |g.horz[a]|
      ensures g.horz[a][b] != Passage
    {
      assert Bottom(g, a, b) == Undefined;
    }
    NoPassageColumns(g.vert);
    NoPassageColumns(g.horz);
  }
}
