// Maze::removeCrosses (src/MazeGen.cpp lines 201-242) as functions over the
// grid value.  The anti-diagonals i+j = k are scanned from the far corner
// towards (0, 0); a cell with no wall on any side (a cross) gets a wall on its
// top side, and the walk along that new wall looks for the move that comes
// closest to (0, 0), where a passage is opened again.
module MazeCrosses {
  import opened MazeGrid
  import opened WallWalk
  import opened MazeFix

  // ---------------------------------------------------------------------------
  // The walk loops: the move closest to (0, 0)

  /** The locals min_k, best_i and best_j of removeCrosses. */
  datatype Best = Best(k: int, i: int, j: int)

  /** The body of both walk loops: a move (turn 0) into a cell on a lower
      anti-diagonal than min_k replaces the best so far. */
  function Consider(b: Best, c: Cursor): Best {
    if c.turn == 0 && c.i + c.j < b.k then Best(c.i + c.j, c.i, c.j) else b
  }

  /** The best after the cursors cs, in order. */
  function BestOf(b: Best, cs: seq<Cursor>): Best
    decreases |cs|
  {
    if cs == [] then b else BestOf(Consider(b, cs[0]), cs[1..])
  }

  /** A walk loop from cursor c on, with b as the best so far: with `stop`
      (the first loop) it breaks as soon as a move reaches (0, 0).  None when
      more than `fuel` further calls of next() would be needed. */
  function ScanWalk(g: Grid, c: Cursor, fuel: nat, b: Best, stop: bool): (r: Option<Best>)
    requires g.Valid() && Inv(g, c) && InGrid(g, b.i, b.j) && b.k == b.i + b.j
    ensures r.Some? ==> r.value.k <= b.k && InGrid(g, r.value.i, r.value.j) &&
                        r.value.k == r.value.i + r.value.j
    decreases fuel
  {
    if c.state == 0 then Some(b)
    else if stop && c.turn == 0 && c.i + c.j < b.k && c.i + c.j == 0 then Some(Best(0, c.i, c.j))
    else if fuel == 0 then None
    else ScanWalk(g, Step(g, c), fuel - 1, Consider(b, c), stop)
  }

  /** How one pass of a walk loop's body settles ScanWalk: at the end of the
      walk, at the break, or out of fuel. */
  lemma ScanWalkStop(g: Grid, c: Cursor, fuel: nat, b: Best, stop: bool)
    requires g.Valid() && Inv(g, c) && InGrid(g, b.i, b.j) && b.k == b.i + b.j
    ensures c.state == 0 ==> ScanWalk(g, c, fuel, b, stop) == Some(b)
    ensures c.state != 0 && stop && Consider(b, c) != b && Consider(b, c).k == 0 ==>
      ScanWalk(g, c, fuel, b, stop) == Some(Consider(b, c))
    ensures c.state != 0 && !(stop && Consider(b, c) != b && Consider(b, c).k == 0) && fuel == 0 ==>
      ScanWalk(g, c, fuel, b, stop) == None
  {
  }

  /** Otherwise the pass hands over to the next cursor, one call of next()
      later. */
  lemma ScanWalkUnfold(g: Grid, c: Cursor, next: Cursor, fuel: nat, rest: nat, b: Best, stop: bool)
    requires g.Valid() && Inv(g, c) && InGrid(g, b.i, b.j) && b.k == b.i + b.j
    requires c.state != 0 && !(stop && Consider(b, c) != b && Consider(b, c).k == 0)
    requires fuel == rest + 1 && next == Step(g, c)
    ensures ScanWalk(g, c, fuel, b, stop) == ScanWalk(g, next, rest, Consider(b, c), stop)
  {
  }

  /** Once the best is at most 0 no cell of the grid improves on it. */
  lemma {:induction false} BestOfFloor(g: Grid, b: Best, cs: seq<Cursor>)
    requires g.Valid() && b.k <= 0
    requires forall n :: 0 <= n < |cs| ==> InGrid(g, cs[n].i, cs[n].j)
    ensures BestOf(b, cs) == b
  {
    if cs != [] {
      assert InGrid(g, cs[0].i, cs[0].j);
      BestOfFloor(g, b, cs[1..]);
    }
  }

  /** A walk loop computes BestOf over the cursors of the walk: the break of
      the first loop only ends it early, at a best nothing can beat.  Without
      the break the loop runs out of fuel exactly when the walk does. */
  lemma {:induction false} ScanWalkIsBestOf(g: Grid, c: Cursor, fuel: nat, b: Best, stop: bool)
    requires g.Valid() && Inv(g, c) && InGrid(g, b.i, b.j) && b.k == b.i + b.j
    ensures Run(g, c, fuel).Some? ==>
      ScanWalk(g, c, fuel, b, stop) == Some(BestOf(b, Run(g, c, fuel).value))
    ensures Run(g, c, fuel).None? && !stop ==> ScanWalk(g, c, fuel, b, stop).None?
    decreases fuel
  {
    if c.state != 0 {
      if stop && c.turn == 0 && c.i + c.j < b.k && c.i + c.j == 0 {
        if Run(g, c, fuel).Some? {
          var rest := Run(g, Step(g, c), fuel - 1).value;
          RunCursorsValid(g, Step(g, c), fuel - 1);
          assert forall n :: 0 <= n < |rest| ==> Inv(g, rest[n]);
          BestOfFloor(g, Consider(b, c), rest);
          assert ([c] + rest)[1..] == rest;
        }
      } else if fuel > 0 {
        ScanWalkIsBestOf(g, Step(g, c), fuel - 1, Consider(b, c), stop);
        if Run(g, c, fuel).Some? {
          var rest := Run(g, Step(g, c), fuel - 1).value;
          assert ([c] + rest)[1..] == rest;
        }
      }
    }
  }

  /** BestOf is the minimum: min_k ends at most where it started and at most
      at every move of cs; and unless nothing beat the start, the best is the
      first move of cs that reaches that minimum. */
  lemma {:induction false} BestOfIsFirstMinimum(b: Best, cs: seq<Cursor>)
    decreases |cs|
    ensures var r := BestOf(b, cs);
      r.k <= b.k &&
      (forall n :: 0 <= n < |cs| && cs[n].turn == 0 ==> r.k <= cs[n].i + cs[n].j) &&
      (r == b ||
       exists n :: 0 <= n < |cs| && cs[n].turn == 0 && r == Best(cs[n].i + cs[n].j, cs[n].i, cs[n].j) &&
         r.k < b.k && forall m :: 0 <= m < n && cs[m].turn == 0 ==> r.k < cs[m].i + cs[m].j)
  {
    if cs != [] {
      var b1 := Consider(b, cs[0]);
      var tail := cs[1..];
      BestOfIsFirstMinimum(b1, tail);
      var r := BestOf(b, cs);
      assert r == BestOf(b1, tail);
      forall n | 0 <= n < |cs| && cs[n].turn == 0
        ensures r.k <= cs[n].i + cs[n].j
      {
        if n > 0 {
          assert cs[n] == tail[n - 1];
        }
      }
      if r != b {
        if r == b1 {
          assert cs[0].turn == 0 && r == Best(cs[0].i + cs[0].j, cs[0].i, cs[0].j) && r.k < b.k;
        } else {
          var n :| 0 <= n < |tail| && tail[n].turn == 0 &&
            r == Best(tail[n].i + tail[n].j, tail[n].i, tail[n].j) && r.k < b1.k &&
            forall m :: 0 <= m < n && tail[m].turn == 0 ==> r.k < tail[m].i + tail[m].j;
          assert cs[n + 1] == tail[n];
          forall m | 0 <= m < n + 1 && cs[m].turn == 0
            ensures r.k < cs[m].i + cs[m].j
          {
            if m > 0 {
              assert cs[m] == tail[m - 1];
            }
          }
        }
      }
    }
  }

  // ---------------------------------------------------------------------------
  // Relinking one cross

  /** How removeCrosses ends: every cross relinked; a walk needed more than
      the fuel allows; or the passage to open was left(0, 0), which the
      source writes at _vert[-h], outside the array. */
  datatype UncrossEnd = Uncrossed | StuckWalk | WriteOffGrid

  /** The end reached and the grid at that point. */
  datatype Uncross = Uncross(end: UncrossEnd, g: Grid)

  /** The passage removeCrosses opens at the best cell: top(i, j) when j > 0,
      otherwise left(i, j). */
  function OpenAt(g: Grid, b: Best): (r: Uncross)
    requires g.Valid() && InGrid(g, b.i, b.j)
    ensures r.g.Valid() && r.g.w == g.w && r.g.h == g.h
  {
    if b.j > 0 then Uncross(Uncrossed, SetTop(g, b.i, b.j, Passage))
    else if b.i > 0 then Uncross(Uncrossed, SetLeft(g, b.i, b.j, Passage))
    else Uncross(WriteOffGrid, g)
  }

  /** The body of removeCrosses for the cross (i, j) on anti-diagonal k: wall
      its top, find the move closest to (0, 0) on the walk from (i, j) facing
      east; when that walk reaches (0, 0), use instead the walk from (i, j-1)
      facing west, starting from (i, j-1) itself; then open a passage there. */
  function RelinkCross(g: Grid, i: int, j: int, k: int, steps: nat): (r: Uncross)
    requires g.Valid() && InGrid(g, i, j) && !HasSomeWall(g, i, j) && k == i + j
    ensures r.g.Valid() && r.g.w == g.w && r.g.h == g.h
  {
    var g1 := SetTop(g, i, j, Wall);
    match ScanWalk(g1, Step(g1, Start(i, j, 0)), steps, Best(k, i, j), true)
    case None => Uncross(StuckWalk, g1)
    case Some(b) =>
      if b.k == 0 then
        match ScanWalk(g1, Step(g1, Start(i, j - 1, 2)), steps, Best(k - 1, i, j - 1), false)
        case None => Uncross(StuckWalk, g1)
        case Some(b2) => OpenAt(g1, b2)
      else OpenAt(g1, b)
  }

  /** RelinkCross by the best cell its walks choose, the second walk taken
      only when the first reaches (0, 0). */
  lemma RelinkCrossByChoice(g: Grid, i: int, j: int, k: int, steps: nat, found: Option<Best>)
    requires g.Valid() && InGrid(g, i, j) && !HasSomeWall(g, i, j) && k == i + j
    requires var g1 := SetTop(g, i, j, Wall);
      var first := ScanWalk(g1, Step(g1, Start(i, j, 0)), steps, Best(k, i, j), true);
      found == if first.Some? && first.value.k == 0
               then ScanWalk(g1, Step(g1, Start(i, j - 1, 2)), steps, Best(k - 1, i, j - 1), false)
               else first
    ensures var g1 := SetTop(g, i, j, Wall);
      found.Some? ==> InGrid(g1, found.value.i, found.value.j)
    ensures var g1 := SetTop(g, i, j, Wall);
      RelinkCross(g, i, j, k, steps) ==
        if found.None? then Uncross(StuckWalk, g1) else OpenAt(g1, found.value)
  {
    CrossIsInner(g, i, j);
  }

  /** The row of column i on anti-diagonal k. */
  function DiagonalRow(k: int, i: int): int {
    k - i
  }

  /** The two nested loops of removeCrosses from anti-diagonal k, column i on. */
  function CrossesFrom(g: Grid, k: int, i: int, steps: nat): (r: Uncross)
    requires g.Valid() && 0 <= k && 0 <= i <= g.w
    ensures r.g.Valid() && r.g.w == g.w && r.g.h == g.h
    decreases k, g.w - i
  {
    if k == 0 then Uncross(Uncrossed, g)
    else if i == g.w then CrossesFrom(g, k - 1, 0, steps)
    else if 0 <= DiagonalRow(k, i) < g.h && !HasSomeWall(g, i, DiagonalRow(k, i)) then
      var r := RelinkCross(g, i, DiagonalRow(k, i), k, steps);
      if r.end == Uncrossed then CrossesFrom(r.g, k, i + 1, steps) else r
    else CrossesFrom(g, k, i + 1, steps)
  }

  /** Maze::removeCrosses: the anti-diagonals from w+h-2 down to 1. */
  function RemoveCrossesRun(g: Grid, steps: nat): (r: Uncross)
    requires g.Valid()
    ensures r.g.Valid() && r.g.w == g.w && r.g.h == g.h
  {
    CrossesFrom(g, g.w + g.h - 2, 0, steps)
  }

  // ---------------------------------------------------------------------------
  // What removeCrosses promises

  /** A cross is an inner cell: the border reads as a wall. */
  lemma CrossIsInner(g: Grid, i: int, j: int)
    requires g.Valid() && InGrid(g, i, j) && !HasSomeWall(g, i, j)
    ensures 0 < i < g.w - 1 && 0 < j < g.h - 1
  {
    assert !HasWall(g, i, j, 0) && !HasWall(g, i, j, 1);
    assert !HasWall(g, i, j, 2) && !HasWall(g, i, j, 3);
  }

  /** Relinking the cross (i, j) on anti-diagonal k walls its top and, unless
      it fails, opens one passage at a cell on an anti-diagonal no further
      from (0, 0) than k. */
  lemma RelinkCrossOpensLower(g: Grid, i: int, j: int, k: int, steps: nat)
    requires g.Valid() && InGrid(g, i, j) && !HasSomeWall(g, i, j) && k == i + j
    ensures var r := RelinkCross(g, i, j, k, steps);
      var g1 := SetTop(g, i, j, Wall);
      (r.end == StuckWalk ==> r.g == g1) &&
      (r.end == WriteOffGrid ==> r.g == g1) &&
      (r.end == Uncrossed ==>
        exists a, b :: InGrid(g, a, b) && a + b <= k &&
          ((b > 0 && r.g == SetTop(g1, a, b, Passage)) ||
           (b == 0 && a > 0 && r.g == SetLeft(g1, a, b, Passage))))
  {
    CrossIsInner(g, i, j);
    var g1 := SetTop(g, i, j, Wall);
    var r := RelinkCross(g, i, j, k, steps);
    match ScanWalk(g1, Step(g1, Start(i, j, 0)), steps, Best(k, i, j), true)
    case None =>
    case Some(b) =>
      if b.k == 0 {
        match ScanWalk(g1, Step(g1, Start(i, j - 1, 2)), steps, Best(k - 1, i, j - 1), false)
        case None =>
        case Some(b2) =>
          if r.end == Uncrossed {
            assert InGrid(g, b2.i, b2.j) && b2.i + b2.j <= k;
          }
      } else if r.end == Uncrossed {
        assert InGrid(g, b.i, b.j) && b.i + b.j <= k;
      }
  }

  /** No slot holds Undefined. */
  ghost predicate Defined(g: Grid)
    requires g.Valid()
  {
    (forall a, b :: 0 <= a < g.w - 1 && 0 <= b < g.h ==> Right(g, a, b) != Undefined) &&
    (forall a, b :: 0 <= a < g.w && 0 <= b < g.h - 1 ==> Bottom(g, a, b) != Undefined)
  }

  lemma SetTopKeepsDefined(g: Grid, i: int, j: int, s: State)
    requires g.Valid() && 0 <= i < g.w && 1 <= j < g.h && Defined(g) && s != Undefined
    ensures Defined(SetTop(g, i, j, s))
  {
    var r := SetTop(g, i, j, s);
    forall a, b | 0 <= a < g.w - 1 && 0 <= b < g.h
      ensures Right(r, a, b) != Undefined
    {
      assert Right(r, a, b) == Right(g, a, b);
    }
    SetBottomAt(g, i, j - 1, s);
  }

  lemma SetLeftKeepsDefined(g: Grid, i: int, j: int, s: State)
    requires g.Valid() && 1 <= i < g.w && 0 <= j < g.h && Defined(g) && s != Undefined
    ensures Defined(SetLeft(g, i, j, s))
  {
    var r := SetLeft(g, i, j, s);
    forall a, b | 0 <= a < g.w && 0 <= b < g.h - 1
      ensures Bottom(r, a, b) != Undefined
    {
      assert Bottom(r, a, b) == Bottom(g, a, b);
    }
    SetRightAt(g, i - 1, j, s);
  }

  /** Relinking a cross writes only Wall and Passage. */
  lemma RelinkCrossKeepsDefined(g: Grid, i: int, j: int, k: int, steps: nat)
    requires g.Valid() && InGrid(g, i, j) && !HasSomeWall(g, i, j) && k == i + j && Defined(g)
    ensures Defined(RelinkCross(g, i, j, k, steps).g)
  {
    CrossIsInner(g, i, j);
    RelinkCrossOpensLower(g, i, j, k, steps);
    var g1 := SetTop(g, i, j, Wall);
    SetTopKeepsDefined(g, i, j, Wall);
    var r := RelinkCross(g, i, j, k, steps);
    if r.end == Uncrossed {
      var a, b :| InGrid(g, a, b) && a + b <= k &&
        ((b > 0 && r.g == SetTop(g1, a, b, Passage)) ||
         (b == 0 && a > 0 && r.g == SetLeft(g1, a, b, Passage)));
      if b > 0 {
        SetTopKeepsDefined(g1, a, b, Passage);
      } else {
        SetLeftKeepsDefined(g1, a, b, Passage);
      }
    }
  }

  /** removeCrosses writes only Wall and Passage: a maze without Undefined
      slots stays without them, whatever the outcome. */
  lemma {:induction false} CrossesKeepDefined(g: Grid, k: int, i: int, steps: nat)
    requires g.Valid() && 0 <= k && 0 <= i <= g.w && Defined(g)
    ensures Defined(CrossesFrom(g, k, i, steps).g)
    decreases k, g.w - i
  {
    if k == 0 {
    } else if i == g.w {
      CrossesKeepDefined(g, k - 1, 0, steps);
    } else if 0 <= DiagonalRow(k, i) < g.h && !HasSomeWall(g, i, DiagonalRow(k, i)) {
      var r := RelinkCross(g, i, DiagonalRow(k, i), k, steps);
      RelinkCrossKeepsDefined(g, i, DiagonalRow(k, i), k, steps);
      if r.end == Uncrossed {
        CrossesKeepDefined(r.g, k, i + 1, steps);
      }
    } else {
      CrossesKeepDefined(g, k, i + 1, steps);
    }
  }
}
