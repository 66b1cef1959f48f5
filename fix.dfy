// Maze::generateRandom and Maze::fix (src/MazeGen.cpp lines 52-59 and
// 282-367) as functions over the two flat slot arrays.  A round of fix walks
// the maze along its walls from a drawn start, counts for every slot how
// often the walk crossed it or touched it, and flips one slot whose count is
// exactly 1; fix stops when the walk makes 2*(w*h-1) moves.
module MazeFix {
  import opened MazeGrid
  import opened MazeLayout
  import opened WallWalk
  import opened Random

  // ---------------------------------------------------------------------------
  // generateRandom

  /** rand() % 2 == 0 ? s_wall : s_passage. */
  function RandomState(draw: nat): State {
    if RandMod(draw, 2) == 0 then Wall else Passage
  }

  /** n slots filled from the draws at pos, pos+1, ... */
  function RandomSlots(draws: nat -> nat, pos: nat, n: nat): (s: seq<State>)
    ensures |s| == n
  {
    seq(n, k requires 0 <= k < n => RandomState(draws(pos + k)))
  }

  /** The draw position after generateRandom's two loops: one draw per
      slot. */
  function AfterRandomSlots(w: int, h: int, pos: nat): nat
    requires w >= 1 && h >= 1
  {
    MulLeftMono(h, 0, w - 1);
    MulLeftMono(w, 0, h - 1);
    pos + (w - 1) * h + w * (h - 1)
  }

  /** After generateRandom's two loops no slot is Undefined, so
      _undefinedToWall would change nothing, and each slot is Wall exactly
      when its draw is even. */
  lemma RandomGridDefined(w: int, h: int, draws: nat -> nat, pos: nat)
    requires w >= 1 && h >= 1
    ensures (w - 1) * h >= 0 && w * (h - 1) >= 0
    ensures var g := FromFlat(w, h, RandomSlots(draws, pos, (w - 1) * h),
                                    RandomSlots(draws, pos + (w - 1) * h, w * (h - 1)));
      ResolveGrid(g) == g &&
      (forall a, b :: 0 <= a < w - 1 && 0 <= b < h ==>
        (Right(g, a, b) == Wall <==> draws(pos + RightIndex(w, h, a, b)) % 2 == 0)) &&
      (forall a, b :: 0 <= a < w && 0 <= b < h - 1 ==>
        (Bottom(g, a, b) == Wall <==> draws(pos + (w - 1) * h + BottomIndex(w, h, a, b)) % 2 == 0))
  {
    MulLeftMono(h, 0, w - 1);
    MulLeftMono(w, 0, h - 1);
    var vert := RandomSlots(draws, pos, (w - 1) * h);
    var horz := RandomSlots(draws, pos + (w - 1) * h, w * (h - 1));
    var g := FromFlat(w, h, vert, horz);
    ResolveGridDefines(g);
    forall a, b | 0 <= a < w - 1 && 0 <= b < h
      ensures Right(g, a, b) != Undefined
      ensures Right(g, a, b) == Wall <==> draws(pos + RightIndex(w, h, a, b)) % 2 == 0
    {
      FromFlatRight(w, h, vert, horz, a, b);
      RandModIsRem(draws(pos + RightIndex(w, h, a, b)), 2);
    }
    forall a, b | 0 <= a < w && 0 <= b < h - 1
      ensures Bottom(g, a, b) != Undefined
      ensures Bottom(g, a, b) == Wall <==> draws(pos + (w - 1) * h + BottomIndex(w, h, a, b)) % 2 == 0
    {
      FromFlatBottom(w, h, vert, horz, a, b);
      var base := pos + (w - 1) * h;
      var k := BottomIndex(w, h, a, b);
      assert horz[k] == RandomState(draws(base + k));
      RandModIsRem(draws(base + k), 2);
    }
    GridExt(g, ResolveGrid(g));
  }

  // ---------------------------------------------------------------------------
  // The start of a round

  /** _nrWalls(i, j) > 0. */
  predicate HasSomeWall(g: Grid, i: int, j: int)
    requires g.Valid() && InGrid(g, i, j)
  {
    HasWall(g, i, j, 0) || HasWall(g, i, j, 1) || HasWall(g, i, j, 2) || HasWall(g, i, j, 3)
  }

  lemma SomeWallCount(g: Grid, i: int, j: int)
    requires g.Valid() && InGrid(g, i, j)
    ensures HasSomeWall(g, i, j) <==> |WallDirs(g, i, j)| > 0
  {
    if HasSomeWall(g, i, j) {
      var d :| 0 <= d < 4 && HasWall(g, i, j, d);
      assert d in WallDirs(g, i, j);
    } else {
      assert WallDirs(g, i, j) == {};
    }
  }

  /** The column at which fix's scan for a cell with a wall stops, from
      (i, j) on.  The scan never needs its wrap-around to the next row: the
      east side of column w-1 is the border, a wall. */
  function ScanStart(g: Grid, i: int, j: int): int
    requires g.Valid() && InGrid(g, i, j)
    decreases g.w - i
  {
    if HasSomeWall(g, i, j) then i else ScanStart(g, i + 1, j)
  }

  /** The scan stops at the first cell of the row, from column i on, that
      has a wall, within w - i cells. */
  lemma {:induction false} ScanStartFinds(g: Grid, i: int, j: int)
    requires g.Valid() && InGrid(g, i, j)
    ensures var c := ScanStart(g, i, j);
      i <= c < g.w && HasSomeWall(g, c, j) &&
      forall k :: i <= k < c ==> !HasSomeWall(g, k, j)
    decreases g.w - i
  {
    if !HasSomeWall(g, i, j) {
      ScanStartFinds(g, i + 1, j);
    }
  }

  /** The first side, from d on clockwise, that has a wall. */
  function FirstWall(g: Grid, i: int, j: int, d: int): int
    requires g.Valid() && InGrid(g, i, j) && 0 <= d < 4
  {
    if HasWall(g, i, j, d) then d
    else if HasWall(g, i, j, (d + 1) % 4) then (d + 1) % 4
    else if HasWall(g, i, j, (d + 2) % 4) then (d + 2) % 4
    else (d + 3) % 4
  }

  /** On a cell with a wall, FirstWall is a wall side, and every side passed
      over on the way from d is open. */
  lemma FirstWallFinds(g: Grid, i: int, j: int, d: int)
    requires g.Valid() && InGrid(g, i, j) && 0 <= d < 4 && HasSomeWall(g, i, j)
    ensures var e := FirstWall(g, i, j, d);
      0 <= e < 4 && HasWall(g, i, j, e) &&
      (e == d || !HasWall(g, i, j, d)) &&
      (e == d || e == (d + 1) % 4 || !HasWall(g, i, j, (d + 1) % 4)) &&
      (e == d || e == (d + 1) % 4 || e == (d + 2) % 4 || !HasWall(g, i, j, (d + 2) % 4))
  {
  }

  /** How many open sides the search from d passes over. */
  ghost function FirstWallDistance(g: Grid, i: int, j: int, d: int): nat
    requires g.Valid() && InGrid(g, i, j) && 0 <= d < 4
  {
    if HasWall(g, i, j, d) then 0
    else if HasWall(g, i, j, (d + 1) % 4) then 1
    else if HasWall(g, i, j, (d + 2) % 4) then 2
    else 3
  }

  /** Skipping an open side does not change where the search ends, and
      leaves one open side fewer to pass over. */
  lemma FirstWallSkip(g: Grid, i: int, j: int, d: int)
    requires g.Valid() && InGrid(g, i, j) && 0 <= d < 4 && HasSomeWall(g, i, j)
    requires !HasWall(g, i, j, d)
    ensures FirstWall(g, i, j, (d + 1) % 4) == FirstWall(g, i, j, d)
    ensures FirstWallDistance(g, i, j, (d + 1) % 4) < FirstWallDistance(g, i, j, d)
  {
  }

  /** The direction a round of fix starts its walk in: one step clockwise
      from the first wall. */
  function StartDir(g: Grid, i: int, j: int, d: int): int
    requires g.Valid() && InGrid(g, i, j) && 0 <= d < 4
  {
    (FirstWall(g, i, j, d) + 1) % 4
  }

  /** The walk starts with a wall on its left hand, at d - 1. */
  lemma StartDirWallLeft(g: Grid, i: int, j: int, d: int)
    requires g.Valid() && InGrid(g, i, j) && 0 <= d < 4 && HasSomeWall(g, i, j)
    ensures 0 <= StartDir(g, i, j, d) < 4 && HasWall(g, i, j, StartDir(g, i, j, d) - 1)
  {
    FirstWallFinds(g, i, j, d);
    HasWallMod4(g, i, j, StartDir(g, i, j, d) - 1);
  }

  // ---------------------------------------------------------------------------
  // The counters

  /** The slot whose counter fix bumps for cursor c of its walk: after a move
      (turn 0) the side just crossed, behind the cursor; after touching the
      wall (turn 2) the side on the left hand; otherwise, or where that side
      is the border, none. A cursor off the grid, which no walk holds,
      counts nothing. */
  function Touched(g: Grid, c: Cursor): (e: Slot)
    requires g.Valid()
    ensures SlotOk(g, e)
  {
    if !InGrid(g, c.i, c.j) then Border
    else if c.turn == 0 then EdgeOf(g, c.i, c.j, (c.d + 2) % 4)
    else if c.turn == 2 then EdgeOf(g, c.i, c.j, (c.d + 3) % 4)
    else Border
  }

  /** A move counts the slot it crossed, which is never the border and never
      a wall; touching the wall counts that wall. */
  lemma TouchedState(g: Grid, c: Cursor)
    requires g.Valid() && Inv(g, c)
    ensures c.state == 3 ==> Touched(g, c) != Border && SlotState(g, Touched(g, c)) != Wall
    ensures c.state == 2 ==> SlotState(g, Touched(g, c)) == Wall
  {
    if c.state == 3 {
      HasWallIsWallSlot(g, c.i, c.j, (c.d + 2) % 4);
    } else if c.state == 2 {
      HasWallMod4(g, c.i, c.j, c.d - 1);
      HasWallIsWallSlot(g, c.i, c.j, (c.d + 3) % 4);
    }
  }

  /** How many cursors of cs bump the counter of slot e. */
  function Hits(g: Grid, cs: seq<Cursor>, e: Slot): nat
    requires g.Valid()
  {
    if cs == [] then 0
    else Hits(g, cs[..|cs| - 1], e) + (if Touched(g, cs[|cs| - 1]) == e then 1 else 0)
  }

  lemma HitsSnoc(g: Grid, cs: seq<Cursor>, c: Cursor)
    requires g.Valid()
    ensures forall e :: Hits(g, cs + [c], e) == Hits(g, cs, e) + (if Touched(g, c) == e then 1 else 0)
  {
    assert (cs + [c])[..|cs|] == cs;
  }

  /** The slot right(k / h, k % h) stored at k of `_vert`. */
  function VertAt(h: int, k: int): Slot
    requires h >= 1
  {
    Vert(k / h, k % h)
  }

  /** The slot bottom(k % w, k / w) stored at k of `_horz`. */
  function HorzAt(w: int, k: int): Slot
    requires w >= 1
  {
    Horz(k % w, k / w)
  }

  /** c_vert after the walk cs: the count of each slot of `_vert`. */
  function VertTally(g: Grid, cs: seq<Cursor>): (t: seq<int>)
    requires g.Valid()
    ensures |t| == (g.w - 1) * g.h
  {
    MulLeftMono(g.h, 0, g.w - 1);
    seq((g.w - 1) * g.h, k => Hits(g, cs, VertAt(g.h, k)))
  }

  /** c_horz after the walk cs: the count of each slot of `_horz`. */
  function HorzTally(g: Grid, cs: seq<Cursor>): (t: seq<int>)
    requires g.Valid()
    ensures |t| == g.w * (g.h - 1)
  {
    MulLeftMono(g.w, 0, g.h - 1);
    seq(g.w * (g.h - 1), k => Hits(g, cs, HorzAt(g.w, k)))
  }

  /** The counters v (of `_vert`) and z (of `_horz`) are v0 and z0 with the
      counter of slot e, at its position in its array, one higher. */
  predicate Bumped(g: Grid, e: Slot, v0: seq<int>, v: seq<int>, z0: seq<int>, z: seq<int>)
    requires g.Valid() && SlotOk(g, e) && |v0| == (g.w - 1) * g.h && |z0| == g.w * (g.h - 1)
  {
    match e
    case Vert(a, b) =>
      v == v0[RightIndex(g.w, g.h, a, b) := v0[RightIndex(g.w, g.h, a, b)] + 1] && z == z0
    case Horz(a, b) =>
      v == v0 && z == z0[BottomIndex(g.w, g.h, a, b) := z0[BottomIndex(g.w, g.h, a, b)] + 1]
    case Border => v == v0 && z == z0
  }

  /** Adding a cursor to the walk bumps the counter of the slot it touches,
      and no other. */
  lemma TallySnoc(g: Grid, cs: seq<Cursor>, c: Cursor)
    requires g.Valid()
    ensures Bumped(g, Touched(g, c), VertTally(g, cs), VertTally(g, cs + [c]),
                   HorzTally(g, cs), HorzTally(g, cs + [c]))
  {
    var e := Touched(g, c);
    var t, u := VertTally(g, cs), HorzTally(g, cs);
    HitsSnoc(g, cs, c);
    if e.Vert? {
      var k0 := RightIndex(g.w, g.h, e.a, e.b);
      forall k | 0 <= k < (g.w - 1) * g.h
        ensures VertTally(g, cs + [c])[k] == t[k0 := t[k0] + 1][k]
      {
        VertAtIndex(g.h, e.a, e.b, k);
      }
    } else if e.Horz? {
      var k0 := BottomIndex(g.w, g.h, e.a, e.b);
      forall k | 0 <= k < g.w * (g.h - 1)
        ensures HorzTally(g, cs + [c])[k] == u[k0 := u[k0] + 1][k]
      {
        HorzAtIndex(g.w, e.a, e.b, k);
      }
    }
  }

  /** Position k of `_vert` holds right(a, b) exactly when k = h*a + b. */
  lemma VertAtIndex(h: int, a: int, b: int, k: int)
    requires h >= 1 && 0 <= b < h
    ensures VertAt(h, k) == Vert(a, b) <==> k == h * a + b
  {
    if k == h * a + b {
      DivUnique(k, h, a, b);
      RemUnique(k, h, a, b);
    }
  }

  /** Position k of `_horz` holds bottom(a, b) exactly when k = a + w*b. */
  lemma HorzAtIndex(w: int, a: int, b: int, k: int)
    requires w >= 1 && 0 <= a < w
    ensures HorzAt(w, k) == Horz(a, b) <==> k == a + w * b
  {
    if k == a + w * b {
      DivUnique(k, w, b, a);
      RemUnique(k, w, b, a);
    }
  }

  // ---------------------------------------------------------------------------
  // Choosing and flipping a slot

  /** The number of counters equal to 1. */
  function Ones(t: seq<int>): nat {
    if t == [] then 0 else Ones(t[..|t| - 1]) + (if t[|t| - 1] == 1 then 1 else 0)
  }

  lemma OnesSnoc(t: seq<int>, k: int)
    requires 0 <= k < |t|
    ensures Ones(t[..k + 1]) == Ones(t[..k]) + (if t[k] == 1 then 1 else 0)
  {
    assert t[..k + 1][..k] == t[..k];
  }

  /** `s_wall` becomes `s_passage`; anything else becomes `s_wall`. */
  function Flip(s: State): State {
    if s == Wall then Passage else Wall
  }

  /** The slot with counter 1 that has exactly r such slots before it is
      flipped; every other slot keeps its state. */
  function FlipNth(s: seq<State>, t: seq<int>, r: int): (u: seq<State>)
    requires |t| == |s|
    ensures |u| == |s|
  {
    seq(|s|, m requires 0 <= m < |s| => if t[m] == 1 && Ones(t[..m]) == r then Flip(s[m]) else s[m])
  }

  /** Ones never decreases along a sequence. */
  lemma {:induction false} OnesMono(t: seq<int>, m: int, n: int)
    requires 0 <= m <= n <= |t|
    ensures Ones(t[..m]) <= Ones(t[..n])
    decreases n - m
  {
    if m < n {
      OnesMono(t, m, n - 1);
      OnesSnoc(t, n - 1);
    }
  }

  /** For 0 <= r < Ones(t) some position m has counter 1 and r ones before it. */
  lemma {:induction false} OnesReach(t: seq<int>, n: int, r: int) returns (m: int)
    requires 0 <= n <= |t| && 0 <= r < Ones(t[..n])
    ensures 0 <= m < n && t[m] == 1 && Ones(t[..m]) == r
    decreases n
  {
    OnesSnoc(t, n - 1);
    if Ones(t[..n - 1]) > r {
      m := OnesReach(t, n - 1, r);
    } else {
      m := n - 1;
    }
  }

  /** For 0 <= r < Ones(t), FlipNth flips exactly one slot, one whose counter
      is 1; for any other r it changes nothing. */
  lemma FlipNthOne(s: seq<State>, t: seq<int>, r: int) returns (m: int)
    requires |t| == |s| && 0 <= r < Ones(t)
    ensures 0 <= m < |s| && t[m] == 1
    ensures FlipNth(s, t, r)[m] == Flip(s[m]) != s[m]
    ensures forall n :: 0 <= n < |s| && n != m ==> FlipNth(s, t, r)[n] == s[n]
  {
    assert t[..|t|] == t;
    m := OnesReach(t, |t|, r);
    forall n | 0 <= n < |s| && n != m
      ensures FlipNth(s, t, r)[n] == s[n]
    {
      if t[n] == 1 && Ones(t[..n]) == r {
        if n < m {
          OnesSnoc(t, n);
          OnesMono(t, n + 1, m);
        } else {
          OnesSnoc(t, m);
          OnesMono(t, m + 1, n);
        }
      }
    }
  }

  lemma FlipNthNone(s: seq<State>, t: seq<int>, r: int)
    requires |t| == |s| && (r < 0 || r >= Ones(t))
    ensures FlipNth(s, t, r) == s
  {
    forall m | 0 <= m < |s|
      ensures FlipNth(s, t, r)[m] == s[m]
    {
      if t[m] == 1 && Ones(t[..m]) == r {
        OnesSnoc(t, m);
        OnesMono(t, m + 1, |t|);
        assert t[..|t|] == t;
      }
    }
  }

  // ---------------------------------------------------------------------------
  // One round, and fix as a whole

  /** How a round of fix's outer loop ends: the walk was balanced (fix is
      done), a slot was flipped, no counter was 1 (the source's
      `rand() % count` would divide by zero), or the walk needed more calls
      of next() than the fuel allows. */
  datatype RoundEnd = Balanced | Flipped | NoneToFlip | WalkTooLong

  datatype RoundResult = RoundResult(end: RoundEnd, vert: seq<State>, horz: seq<State>, pos: nat)

  /** The cell and direction a round starts its walk from: three draws give
      a cell and a direction; the scan moves on to a cell with a wall, and
      the direction to one step clockwise from its first wall. */
  function RoundStart(g: Grid, draws: nat -> nat, pos: nat): (s: (int, int, int))
    requires g.Valid()
    ensures InGrid(g, s.0, s.1) && 0 <= s.2 < 4
  {
    var i0 := RandMod(draws(pos), g.w);
    var j := RandMod(draws(pos + 1), g.h);
    var d0 := RandMod(draws(pos + 2), 4);
    ScanStartFinds(g, i0, j);
    var i := ScanStart(g, i0, j);
    (i, j, StartDir(g, i, j, d0))
  }

  /** The rest of a round once the walk cs has finished: done when it made
      2*(w*h-1) moves, otherwise flip the slot a draw picks among those whose
      counter is 1, `_vert` before `_horz`. */
  function AfterWalk(w: int, h: int, vert: seq<State>, horz: seq<State>, cs: seq<Cursor>,
                     draws: nat -> nat, pos: nat): (r: RoundResult)
    requires FlatValid(w, h, vert, horz)
    ensures |r.vert| == |vert| && |r.horz| == |horz|
    ensures r.end != Flipped ==> r.vert == vert && r.horz == horz
  {
    if StraightCount(cs) == 2 * (w * h - 1) then RoundResult(Balanced, vert, horz, pos)
    else
      var g := FromFlat(w, h, vert, horz);
      var tv := VertTally(g, cs);
      var th := HorzTally(g, cs);
      var count := Ones(tv) + Ones(th);
      if count == 0 then RoundResult(NoneToFlip, vert, horz, pos)
      else
        var r := RandMod(draws(pos), count);
        RoundResult(Flipped, FlipNth(vert, tv, r), FlipNth(horz, th, r - Ones(tv)), pos + 1)
  }

  /** One pass of fix's outer loop over the arrays vert and horz, drawing
      from draws(pos) on. */
  function FixRound(w: int, h: int, vert: seq<State>, horz: seq<State>,
                    draws: nat -> nat, pos: nat, steps: nat): (r: RoundResult)
    requires FlatValid(w, h, vert, horz)
    ensures |r.vert| == |vert| && |r.horz| == |horz|
    ensures r.end != Flipped ==> r.vert == vert && r.horz == horz
  {
    var g := FromFlat(w, h, vert, horz);
    var s := RoundStart(g, draws, pos);
    match Walk(g, s.0, s.1, s.2, steps)
    case None => RoundResult(WalkTooLong, vert, horz, AfterStartDraws(pos))
    case Some(cs) => AfterWalk(w, h, vert, horz, cs, draws, AfterStartDraws(pos))
  }

  /** The draw position once the start of a round has taken its three
      draws: column, row and direction. */
  function AfterStartDraws(pos: nat): nat {
    pos + 3
  }

  /** How fix ends: the walk was balanced, no counter was 1, or the fuel
      (at most `rounds` passes, each walk at most `steps` calls of next())
      ran out. */
  datatype FixOutcome = Fixed | NoCandidate | OutOfFuel

  datatype FixResult = FixResult(outcome: FixOutcome, vert: seq<State>, horz: seq<State>, pos: nat)

  /** Maze::fix. */
  function FixRun(w: int, h: int, vert: seq<State>, horz: seq<State>,
                  draws: nat -> nat, pos: nat, steps: nat, rounds: nat): (r: FixResult)
    requires FlatValid(w, h, vert, horz)
    ensures FlatValid(w, h, r.vert, r.horz)
    ensures r.outcome == Fixed ==> SomeWalkBalanced(w, h, r.vert, r.horz, steps)
    decreases rounds, 1
  {
    if rounds == 0 then FixResult(OutOfFuel, vert, horz, pos)
    else
      var rr := FixRound(w, h, vert, horz, draws, pos, steps);
      assert rr.end == Balanced ==> SomeWalkBalanced(w, h, vert, horz, steps) by {
        if rr.end == Balanced {
          BalancedRoundWitness(w, h, vert, horz, draws, pos, steps);
        }
      }
      FixAfter(w, h, vert, horz, draws, steps, rounds, rr)
  }

  /** The rest of fix once a pass of its outer loop has ended with rr: stop
      unless the pass flipped a slot. */
  function FixAfter(w: int, h: int, vert: seq<State>, horz: seq<State>,
                    draws: nat -> nat, steps: nat, rounds: nat, rr: RoundResult): (r: FixResult)
    requires FlatValid(w, h, vert, horz) && rounds > 0
    requires |rr.vert| == |vert| && |rr.horz| == |horz|
    requires rr.end != Flipped ==> rr.vert == vert && rr.horz == horz
    requires rr.end == Balanced ==> SomeWalkBalanced(w, h, vert, horz, steps)
    ensures FlatValid(w, h, r.vert, r.horz)
    ensures r.outcome == Fixed ==> SomeWalkBalanced(w, h, r.vert, r.horz, steps)
    decreases rounds, 0
  {
    match rr.end
    case Balanced => FixResult(Fixed, vert, horz, rr.pos)
    case NoneToFlip => FixResult(NoCandidate, vert, horz, rr.pos)
    case WalkTooLong => FixResult(OutOfFuel, vert, horz, rr.pos)
    case Flipped => FixRun(w, h, rr.vert, rr.horz, draws, rr.pos, steps, FewerRounds(rounds))
  }

  /** The pass budget once a pass has flipped a slot. */
  function FewerRounds(rounds: nat): nat
    requires rounds > 0
  {
    rounds - 1
  }

  /** A pass of fix that flipped a slot leaves the rest of fix to run on
      the flipped arrays with one pass fewer. */
  lemma FixRunAfterFlip(w: int, h: int, vert: seq<State>, horz: seq<State>, draws: nat -> nat,
                        pos: nat, steps: nat, rounds: nat, vert': seq<State>, horz': seq<State>, pos': nat)
    requires FlatValid(w, h, vert, horz) && rounds > 0
    requires FixRound(w, h, vert, horz, draws, pos, steps) == RoundResult(Flipped, vert', horz', pos')
    ensures FlatValid(w, h, vert', horz')
    ensures FixRun(w, h, vert, horz, draws, pos, steps, rounds) ==
            FixRun(w, h, vert', horz', draws, pos', steps, FewerRounds(rounds))
  {
    var rr := FixRound(w, h, vert, horz, draws, pos, steps);
    assert FixRun(w, h, vert, horz, draws, pos, steps, rounds) ==
           FixAfter(w, h, vert, horz, draws, steps, rounds, rr);
  }

  // ---------------------------------------------------------------------------
  // What fix promises

  /** u is s with exactly position m flipped, and m's counter in t is 1. */
  predicate FlipsOneAt(s: seq<State>, u: seq<State>, t: seq<int>, m: int) {
    0 <= m < |s| == |u| == |t| && t[m] == 1 && u[m] == Flip(s[m]) && u[m] != s[m] &&
    forall n :: 0 <= n < |s| && n != m ==> u[n] == s[n]
  }

  /** The ends of a round that flip nothing: a balanced walk, or one with
      no counter equal to 1; no draw is used. */
  lemma AfterWalkBalanced(w: int, h: int, vert: seq<State>, horz: seq<State>, cs: seq<Cursor>,
                          draws: nat -> nat, pos: nat)
    requires FlatValid(w, h, vert, horz) && StraightCount(cs) == 2 * (w * h - 1)
    ensures AfterWalk(w, h, vert, horz, cs, draws, pos) == RoundResult(Balanced, vert, horz, pos)
  {
  }

  lemma AfterWalkStuck(w: int, h: int, vert: seq<State>, horz: seq<State>, cs: seq<Cursor>,
                       draws: nat -> nat, pos: nat)
    requires FlatValid(w, h, vert, horz) && StraightCount(cs) != 2 * (w * h - 1)
    requires Ones(VertTally(FromFlat(w, h, vert, horz), cs)) +
             Ones(HorzTally(FromFlat(w, h, vert, horz), cs)) == 0
    ensures AfterWalk(w, h, vert, horz, cs, draws, pos) == RoundResult(NoneToFlip, vert, horz, pos)
  {
  }

  /** The flipping end of a round, with the tallies, their count of 1s and
      the draw named: the r-th slot with counter 1 is flipped, `_vert`
      before `_horz`, and one draw is used. */
  lemma AfterWalkFlipped(w: int, h: int, vert: seq<State>, horz: seq<State>, cs: seq<Cursor>,
                         draws: nat -> nat, pos: nat, tv: seq<int>, th: seq<int>, r: int)
    requires FlatValid(w, h, vert, horz) && StraightCount(cs) != 2 * (w * h - 1)
    requires tv == VertTally(FromFlat(w, h, vert, horz), cs)
    requires th == HorzTally(FromFlat(w, h, vert, horz), cs)
    requires Ones(tv) + Ones(th) != 0 && r == RandMod(draws(pos), Ones(tv) + Ones(th))
    ensures AfterWalk(w, h, vert, horz, cs, draws, pos) ==
            RoundResult(Flipped, FlipNth(vert, tv, r), FlipNth(horz, th, r - Ones(tv)), pos + 1)
  {
  }

  /** A round that flips flips exactly one slot, in `_vert` or in `_horz`,
      and that slot's counter is 1: Wall becomes Passage, anything else Wall. */
  lemma AfterWalkFlipsOne(w: int, h: int, vert: seq<State>, horz: seq<State>, cs: seq<Cursor>,
                          draws: nat -> nat, pos: nat)
    requires FlatValid(w, h, vert, horz)
    requires AfterWalk(w, h, vert, horz, cs, draws, pos).end == Flipped
    ensures var g := FromFlat(w, h, vert, horz);
      var r := AfterWalk(w, h, vert, horz, cs, draws, pos);
      (r.horz == horz && exists m :: FlipsOneAt(vert, r.vert, VertTally(g, cs), m)) ||
      (r.vert == vert && exists m :: FlipsOneAt(horz, r.horz, HorzTally(g, cs), m))
  {
    var g := FromFlat(w, h, vert, horz);
    var tv := VertTally(g, cs);
    var th := HorzTally(g, cs);
    var count := Ones(tv) + Ones(th);
    var r := RandMod(draws(pos), count);
    if r < Ones(tv) {
      var m := FlipNthOne(vert, tv, r);
      FlipNthNone(horz, th, r - Ones(tv));
      assert FlipsOneAt(vert, FlipNth(vert, tv, r), tv, m);
    } else {
      var m := FlipNthOne(horz, th, r - Ones(tv));
      FlipNthNone(vert, tv, r);
      assert FlipsOneAt(horz, FlipNth(horz, th, r - Ones(tv)), th, m);
    }
  }

  /** The walk from (i, j) facing d finishes within `steps` calls of next()
      and makes 2*(w*h-1) moves. */
  predicate BalancedFrom(g: Grid, i: int, j: int, d: int, steps: nat)
    requires g.Valid()
  {
    InGrid(g, i, j) && 0 <= d < 4 && Walk(g, i, j, d, steps).Some? &&
    StraightCount(Walk(g, i, j, d, steps).value) == 2 * (g.w * g.h - 1)
  }

  /** Some walk along the walls of the arrays vert and horz finishes within
      `steps` calls of next() and makes 2*(w*h-1) moves. */
  ghost predicate SomeWalkBalanced(w: int, h: int, vert: seq<State>, horz: seq<State>, steps: nat) {
    FlatValid(w, h, vert, horz) &&
    exists i, j, d :: BalancedFrom(FromFlat(w, h, vert, horz), i, j, d, steps)
  }

  /** A round that ends Balanced started a walk that is balanced. */
  lemma BalancedRoundWitness(w: int, h: int, vert: seq<State>, horz: seq<State>,
                             draws: nat -> nat, pos: nat, steps: nat)
    requires FlatValid(w, h, vert, horz)
    requires FixRound(w, h, vert, horz, draws, pos, steps).end == Balanced
    ensures SomeWalkBalanced(w, h, vert, horz, steps)
  {
    var g := FromFlat(w, h, vert, horz);
    var s := RoundStart(g, draws, pos);
    FixRoundBalanced(w, h, vert, horz, draws, pos, steps);
    assert BalancedFrom(g, s.0, s.1, s.2, steps);
  }

  /** A round ends Balanced exactly when its walk is. */
  lemma FixRoundBalanced(w: int, h: int, vert: seq<State>, horz: seq<State>,
                         draws: nat -> nat, pos: nat, steps: nat)
    requires FlatValid(w, h, vert, horz)
    ensures var g := FromFlat(w, h, vert, horz);
      var s := RoundStart(g, draws, pos);
      FixRound(w, h, vert, horz, draws, pos, steps).end == Balanced <==>
      BalancedFrom(g, s.0, s.1, s.2, steps)
  {
  }
}
