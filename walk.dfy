// Maze::iterator, the resumable wall-following walk, as a pure state machine:
// one call of next() is one application of Step, and a caller's loop
// `for (iterator it(...); it.more(); it.next())` sees the cursors of Run.
module WallWalk {
  import opened MazeGrid

  datatype Option<T> = None | Some(value: T)

  /** The fields of an iterator: the start (si, sj, sd), the cursor (i, j, d),
      the turn code of the last step and the point `state` at which the next
      call resumes (0: the walk is over, more() is false). */
  datatype Cursor = Cursor(si: int, sj: int, sd: int, i: int, j: int, d: int, turn: int, state: int)

  /** What holds of the fields between two calls of next().  Each resume point
      carries the test that led to it: after turn -1 the left-hand side is
      open, after turn 2 it is a wall, after turn 0 the side just crossed is
      open and leads back into the grid, after turn 1 the side ahead is a wall. */
  predicate Inv(g: Grid, c: Cursor)
    requires g.Valid()
  {
    InGrid(g, c.si, c.sj) && 0 <= c.sd < 4 &&
    InGrid(g, c.i, c.j) && 0 <= c.d < 4 &&
    0 <= c.state <= 4 &&
    (c.state == 0 ==> c.turn == 0 || c.turn == 1) &&
    (c.state == 1 ==> c.turn == -1 && !HasWall(g, c.i, c.j, c.d - 1)) &&
    (c.state == 2 ==> c.turn == 2 && HasWall(g, c.i, c.j, c.d - 1)) &&
    (c.state == 3 ==> c.turn == 0 && InGrid(g, StepI(c.i, (c.d + 2) % 4), StepJ(c.j, (c.d + 2) % 4))
                      && !HasWall(g, c.i, c.j, (c.d + 2) % 4)) &&
    (c.state == 4 ==> c.turn == 1 && HasWall(g, c.i, c.j, c.d))
  }

  /** The fields as the iterator's constructor sets them, before its call of next(). */
  function Start(i: int, j: int, d: int): Cursor {
    Cursor(i, j, d, i, j, d, 0, 0)
  }

  predicate AtStart(c: Cursor) {
    c.i == c.si && c.j == c.sj && c.d == c.sd
  }

  /** Label L0, the head of the do-while body: report a left turn when the
      left-hand side is open, otherwise report touching the wall. */
  function Probe(g: Grid, c: Cursor): Cursor
    requires g.Valid() && InGrid(g, c.i, c.j)
  {
    if !HasWall(g, c.i, c.j, c.d - 1) then c.(turn := -1, state := 1)
    else c.(turn := 2, state := 2)
  }

  /** Label Lmove: one cell forward in direction d, reported as turn 0. */
  function Move(c: Cursor): Cursor {
    c.(i := StepI(c.i, c.d), j := StepJ(c.j, c.d), turn := 0, state := 3)
  }

  /** The do-while condition: go round again unless back at the start. */
  function LoopEnd(g: Grid, c: Cursor): Cursor
    requires g.Valid() && InGrid(g, c.i, c.j)
  {
    if !AtStart(c) then Probe(g, c) else c.(state := 0)
  }

  /** A move through an open side lands inside the grid with that side,
      seen from the new cell, open behind it. */
  lemma MoveKeepsInv(g: Grid, c: Cursor)
    requires g.Valid() && InGrid(g, c.si, c.sj) && 0 <= c.sd < 4
    requires InGrid(g, c.i, c.j) && 0 <= c.d < 4 && !HasWall(g, c.i, c.j, c.d)
    ensures Inv(g, Move(c))
  {
    HasWallIsWallSlot(g, c.i, c.j, c.d);
    EdgeShared(g, c.i, c.j, c.d);
  }

  /** One call of iterator::next(), resuming at the label `state` names. */
  function Step(g: Grid, c: Cursor): (r: Cursor)
    requires g.Valid() && Inv(g, c)
    ensures Inv(g, r)
    ensures r.si == c.si && r.sj == c.sj && r.sd == c.sd
  {
    if c.state == 1 then
      var c1 := c.(d := (c.d + 3) % 4);
      HasWallMod4(g, c.i, c.j, c.d - 1);
      MoveKeepsInv(g, c1);
      Move(c1)
    else if c.state == 2 then
      if !HasWall(g, c.i, c.j, c.d) then
        MoveKeepsInv(g, c);
        Move(c)
      else c.(turn := 1, state := 4)
    else if c.state == 3 then LoopEnd(g, c)
    else if c.state == 4 then LoopEnd(g, c.(d := (c.d + 1) % 4))
    else Probe(g, c)
  }

  /** After every call of next() the direction is in 0..3, the turn code in
      {-1, 0, 1, 2} and the cursor inside the grid. */
  lemma StepInRange(g: Grid, c: Cursor)
    requires g.Valid() && Inv(g, c)
    ensures var r := Step(g, c);
      0 <= r.d < 4 && r.turn in {-1, 0, 1, 2} && InGrid(g, r.i, r.j)
  {
  }

  /** The cursor changes cell only in the call that reports turn 0, and then
      moves one cell in its new direction, through a side where _hasWall was
      false. */
  lemma StepMovesThroughOpenSide(g: Grid, c: Cursor)
    requires g.Valid() && Inv(g, c)
    requires var r := Step(g, c); r.i != c.i || r.j != c.j
    ensures var r := Step(g, c);
      r.turn == 0 && r.state == 3 &&
      r.i == StepI(c.i, r.d) && r.j == StepJ(c.j, r.d) &&
      !HasWall(g, c.i, c.j, r.d)
  {
    HasWallMod4(g, c.i, c.j, c.d - 1);
  }

  /** What each turn code means for the call that follows it: after -1 the
      cursor rotates counter-clockwise and moves; after 1 it rotates clockwise
      without moving; after 2 it keeps its direction and moves exactly when the
      side ahead is open; after 0 it stays where it is. */
  lemma TurnMeaning(g: Grid, c: Cursor)
    requires g.Valid() && Inv(g, c)
    ensures var r := Step(g, c);
      (c.state == 1 ==> r.d == (c.d + 3) % 4 && r.i == StepI(c.i, r.d) && r.j == StepJ(c.j, r.d) && r.turn == 0) &&
      (c.state == 4 ==> r.d == (c.d + 1) % 4 && r.i == c.i && r.j == c.j) &&
      (c.state == 2 ==> r.d == c.d && (r.turn == 0 <==> !HasWall(g, c.i, c.j, c.d)) &&
                        (r.turn == 1 ==> r.i == c.i && r.j == c.j)) &&
      (c.state == 3 ==> r.d == c.d && r.i == c.i && r.j == c.j)
  {
  }

  /** Reporting -1 or 2 never moves or turns the cursor: those codes are
      announced before the action they precede. */
  lemma ReportsDoNotMove(g: Grid, c: Cursor)
    requires g.Valid() && Inv(g, c)
    requires Step(g, c).turn in {-1, 2}
    ensures var r := Step(g, c);
      r.i == c.i && r.j == c.j && (r.d == c.d || (c.state == 4 && r.d == (c.d + 1) % 4))
  {
  }

  /** more() becomes false exactly when a call that resumed after a move or a
      right turn leaves the cursor at its start. */
  lemma StepEndsAtStart(g: Grid, c: Cursor)
    requires g.Valid() && Inv(g, c)
    ensures var r := Step(g, c);
      r.state == 0 <==> (c.state == 3 || c.state == 4) && AtStart(r)
  {
  }

  // ---------------------------------------------------------------------------
  // A whole walk

  /** The cursors a caller's loop `for (; it.more(); it.next())` sees from c
      on, or None when more than `fuel` further calls of next() would be
      needed: the source gives no bound on the length of a walk. */
  function Run(g: Grid, c: Cursor, fuel: nat): Option<seq<Cursor>>
    requires g.Valid() && Inv(g, c)
    decreases fuel
  {
    if c.state == 0 then Some([])
    else if fuel == 0 then None
    else match Run(g, Step(g, c), fuel - 1)
      case None => None
      case Some(rest) => Some([c] + rest)
  }

  /** The walk of `iterator it(maze, i, j, d)`: its constructor already calls
      next() once. */
  function Walk(g: Grid, i: int, j: int, d: int, fuel: nat): Option<seq<Cursor>>
    requires g.Valid() && InGrid(g, i, j) && 0 <= d < 4
  {
    Run(g, Step(g, Start(i, j, d)), fuel)
  }

  /** Every cursor a walk shows its caller satisfies the iterator invariant
      (so lies in the grid and faces a direction in 0..3), keeps the start,
      and has more() true. */
  lemma {:induction false} RunCursorsValid(g: Grid, c: Cursor, fuel: nat)
    requires g.Valid() && Inv(g, c)
    ensures Run(g, c, fuel).Some? ==>
      forall k :: 0 <= k < |Run(g, c, fuel).value| ==>
        var x := Run(g, c, fuel).value[k];
        Inv(g, x) && x.state != 0 && x.si == c.si && x.sj == c.sj && x.sd == c.sd
    decreases fuel
  {
    if c.state != 0 && fuel > 0 {
      RunCursorsValid(g, Step(g, c), fuel - 1);
    }
  }

  /** More fuel never changes a walk that already finished. */
  lemma {:induction false} RunFuelMonotone(g: Grid, c: Cursor, fuel: nat, more: nat)
    requires g.Valid() && Inv(g, c)
    requires Run(g, c, fuel).Some? && fuel <= more
    ensures Run(g, c, more) == Run(g, c, fuel)
    decreases fuel
  {
    if c.state != 0 {
      RunFuelMonotone(g, Step(g, c), fuel - 1, more - 1);
    }
  }

  /** A finished walk with s in front. */
  function Prepend(s: seq<Cursor>, o: Option<seq<Cursor>>): Option<seq<Cursor>> {
    match o
    case None => None
    case Some(t) => Some(s + t)
  }

  lemma PrependNil(o: Option<seq<Cursor>>)
    ensures Prepend([], o) == o
  {
    match o
    case None =>
    case Some(t) => assert [] + t == t;
  }

  /** One call of next() moves the first cursor of the rest of a walk into
      the part already seen. */
  lemma RunUnfold(g: Grid, seen: seq<Cursor>, c: Cursor, next: Cursor, fuel: nat, rest: nat)
    requires g.Valid() && Inv(g, c) && c.state != 0 && fuel == rest + 1 && next == Step(g, c)
    ensures Prepend(seen, Run(g, c, fuel)) == Prepend(seen + [c], Run(g, next, rest))
  {
    match Run(g, next, rest)
    case None =>
    case Some(t) =>
      assert seen + ([c] + t) == (seen + [c]) + t;
  }

  /** The number of cursors reporting turn 0, i.e. of moves. */
  function StraightCount(s: seq<Cursor>): nat {
    if s == [] then 0 else (if s[0].turn == 0 then 1 else 0) + StraightCount(s[1..])
  }

  lemma {:induction false} StraightCountAppend(s: seq<Cursor>, t: seq<Cursor>)
    ensures StraightCount(s + t) == StraightCount(s) + StraightCount(t)
  {
    if s == [] {
      assert s + t == t;
    } else {
      assert (s + t)[1..] == s[1..] + t;
      StraightCountAppend(s[1..], t);
    }
  }

  lemma StraightCountSnoc(s: seq<Cursor>, c: Cursor)
    ensures StraightCount(s + [c]) == StraightCount(s) + (if c.turn == 0 then 1 else 0)
  {
    StraightCountAppend(s, [c]);
    assert [c][1..] == [];
  }

  /** Maze::check(): the walk from cell (0, 0) facing east makes exactly
      2*(w*h-1) moves, once along each side of each of the w*h-1 passages of
      a perfect maze.  None when the walk needs more than `fuel` steps. */
  function CheckWalk(g: Grid, fuel: nat): Option<bool>
    requires g.Valid()
  {
    match Walk(g, 0, 0, 0, fuel)
    case None => None
    case Some(s) => Some(StraightCount(s) == 2 * (g.w * g.h - 1))
  }

  /** How a caller's loop over a walk ends: out of fuel with the walk
      unfinished, or finished with `seen` as the cursors it showed. */
  lemma RunOutcome(g: Grid, walk: Option<seq<Cursor>>, seen: seq<Cursor>, c: Cursor, left: nat)
    requires g.Valid() && Inv(g, c)
    requires walk == Prepend(seen, Run(g, c, left))
    ensures c.state != 0 && left == 0 ==> walk == None
    ensures c.state == 0 ==> walk == Some(seen)
  {
    if c.state == 0 {
      assert seen + [] == seen;
    }
  }

  /** How a caller's loop over the walk from (0, 0) facing east settles
      CheckWalk: out of fuel with the walk unfinished, or finished with
      `seen` as the cursors it showed. */
  lemma CheckWalkOutcome(g: Grid, seen: seq<Cursor>, c: Cursor, fuel: nat, left: nat)
    requires g.Valid() && Inv(g, c)
    requires Walk(g, 0, 0, 0, fuel) == Prepend(seen, Run(g, c, left))
    ensures c.state != 0 && left == 0 ==> CheckWalk(g, fuel) == None
    ensures c.state == 0 ==> CheckWalk(g, fuel) == Some(StraightCount(seen) == 2 * (g.w * g.h - 1))
  {
    RunOutcome(g, Walk(g, 0, 0, 0, fuel), seen, c, left);
  }
}
