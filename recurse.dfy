// Maze::_recurse and Maze::generateRecursive: randomized depth-first carving
// from (0, 0), as a function of the grid, the visited flags and the stream of
// rand() values, with the properties that make the result a perfect maze.
module MazeRecurse {
  import opened MazeGrid
  import opened MazeLayout
  import opened Random
  import opened MazePaths

  // ---------------------------------------------------------------------------
  // Visited flags: one per cell, cell (i, j) at i + w*j

  predicate VisOk(g: Grid, vis: seq<bool>) {
    g.Valid() && |vis| == g.w * g.h
  }

  predicate Seen(g: Grid, vis: seq<bool>, i: int, j: int)
    requires VisOk(g, vis) && InGrid(g, i, j)
  {
    vis[CellIndex(g.w, g.h, i, j)]
  }

  /** Maze::_notVisited: (i, j) lies in the grid and is not yet visited. */
  predicate NotVisited(g: Grid, vis: seq<bool>, i: int, j: int)
    requires VisOk(g, vis)
  {
    InGrid(g, i, j) && !Seen(g, vis, i, j)
  }

  /** `visited[i + _w*j] = true`. */
  function Mark(g: Grid, vis: seq<bool>, i: int, j: int): (r: seq<bool>)
    requires VisOk(g, vis) && InGrid(g, i, j)
    ensures |r| == |vis|
  {
    vis[CellIndex(g.w, g.h, i, j) := true]
  }

  /** Marking (i, j) sets its flag and no other. */
  lemma MarkSeen(g: Grid, vis: seq<bool>, i: int, j: int, a: int, b: int)
    requires VisOk(g, vis) && InGrid(g, i, j) && InGrid(g, a, b)
    ensures Seen(g, Mark(g, vis, i, j), a, b) <==> Seen(g, vis, a, b) || (a == i && b == j)
  {
    CellIndexInjective(g.w, g.h, i, j, a, b);
  }

  /** The number of cells not yet visited. */
  function Unvisited(vis: seq<bool>): (n: nat)
    ensures n <= |vis|
  {
    if vis == [] then 0 else (if vis[0] then 0 else 1) + Unvisited(vis[1..])
  }

  lemma {:induction false} MarkUnvisited(vis: seq<bool>, k: int)
    requires 0 <= k < |vis| && !vis[k]
    ensures Unvisited(vis[k := true]) == Unvisited(vis) - 1
  {
    if k > 0 {
      assert vis[k := true][1..] == vis[1..][k - 1 := true];
      MarkUnvisited(vis[1..], k - 1);
    } else {
      assert vis[k := true][1..] == vis[1..];
    }
  }

  lemma {:induction false} AllUnvisited(n: nat)
    ensures Unvisited(seq(n, _ => false)) == n
  {
    if n > 0 {
      assert seq(n, _ => false)[1..] == seq(n - 1, _ => false);
      AllUnvisited(n - 1);
    }
  }

  lemma {:induction false} NoneUnvisited(vis: seq<bool>)
    requires forall k :: 0 <= k < |vis| ==> vis[k]
    ensures Unvisited(vis) == 0
  {
    if vis != [] {
      assert forall k :: 0 <= k < |vis[1..]| ==> vis[1..][k] == vis[k + 1];
      NoneUnvisited(vis[1..]);
    }
  }

  /** Flags are only ever set, never cleared. */
  predicate Grows(a: seq<bool>, b: seq<bool>) {
    |a| == |b| && forall k :: 0 <= k < |a| && a[k] ==> b[k]
  }

  // ---------------------------------------------------------------------------
  // Choosing a side

  /** Side d of (i, j) is open and leads to a cell not yet visited: the test
      _recurse makes for each direction. */
  predicate Candidate(g: Grid, vis: seq<bool>, i: int, j: int, d: int)
    requires VisOk(g, vis) && InGrid(g, i, j) && 0 <= d < 4
  {
    !HasWall(g, i, j, d) && NotVisited(g, vis, StepI(i, d), StepJ(j, d))
  }

  /** The number of candidate sides among 0 .. n-1. */
  function CandidatesBelow(g: Grid, vis: seq<bool>, i: int, j: int, n: int): (c: nat)
    requires VisOk(g, vis) && InGrid(g, i, j) && 0 <= n <= 4
    ensures c <= n
  {
    if n == 0 then 0
    else CandidatesBelow(g, vis, i, j, n - 1) + (if Candidate(g, vis, i, j, n - 1) then 1 else 0)
  }

  /** The side _recurse takes when rand() % c is r: the candidate that has
      exactly r candidates before it, in the order east, south, west, north. */
  function Choose(g: Grid, vis: seq<bool>, i: int, j: int, r: int): (d: int)
    requires VisOk(g, vis) && InGrid(g, i, j) && 0 <= r < CandidatesBelow(g, vis, i, j, 4)
    ensures 0 <= d < 4 && Candidate(g, vis, i, j, d) && CandidatesBelow(g, vis, i, j, d) == r
  {
    ChooseFrom(g, vis, i, j, 0, r)
  }

  function ChooseFrom(g: Grid, vis: seq<bool>, i: int, j: int, d0: int, r: int): (d: int)
    requires VisOk(g, vis) && InGrid(g, i, j) && 0 <= d0 < 4 && 0 <= r
    requires CandidatesBelow(g, vis, i, j, d0) + r < CandidatesBelow(g, vis, i, j, 4)
    ensures d0 <= d < 4 && Candidate(g, vis, i, j, d)
    ensures CandidatesBelow(g, vis, i, j, d) == CandidatesBelow(g, vis, i, j, d0) + r
    decreases 4 - d0
  {
    if Candidate(g, vis, i, j, d0) then
      if r == 0 then d0 else ChooseFrom(g, vis, i, j, d0 + 1, r - 1)
    else ChooseFrom(g, vis, i, j, d0 + 1, r)
  }

  /** Candidates are counted in order, so the chosen one is unique: a
      candidate with r candidates before it is the one Choose returns. */
  lemma ChooseUnique(g: Grid, vis: seq<bool>, i: int, j: int, r: int, e: int)
    requires VisOk(g, vis) && InGrid(g, i, j) && 0 <= r < CandidatesBelow(g, vis, i, j, 4)
    requires 0 <= e < 4 && Candidate(g, vis, i, j, e) && CandidatesBelow(g, vis, i, j, e) == r
    ensures Choose(g, vis, i, j, r) == e
  {
    var d := Choose(g, vis, i, j, r);
    if d < e {
      CandidatesGrow(g, vis, i, j, d + 1, e);
    } else if e < d {
      CandidatesGrow(g, vis, i, j, e + 1, d);
    }
  }

  lemma {:induction false} CandidatesGrow(g: Grid, vis: seq<bool>, i: int, j: int, m: int, n: int)
    requires VisOk(g, vis) && InGrid(g, i, j) && 0 <= m <= n <= 4
    ensures CandidatesBelow(g, vis, i, j, m) <= CandidatesBelow(g, vis, i, j, n)
    decreases n
  {
    if m < n {
      CandidatesGrow(g, vis, i, j, m, n - 1);
    }
  }

  /** With no candidate left, every side is a wall or leads to a visited cell. */
  lemma NoCandidate(g: Grid, vis: seq<bool>, i: int, j: int, d: int)
    requires VisOk(g, vis) && InGrid(g, i, j) && CandidatesBelow(g, vis, i, j, 4) == 0 && 0 <= d < 4
    ensures !Candidate(g, vis, i, j, d)
  {
    CandidatesGrow(g, vis, i, j, d + 1, 4);
  }

  /** Opens side d of (i, j): right, bottom, left or top(i, j) = s_passage. */
  function OpenSide(g: Grid, i: int, j: int, d: int): (r: Grid)
    requires g.Valid() && InGrid(g, i, j) && 0 <= d < 4 && InGrid(g, StepI(i, d), StepJ(j, d))
    ensures r.Valid() && r.w == g.w && r.h == g.h
    ensures Joined(r, (i, j), (StepI(i, d), StepJ(j, d)))
  {
    if d == 0 then SetRight(g, i, j, Passage)
    else if d == 1 then SetBottom(g, i, j, Passage)
    else if d == 2 then SetLeft(g, i, j, Passage)
    else SetTop(g, i, j, Passage)
  }

  // ---------------------------------------------------------------------------
  // _recurse

  /** The state _recurse works on: the grid, the visited flags, and the
      position of the next unused draw. */
  datatype Carve = Carve(g: Grid, vis: seq<bool>, pos: nat)

  /** _recurse(i, j, visited) applied to g and vis, reading rand() as
      draws(pos), draws(pos+1), ...: mark (i, j), then carve from it until
      no candidate is left.  Each call visits at least its own cell, which is
      what makes the recursion end. */
  function RecurseRun(g: Grid, vis: seq<bool>, i: int, j: int, draws: nat -> nat, pos: nat): (r: Carve)
    requires VisOk(g, vis) && NotVisited(g, vis, i, j)
    ensures VisOk(r.g, r.vis) && r.g.w == g.w && r.g.h == g.h && r.pos >= pos
    ensures Grows(vis, r.vis) && Seen(r.g, r.vis, i, j) && Unvisited(r.vis) < Unvisited(vis)
    decreases Unvisited(vis), 0
  {
    MarkUnvisited(vis, CellIndex(g.w, g.h, i, j));
    RecurseLoop(g, Mark(g, vis, i, j), i, j, draws, pos)
  }

  /** The `for (;;)` loop of _recurse at (i, j): count the candidates, stop
      when there is none, otherwise open the side chosen by rand() % c and
      recurse into the cell behind it. */
  function RecurseLoop(g: Grid, vis: seq<bool>, i: int, j: int, draws: nat -> nat, pos: nat): (r: Carve)
    requires VisOk(g, vis) && InGrid(g, i, j)
    ensures VisOk(r.g, r.vis) && r.g.w == g.w && r.g.h == g.h && r.pos >= pos
    ensures Grows(vis, r.vis) && Unvisited(r.vis) <= Unvisited(vis)
    decreases Unvisited(vis), 1
  {
    var c := CandidatesBelow(g, vis, i, j, 4);
    if c == 0 then Carve(g, vis, pos)
    else
      var d := Choose(g, vis, i, j, RandMod(draws(pos), c));
      var s := RecurseRun(OpenSide(g, i, j, d), vis, StepI(i, d), StepJ(j, d), draws, pos + 1);
      RecurseLoop(s.g, s.vis, i, j, draws, s.pos)
  }

  /** One turn of the loop, with every intermediate value named. */
  lemma LoopStep(g: Grid, vis: seq<bool>, i: int, j: int, draws: nat -> nat, pos: nat,
                 c: int, d: int, ni: int, nj: int, g1: Grid, q: nat, s: Carve)
    requires VisOk(g, vis) && InGrid(g, i, j)
    requires c == CandidatesBelow(g, vis, i, j, 4) && c > 0
    requires d == Choose(g, vis, i, j, RandMod(draws(pos), c))
    requires ni == StepI(i, d) && nj == StepJ(j, d) && g1 == OpenSide(g, i, j, d) && q == pos + 1
    requires s == RecurseRun(g1, vis, ni, nj, draws, q)
    ensures RecurseLoop(g, vis, i, j, draws, pos) == RecurseLoop(s.g, s.vis, i, j, draws, s.pos)
  {
  }

  // ---------------------------------------------------------------------------
  // _recurse only opens walls that are not walls

  /** Every slot of g2 is the slot of g, or a Passage where g had no Wall. */
  ghost predicate OnlyOpens(g: Grid, g2: Grid) {
    g.Valid() && g2.Valid() && g2.w == g.w && g2.h == g.h &&
    (forall a, b :: 0 <= a < g.w - 1 && 0 <= b < g.h ==>
       Right(g2, a, b) == Right(g, a, b) || (Right(g, a, b) != Wall && Right(g2, a, b) == Passage)) &&
    (forall a, b :: 0 <= a < g.w && 0 <= b < g.h - 1 ==>
       Bottom(g2, a, b) == Bottom(g, a, b) || (Bottom(g, a, b) != Wall && Bottom(g2, a, b) == Passage))
  }

  lemma OpenSideOpens(g: Grid, vis: seq<bool>, i: int, j: int, d: int)
    requires VisOk(g, vis) && InGrid(g, i, j) && 0 <= d < 4 && Candidate(g, vis, i, j, d)
    ensures OnlyOpens(g, OpenSide(g, i, j, d))
  {
  }

  lemma {:induction false} RunOpens(g: Grid, vis: seq<bool>, i: int, j: int, draws: nat -> nat, pos: nat)
    requires VisOk(g, vis) && NotVisited(g, vis, i, j)
    ensures OnlyOpens(g, RecurseRun(g, vis, i, j, draws, pos).g)
    decreases Unvisited(vis), 0
  {
    MarkUnvisited(vis, CellIndex(g.w, g.h, i, j));
    LoopOpens(g, Mark(g, vis, i, j), i, j, draws, pos);
  }

  lemma {:induction false} LoopOpens(g: Grid, vis: seq<bool>, i: int, j: int, draws: nat -> nat, pos: nat)
    requires VisOk(g, vis) && InGrid(g, i, j)
    ensures OnlyOpens(g, RecurseLoop(g, vis, i, j, draws, pos).g)
    decreases Unvisited(vis), 1
  {
    var c := CandidatesBelow(g, vis, i, j, 4);
    if c > 0 {
      var d := Choose(g, vis, i, j, RandMod(draws(pos), c));
      var ni, nj := StepI(i, d), StepJ(j, d);
      var g1 := OpenSide(g, i, j, d);
      var s := RecurseRun(g1, vis, ni, nj, draws, pos + 1);
      LoopStep(g, vis, i, j, draws, pos, c, d, ni, nj, g1, pos + 1, s);
      OpenSideOpens(g, vis, i, j, d);
      RunOpens(g1, vis, ni, nj, draws, pos + 1);
      LoopOpens(s.g, s.vis, i, j, draws, s.pos);
    }
  }

  // ---------------------------------------------------------------------------
  // Every visited cell is reachable from (0, 0)

  ghost predicate SeenReach(g: Grid, vis: seq<bool>)
    requires VisOk(g, vis)
  {
    forall a, b :: InGrid(g, a, b) && Seen(g, vis, a, b) ==> Reach(g, (0, 0), (a, b))
  }

  lemma OpenSideReach(g: Grid, vis: seq<bool>, i: int, j: int, d: int)
    requires VisOk(g, vis) && InGrid(g, i, j) && 0 <= d < 4 && Candidate(g, vis, i, j, d)
    requires SeenReach(g, vis) && Seen(g, vis, i, j)
    ensures SeenReach(OpenSide(g, i, j, d), vis)
    ensures Reach(OpenSide(g, i, j, d), (0, 0), (StepI(i, d), StepJ(j, d)))
  {
    var g1 := OpenSide(g, i, j, d);
    OpenSideOpens(g, vis, i, j, d);
    forall a, b | InGrid(g1, a, b) && Seen(g1, vis, a, b)
      ensures Reach(g1, (0, 0), (a, b))
    {
      ReachMono(g, g1, (0, 0), (a, b));
    }
    ReachJoined(g1, (i, j), (StepI(i, d), StepJ(j, d)));
    ReachTrans(g1, (0, 0), (i, j), (StepI(i, d), StepJ(j, d)));
  }

  lemma {:induction false} RunReach(g: Grid, vis: seq<bool>, i: int, j: int, draws: nat -> nat, pos: nat)
    requires VisOk(g, vis) && NotVisited(g, vis, i, j)
    requires SeenReach(g, vis) && Reach(g, (0, 0), (i, j))
    ensures var r := RecurseRun(g, vis, i, j, draws, pos); SeenReach(r.g, r.vis)
    decreases Unvisited(vis), 0
  {
    var m := Mark(g, vis, i, j);
    forall a, b | InGrid(g, a, b) && Seen(g, m, a, b)
      ensures Reach(g, (0, 0), (a, b))
    {
      MarkSeen(g, vis, i, j, a, b);
    }
    MarkUnvisited(vis, CellIndex(g.w, g.h, i, j));
    LoopReach(g, m, i, j, draws, pos);
  }

  lemma {:induction false} LoopReach(g: Grid, vis: seq<bool>, i: int, j: int, draws: nat -> nat, pos: nat)
    requires VisOk(g, vis) && InGrid(g, i, j) && Seen(g, vis, i, j) && SeenReach(g, vis)
    ensures var r := RecurseLoop(g, vis, i, j, draws, pos); SeenReach(r.g, r.vis)
    decreases Unvisited(vis), 1
  {
    var c := CandidatesBelow(g, vis, i, j, 4);
    if c > 0 {
      var d := Choose(g, vis, i, j, RandMod(draws(pos), c));
      var ni, nj := StepI(i, d), StepJ(j, d);
      var g1 := OpenSide(g, i, j, d);
      var s := RecurseRun(g1, vis, ni, nj, draws, pos + 1);
      LoopStep(g, vis, i, j, draws, pos, c, d, ni, nj, g1, pos + 1, s);
      OpenSideReach(g, vis, i, j, d);
      RunReach(g1, vis, ni, nj, draws, pos + 1);
      LoopReach(s.g, s.vis, i, j, draws, s.pos);
    }
  }

  // ---------------------------------------------------------------------------
  // On a fresh maze every opened slot was Undefined: one passage per cell
  // visited after the first

  /** No slot around (a, b) has been written. */
  predicate Untouched(g: Grid, a: int, b: int)
    requires g.Valid() && InGrid(g, a, b)
  {
    (a < g.w - 1 ==> Right(g, a, b) == Undefined) &&
    (b < g.h - 1 ==> Bottom(g, a, b) == Undefined) &&
    (a > 0 ==> Right(g, a - 1, b) == Undefined) &&
    (b > 0 ==> Bottom(g, a, b - 1) == Undefined)
  }

  /** Every cell not visited, except possibly (i, j), is untouched. */
  ghost predicate FreshExcept(g: Grid, vis: seq<bool>, i: int, j: int)
    requires VisOk(g, vis)
  {
    forall a, b :: InGrid(g, a, b) && !Seen(g, vis, a, b) && (a != i || b != j) ==> Untouched(g, a, b)
  }

  /** Writing right(i, j) leaves every cell other than (i, j) and (i+1, j)
      untouched if it was. */
  lemma SetRightUntouched(g: Grid, i: int, j: int, a: int, b: int)
    requires g.Valid() && 0 <= i < g.w - 1 && 0 <= j < g.h && InGrid(g, a, b) && Untouched(g, a, b)
    requires (a != i || b != j) && (a != i + 1 || b != j)
    ensures Untouched(SetRight(g, i, j, Passage), a, b)
  {
  }

  /** Writing bottom(i, j) leaves every cell other than (i, j) and (i, j+1)
      untouched if it was. */
  lemma SetBottomUntouched(g: Grid, i: int, j: int, a: int, b: int)
    requires g.Valid() && 0 <= i < g.w && 0 <= j < g.h - 1 && InGrid(g, a, b) && Untouched(g, a, b)
    requires (a != i || b != j) && (a != i || b != j + 1)
    ensures Untouched(SetBottom(g, i, j, Passage), a, b)
  {
  }

  /** Opening a side towards an unvisited cell touches only that cell and
      the visited one. */
  lemma OpenSideFresh(g: Grid, vis: seq<bool>, i: int, j: int, d: int)
    requires VisOk(g, vis) && InGrid(g, i, j) && 0 <= d < 4 && Candidate(g, vis, i, j, d)
    requires Seen(g, vis, i, j) && FreshExcept(g, vis, i, j)
    ensures FreshExcept(OpenSide(g, i, j, d), vis, StepI(i, d), StepJ(j, d))
  {
    var g1 := OpenSide(g, i, j, d);
    var ni, nj := StepI(i, d), StepJ(j, d);
    forall a, b | InGrid(g1, a, b) && !Seen(g1, vis, a, b) && (a != ni || b != nj)
      ensures Untouched(g1, a, b)
    {
      assert Untouched(g, a, b);
      if d == 0 {
        SetRightUntouched(g, i, j, a, b);
      } else if d == 1 {
        SetBottomUntouched(g, i, j, a, b);
      } else if d == 2 {
        SetRightUntouched(g, i - 1, j, a, b);
      } else {
        SetBottomUntouched(g, i, j - 1, a, b);
      }
    }
  }

  /** The side opened towards an untouched cell was Undefined, so the
      passages grow by one. */
  lemma OpenSideCount(g: Grid, vis: seq<bool>, i: int, j: int, d: int)
    requires VisOk(g, vis) && InGrid(g, i, j) && 0 <= d < 4 && Candidate(g, vis, i, j, d)
    requires Seen(g, vis, i, j) && FreshExcept(g, vis, i, j)
    ensures Passages(OpenSide(g, i, j, d)) == Passages(g) + 1
  {
    assert Untouched(g, StepI(i, d), StepJ(j, d));
    if d == 0 {
      OpenRightCount(g, i, j);
    } else if d == 1 {
      OpenBottomCount(g, i, j);
    } else if d == 2 {
      OpenRightCount(g, i - 1, j);
    } else {
      OpenBottomCount(g, i, j - 1);
    }
  }

  lemma {:induction false} RunCount(g: Grid, vis: seq<bool>, i: int, j: int, draws: nat -> nat, pos: nat)
    requires VisOk(g, vis) && NotVisited(g, vis, i, j) && FreshExcept(g, vis, i, j)
    ensures var r := RecurseRun(g, vis, i, j, draws, pos);
      FreshExcept(r.g, r.vis, i, j) &&
      Passages(r.g) + 1 == Passages(g) + Unvisited(vis) - Unvisited(r.vis)
    decreases Unvisited(vis), 0
  {
    var m := Mark(g, vis, i, j);
    forall a, b | InGrid(g, a, b) && !Seen(g, m, a, b)
      ensures !Seen(g, vis, a, b) && (a != i || b != j)
    {
      MarkSeen(g, vis, i, j, a, b);
    }
    MarkUnvisited(vis, CellIndex(g.w, g.h, i, j));
    LoopCount(g, m, i, j, draws, pos);
  }

  lemma {:induction false} LoopCount(g: Grid, vis: seq<bool>, i: int, j: int, draws: nat -> nat, pos: nat)
    requires VisOk(g, vis) && InGrid(g, i, j) && Seen(g, vis, i, j) && FreshExcept(g, vis, i, j)
    ensures var r := RecurseLoop(g, vis, i, j, draws, pos);
      FreshExcept(r.g, r.vis, i, j) &&
      Passages(r.g) == Passages(g) + Unvisited(vis) - Unvisited(r.vis)
    decreases Unvisited(vis), 1
  {
    var c := CandidatesBelow(g, vis, i, j, 4);
    if c > 0 {
      var d := Choose(g, vis, i, j, RandMod(draws(pos), c));
      var ni, nj := StepI(i, d), StepJ(j, d);
      var g1 := OpenSide(g, i, j, d);
      var s := RecurseRun(g1, vis, ni, nj, draws, pos + 1);
      LoopStep(g, vis, i, j, draws, pos, c, d, ni, nj, g1, pos + 1, s);
      OpenSideFresh(g, vis, i, j, d);
      OpenSideCount(g, vis, i, j, d);
      RunCount(g1, vis, ni, nj, draws, pos + 1);
      assert FreshExcept(s.g, s.vis, i, j);
      LoopCount(s.g, s.vis, i, j, draws, s.pos);
    }
  }

  // ---------------------------------------------------------------------------
  // With no Wall inside the grid, every cell visited ends up with all its
  // neighbours visited

  ghost predicate NoWall(g: Grid)
    requires g.Valid()
  {
    (forall a, b :: 0 <= a < g.w - 1 && 0 <= b < g.h ==> Right(g, a, b) != Wall) &&
    (forall a, b :: 0 <= a < g.w && 0 <= b < g.h - 1 ==> Bottom(g, a, b) != Wall)
  }

  /** All neighbours of (a, b) are visited. */
  predicate Closed(g: Grid, vis: seq<bool>, a: int, b: int)
    requires VisOk(g, vis) && InGrid(g, a, b)
  {
    (a + 1 < g.w ==> Seen(g, vis, a + 1, b)) &&
    (b + 1 < g.h ==> Seen(g, vis, a, b + 1)) &&
    (a > 0 ==> Seen(g, vis, a - 1, b)) &&
    (b > 0 ==> Seen(g, vis, a, b - 1))
  }

  /** Every cell visited in vis2 but not in vis is closed in vis2. */
  ghost predicate NewClosed(g: Grid, vis: seq<bool>, vis2: seq<bool>)
    requires VisOk(g, vis) && VisOk(g, vis2)
  {
    forall a, b :: InGrid(g, a, b) && Seen(g, vis2, a, b) && !Seen(g, vis, a, b) ==> Closed(g, vis2, a, b)
  }

  lemma LoopEndClosed(g: Grid, vis: seq<bool>, i: int, j: int)
    requires VisOk(g, vis) && InGrid(g, i, j) && NoWall(g) && CandidatesBelow(g, vis, i, j, 4) == 0
    ensures Closed(g, vis, i, j)
  {
    forall d | 0 <= d < 4
      ensures InGrid(g, StepI(i, d), StepJ(j, d)) ==> Seen(g, vis, StepI(i, d), StepJ(j, d))
    {
      NoCandidate(g, vis, i, j, d);
      HasWallIsWallSlot(g, i, j, d);
    }
    assert i + 1 < g.w ==> Seen(g, vis, StepI(i, 0), StepJ(j, 0));
    assert j + 1 < g.h ==> Seen(g, vis, StepI(i, 1), StepJ(j, 1));
    assert i > 0 ==> Seen(g, vis, StepI(i, 2), StepJ(j, 2));
    assert j > 0 ==> Seen(g, vis, StepI(i, 3), StepJ(j, 3));
  }

  lemma {:induction false} RunClosed(g: Grid, vis: seq<bool>, i: int, j: int, draws: nat -> nat, pos: nat)
    requires VisOk(g, vis) && NotVisited(g, vis, i, j) && NoWall(g)
    ensures var r := RecurseRun(g, vis, i, j, draws, pos); NewClosed(g, vis, r.vis)
    decreases Unvisited(vis), 0
  {
    var m := Mark(g, vis, i, j);
    var r := RecurseRun(g, vis, i, j, draws, pos);
    MarkUnvisited(vis, CellIndex(g.w, g.h, i, j));
    LoopClosed(g, m, i, j, draws, pos);
    forall a, b | InGrid(g, a, b) && Seen(g, r.vis, a, b) && !Seen(g, vis, a, b)
      ensures Closed(g, r.vis, a, b)
    {
      MarkSeen(g, vis, i, j, a, b);
    }
  }

  lemma {:induction false} LoopClosed(g: Grid, vis: seq<bool>, i: int, j: int, draws: nat -> nat, pos: nat)
    requires VisOk(g, vis) && InGrid(g, i, j) && NoWall(g)
    ensures var r := RecurseLoop(g, vis, i, j, draws, pos);
      NewClosed(g, vis, r.vis) && Closed(g, r.vis, i, j)
    decreases Unvisited(vis), 1
  {
    var c := CandidatesBelow(g, vis, i, j, 4);
    if c == 0 {
      LoopEndClosed(g, vis, i, j);
    } else {
      var d := Choose(g, vis, i, j, RandMod(draws(pos), c));
      var ni, nj := StepI(i, d), StepJ(j, d);
      var g1 := OpenSide(g, i, j, d);
      var s := RecurseRun(g1, vis, ni, nj, draws, pos + 1);
      var r := RecurseLoop(g, vis, i, j, draws, pos);
      LoopStep(g, vis, i, j, draws, pos, c, d, ni, nj, g1, pos + 1, s);
      OpenSideOpens(g, vis, i, j, d);
      OnlyOpensNoWall(g, g1);
      RunOpens(g1, vis, ni, nj, draws, pos + 1);
      OnlyOpensNoWall(g1, s.g);
      RunClosed(g1, vis, ni, nj, draws, pos + 1);
      LoopClosed(s.g, s.vis, i, j, draws, s.pos);
      ClosedCompose(g, g1, s.g, vis, s.vis, r.vis, i, j);
    }
  }

  lemma OnlyOpensNoWall(g: Grid, g2: Grid)
    requires OnlyOpens(g, g2) && NoWall(g)
    ensures NoWall(g2)
  {
  }

  /** The cells a call visits are closed when it returns, and so are those
      its caller visits afterwards. */
  lemma ClosedCompose(g: Grid, g1: Grid, g2: Grid, v0: seq<bool>, v1: seq<bool>, v2: seq<bool>, i: int, j: int)
    requires VisOk(g, v0) && VisOk(g, v1) && VisOk(g, v2) && InGrid(g, i, j)
    requires g1.Valid() && g2.Valid() && g1.w == g.w && g1.h == g.h && g2.w == g.w && g2.h == g.h
    requires Grows(v1, v2) && NewClosed(g1, v0, v1) && NewClosed(g2, v1, v2) && Closed(g2, v2, i, j)
    ensures NewClosed(g, v0, v2) && Closed(g, v2, i, j)
  {
    forall a, b | InGrid(g, a, b) && Seen(g, v2, a, b) && !Seen(g, v0, a, b)
      ensures Closed(g, v2, a, b)
    {
      if Seen(g, v1, a, b) {
        assert Closed(g1, v1, a, b);
      } else {
        assert Closed(g2, v2, a, b);
      }
    }
  }

  /** If (0, 0) is visited and every visited cell is closed, every cell is
      visited: walk along row 0, then down each column. */
  lemma AllSeen(g: Grid, vis: seq<bool>)
    requires VisOk(g, vis) && Seen(g, vis, 0, 0)
    requires forall a, b :: InGrid(g, a, b) && Seen(g, vis, a, b) ==> Closed(g, vis, a, b)
    ensures forall a, b :: InGrid(g, a, b) ==> Seen(g, vis, a, b)
  {
    forall a, b | InGrid(g, a, b)
      ensures Seen(g, vis, a, b)
    {
      AllSeenAt(g, vis, a, b);
    }
  }

  lemma {:induction false} AllSeenAt(g: Grid, vis: seq<bool>, a: int, b: int)
    requires VisOk(g, vis) && Seen(g, vis, 0, 0) && InGrid(g, a, b)
    requires forall a, b :: InGrid(g, a, b) && Seen(g, vis, a, b) ==> Closed(g, vis, a, b)
    ensures Seen(g, vis, a, b)
    decreases a + b
  {
    if b > 0 {
      AllSeenAt(g, vis, a, b - 1);
      assert Closed(g, vis, a, b - 1);
    } else if a > 0 {
      AllSeenAt(g, vis, a - 1, b);
      assert Closed(g, vis, a - 1, b);
    }
  }

  // ---------------------------------------------------------------------------
  // generateRecursive

  /** Maze::generateRecursive: all flags false, _recurse(0, 0), then
      _undefinedToWall; also the position of the next unused draw. */
  function GenerateRecursiveRun(g: Grid, draws: nat -> nat, pos: nat): (r: (Grid, nat))
    requires g.Valid()
    ensures r.0.Valid() && r.0.w == g.w && r.0.h == g.h && r.1 >= pos
  {
    var vis := seq(g.w * g.h, _ => false);
    var s := RecurseRun(g, vis, 0, 0, draws, pos);
    ResolveGridDefines(s.g);
    (ResolveGrid(s.g), s.pos)
  }

  /** On a fresh maze _recurse(0, 0) visits every cell. */
  lemma RecurseVisitsAll(g: Grid, draws: nat -> nat, pos: nat)
    requires g.Valid() && AllUndefined(g)
    ensures var s := RecurseRun(g, seq(g.w * g.h, _ => false), 0, 0, draws, pos);
      forall a, b :: InGrid(g, a, b) ==> Seen(g, s.vis, a, b)
  {
    var vis := seq(g.w * g.h, _ => false);
    var s := RecurseRun(g, vis, 0, 0, draws, pos);
    RunClosed(g, vis, 0, 0, draws, pos);
    forall a, b | InGrid(g, a, b) && Seen(g, s.vis, a, b)
      ensures Closed(g, s.vis, a, b)
    {
      assert !Seen(g, vis, a, b);
    }
    AllSeen(g, s.vis);
  }

  /** On a fresh maze _recurse(0, 0) opens w*h-1 passages. */
  lemma RecursePassages(g: Grid, draws: nat -> nat, pos: nat)
    requires g.Valid() && AllUndefined(g)
    ensures Passages(RecurseRun(g, seq(g.w * g.h, _ => false), 0, 0, draws, pos).g) == g.w * g.h - 1
  {
    var vis := seq(g.w * g.h, _ => false);
    var s := RecurseRun(g, vis, 0, 0, draws, pos);
    AllUndefinedCount(g);
    AllUnvisited(g.w * g.h);
    RunCount(g, vis, 0, 0, draws, pos);
    RecurseVisitsAll(g, draws, pos);
    forall k | 0 <= k < |s.vis|
      ensures s.vis[k]
    {
      var a, b := CellOf(g.w, g.h, k);
      assert Seen(g, s.vis, a, b);
    }
    NoneUnvisited(s.vis);
  }

  /** On a fresh maze every cell is reachable from (0, 0) once _recurse(0, 0)
      returns. */
  lemma RecurseConnects(g: Grid, draws: nat -> nat, pos: nat)
    requires g.Valid() && AllUndefined(g)
    ensures var s := RecurseRun(g, seq(g.w * g.h, _ => false), 0, 0, draws, pos);
      forall a, b :: InGrid(g, a, b) ==> Reach(s.g, (0, 0), (a, b))
  {
    var vis := seq(g.w * g.h, _ => false);
    var s := RecurseRun(g, vis, 0, 0, draws, pos);
    ReachRefl(g, (0, 0));
    RunReach(g, vis, 0, 0, draws, pos);
    RecurseVisitsAll(g, draws, pos);
    forall a, b | InGrid(g, a, b)
      ensures Reach(s.g, (0, 0), (a, b))
    {
      assert Seen(s.g, s.vis, a, b);
    }
  }

  /** On a fresh maze generateRecursive builds a perfect maze, whatever
      rand() returns: it visits every cell, opens one passage per cell after
      the first, and each opened passage leads on from a reachable cell. */
  lemma GenerateRecursivePerfect(g: Grid, draws: nat -> nat, pos: nat)
    requires g.Valid() && AllUndefined(g)
    ensures Perfect(GenerateRecursiveRun(g, draws, pos).0)
  {
    var s := RecurseRun(g, seq(g.w * g.h, _ => false), 0, 0, draws, pos).g;
    var r := GenerateRecursiveRun(g, draws, pos).0;
    assert r == ResolveGrid(s);
    RecursePassages(g, draws, pos);
    RecurseConnects(g, draws, pos);
    ResolveGridDefines(s);
    assert KeepsPassages(s, r);
    forall a, b | InGrid(r, a, b)
      ensures Reach(r, (0, 0), (a, b))
    {
      ReachMono(s, r, (0, 0), (a, b));
    }
  }
}
