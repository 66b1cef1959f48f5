// class Maze: a w-by-h grid maze whose generators, repair and cross removal
// rewrite the slots of its two arrays in place, and its nested iterator.
module Mazes {
  import opened MazeGrid
  import opened MazeLayout
  import opened WallWalk
  import opened Random
  import opened MazePaths
  import opened MazeSplit
  import opened MazeRecurse
  import opened MazeFractal
  import opened MazeStamp
  import opened MazeFix
  import opened MazeCrosses

  /** The size of the first part of a cut of `size` cells (size >= 2) as
      _split draws it: no draw at all for size 2, one rand() otherwise. */
  method DrawFirstPart(size: int, rng: Rng) returns (part: int)
    requires size >= 2
    modifies rng
    ensures part == FirstPart(size, rng.draws(old(rng.pos)))
    ensures rng.pos == if size == 2 then old(rng.pos) else old(rng.pos) + 1
  {
    part := 1;
    if size != 2 {
      var x := rng.Next();
      if size <= 4 {
        part := 1 + x % (size - 1);
        RandModIsRem(x, size - 1);
      } else if size <= 6 {
        part := 2 + x % (size - 3);
        RandModIsRem(x, size - 3);
      } else {
        part := 3 + x % (size - 5);
        RandModIsRem(x, size - 5);
      }
    }
  }

  /** Maze::_left_range(x, size, ft) (n = _w) and Maze::_bottom_range
      (n = _h). */
  method DrawLowRange(n: int, x: int, size: int, ft: FracType, rng: Rng) returns (p: int)
    modifies rng
    ensures (p, rng.pos) == LowRange(n, x, size, ft, rng.draws, old(rng.pos))
  {
    var lo := if x < 0 then 0 else x;
    var hi := (if x + size < n then x + size else n) - 1;
    if ft == Reverse || ft == ReverseRandomOrientNoCross {
      return hi;
    }
    if ft != AllRandom {
      return lo;
    }
    var add := 0;
    if lo < hi {
      var y := rng.Next();
      add := y % (hi + 1 - lo);
      RandModIsRem(y, hi + 1 - lo);
    }
    p := lo + add;
  }

  /** Maze::_right_range(x, size, ft) (n = _w) and Maze::_top_range
      (n = _h). */
  method DrawHighRange(n: int, x: int, size: int, ft: FracType, rng: Rng) returns (p: int)
    modifies rng
    ensures (p, rng.pos) == HighRange(n, x, size, ft, rng.draws, old(rng.pos))
  {
    var hi := (if x > n then n else x) - 1;
    var lo := if x - size > 0 then x - size else 0;
    if ft == Reverse || ft == ReverseRandomOrientNoCross {
      return lo;
    }
    if ft != AllRandom {
      return hi;
    }
    var add := 0;
    if lo < hi {
      var y := rng.Next();
      add := y % (hi + 1 - lo);
      RandModIsRem(y, hi + 1 - lo);
    }
    p := lo + add;
  }

  /** The switch on the fractal type in _fractal that picks the side d. */
  method DrawOrientation(ft: FracType, avoid: int, rng: Rng) returns (d: int)
    modifies rng
    ensures (d, rng.pos) == Orientation(ft, avoid, rng.draws, old(rng.pos))
  {
    if ft == Regular || ft == Reverse {
      d := 1;
    } else if ft == RandomOrientNoCross {
      var y := rng.Next();
      RandModIsRem(y, 2);
      d := CRem(avoid + 3 + y % 2, 4);
    } else {
      var y := rng.Next();
      RandModIsRem(y, 4);
      d := y % 4;
    }
  }

  class Maze {
    const w: int
    const h: int
    const vert: array<State>
    const horz: array<State>

    ghost predicate Valid()
      reads this
    {
      w >= 1 && h >= 1 && vert.Length == (w - 1) * h && horz.Length == w * (h - 1) &&
      vert != horz
    }

    /** The current contents, as a value. */
    function Model(): (g: Grid)
      reads this, vert, horz
      requires Valid()
      ensures g.Valid() && g.w == w && g.h == h
    {
      FromFlat(w, h, vert[..], horz[..])
    }

    /** Maze(w, h): every slot starts Undefined. */
    constructor (w: int, h: int)
      requires w >= 1 && h >= 1
      ensures Valid() && this.w == w && this.h == h && fresh(vert) && fresh(horz)
      ensures AllUndefined(Model())
    {
      this.w := w;
      this.h := h;
      MulLeftMono(h, 0, w - 1);
      MulLeftMono(w, 0, h - 1);
      var v := new State[(w - 1) * h];
      var k := 0;
      while k < v.Length
        invariant 0 <= k <= v.Length
        invariant forall m :: 0 <= m < k ==> v[m] == Undefined
      {
        v[k] := Undefined;
        k := k + 1;
      }
      var z := new State[w * (h - 1)];
      k := 0;
      while k < z.Length
        invariant 0 <= k <= z.Length
        invariant forall m :: 0 <= m < k ==> z[m] == Undefined
        invariant forall m :: 0 <= m < v.Length ==> v[m] == Undefined
      {
        z[k] := Undefined;
        k := k + 1;
      }
      vert := v;
      horz := z;
      new;
      FromFlatUndefined(w, h, vert[..], horz[..]);
    }

    /** `right(i, j) = s`: the slot between (i, j) and (i+1, j), stored in
        `_vert` at h*i + j. */
    method WriteRight(i: int, j: int, s: State)
      requires Valid() && 0 <= i < w - 1 && 0 <= j < h
      modifies vert
      ensures Model() == SetRight(old(Model()), i, j, s)
    {
      vert[RightIndex(w, h, i, j)] := s;
      assert vert[..] == old(vert[..])[RightIndex(w, h, i, j) := s];
      FromFlatSetRight(w, h, old(vert[..]), horz[..], i, j, s);
    }

    /** `bottom(i, j) = s`: the slot between (i, j) and (i, j+1), stored in
        `_horz` at i + w*j. */
    method WriteBottom(i: int, j: int, s: State)
      requires Valid() && 0 <= i < w && 0 <= j < h - 1
      modifies horz
      ensures Model() == SetBottom(old(Model()), i, j, s)
    {
      horz[BottomIndex(w, h, i, j)] := s;
      assert horz[..] == old(horz[..])[BottomIndex(w, h, i, j) := s];
      FromFlatSetBottom(w, h, vert[..], old(horz[..]), i, j, s);
    }

    /** `top(i, j) = s`: the slot between (i, j-1) and (i, j), stored in
        `_horz` at i + w*(j-1). */
    method WriteTop(i: int, j: int, s: State)
      requires Valid() && 0 <= i < w && 1 <= j < h
      modifies horz
      ensures Model() == SetTop(old(Model()), i, j, s)
    {
      horz[BottomIndex(w, h, i, j - 1)] := s;
      assert horz[..] == old(horz[..])[BottomIndex(w, h, i, j - 1) := s];
      FromFlatSetBottom(w, h, vert[..], old(horz[..]), i, j - 1, s);
    }

    /** `left(i, j) = s`: the slot between (i-1, j) and (i, j), stored in
        `_vert` at h*(i-1) + j. */
    method WriteLeft(i: int, j: int, s: State)
      requires Valid() && 1 <= i < w && 0 <= j < h
      modifies vert
      ensures Model() == SetLeft(old(Model()), i, j, s)
    {
      vert[RightIndex(w, h, i - 1, j)] := s;
      assert vert[..] == old(vert[..])[RightIndex(w, h, i - 1, j) := s];
      FromFlatSetRight(w, h, old(vert[..]), horz[..], i - 1, j, s);
    }

    /** Maze::_nrWalls: the number of sides of (i, j) that _hasWall reports. */
    method NrWalls(i: int, j: int) returns (c: int)
      requires Valid() && InGrid(Model(), i, j)
      ensures c == |WallDirs(Model(), i, j)| && 0 <= c <= 4
    {
      var g := Model();
      c := 0;
      var d := 0;
      while d < 4
        invariant 0 <= d <= 4 && 0 <= c <= d
        invariant c == |set e | 0 <= e < d && HasWall(g, i, j, e)|
      {
        ghost var before := set e | 0 <= e < d && HasWall(g, i, j, e);
        if HasWall(g, i, j, d) {
          assert (set e | 0 <= e < d + 1 && HasWall(g, i, j, e)) == before + {d};
          c := c + 1;
        } else {
          assert (set e | 0 <= e < d + 1 && HasWall(g, i, j, e)) == before;
        }
        d := d + 1;
      }
      assert (set e | 0 <= e < 4 && HasWall(g, i, j, e)) == WallDirs(g, i, j);
    }

    /** Maze::_undefinedToWall: every Undefined slot becomes Wall. */
    method UndefinedToWall()
      requires Valid()
      modifies vert, horz
      ensures Model() == ResolveGrid(old(Model()))
    {
      var k := 0;
      while k < vert.Length
        invariant 0 <= k <= vert.Length
        invariant forall m :: 0 <= m < k ==> vert[m] == Resolve(old(vert[m]))
        invariant forall m :: k <= m < vert.Length ==> vert[m] == old(vert[m])
        invariant horz[..] == old(horz[..])
      {
        if vert[k] == Undefined {
          vert[k] := Wall;
        }
        k := k + 1;
      }
      k := 0;
      while k < horz.Length
        invariant 0 <= k <= horz.Length
        invariant forall m :: 0 <= m < k ==> horz[m] == Resolve(old(horz[m]))
        invariant forall m :: k <= m < horz.Length ==> horz[m] == old(horz[m])
        invariant forall m :: 0 <= m < vert.Length ==> vert[m] == Resolve(old(vert[m]))
      {
        if horz[k] == Undefined {
          horz[k] := Wall;
        }
        k := k + 1;
      }
      ResolveAllPointwise(old(vert[..]), vert[..]);
      ResolveAllPointwise(old(horz[..]), horz[..]);
      FromFlatResolve(w, h, old(vert[..]), old(horz[..]));
    }

    /** The four tests of one round of _recurse's loop: the number of open
        sides of (i, j) that lead to a cell not yet visited. */
    method CountCandidates(i: int, j: int, visited: array<bool>) returns (c: int)
      requires Valid() && visited.Length == w * h && 0 <= i < w && 0 <= j < h
      ensures c == CandidatesBelow(Model(), visited[..], i, j, 4)
    {
      var g, vis := Model(), visited[..];
      c := 0;
      if !HasWall(g, i, j, 0) && NotVisited(g, vis, i + 1, j) { c := c + 1; }
      assert c == CandidatesBelow(g, vis, i, j, 1);
      if !HasWall(g, i, j, 1) && NotVisited(g, vis, i, j + 1) { c := c + 1; }
      assert c == CandidatesBelow(g, vis, i, j, 2);
      if !HasWall(g, i, j, 2) && NotVisited(g, vis, i - 1, j) { c := c + 1; }
      assert c == CandidatesBelow(g, vis, i, j, 3);
      if !HasWall(g, i, j, 3) && NotVisited(g, vis, i, j - 1) { c := c + 1; }
    }

    /** The chain of tests `... && r-- == 0` of _recurse: the side whose test
        succeeds when r has counted down to 0. */
    method PickSide(i: int, j: int, visited: array<bool>, r: int) returns (d: int)
      requires Valid() && visited.Length == w * h && 0 <= i < w && 0 <= j < h
      requires 0 <= r < CandidatesBelow(Model(), visited[..], i, j, 4)
      ensures d == Choose(Model(), visited[..], i, j, r)
    {
      var g, vis := Model(), visited[..];
      var k := r;
      if Candidate(g, vis, i, j, 0) {
        if k == 0 { return 0; }
        k := k - 1;
      }
      if Candidate(g, vis, i, j, 1) {
        if k == 0 { return 1; }
        k := k - 1;
      }
      if Candidate(g, vis, i, j, 2) {
        if k == 0 { return 2; }
        k := k - 1;
      }
      // r < c leaves only the last test, and it succeeds.
      d := 3;
    }

    /** The branch of _recurse for side d: right, bottom, left or
        top(i, j) = s_passage. */
    method OpenTowards(i: int, j: int, d: int)
      requires Valid() && 0 <= i < w && 0 <= j < h && 0 <= d < 4
      requires 0 <= StepI(i, d) < w && 0 <= StepJ(j, d) < h
      modifies vert, horz
      ensures Model() == OpenSide(old(Model()), i, j, d)
    {
      if d == 0 {
        WriteRight(i, j, Passage);
      } else if d == 1 {
        WriteBottom(i, j, Passage);
      } else if d == 2 {
        WriteLeft(i, j, Passage);
      } else {
        WriteTop(i, j, Passage);
      }
    }

    /** Maze::_recurse(i, j, visited): mark (i, j), then, while some open side
        leads to a cell not yet visited, open the side rand() picks and
        recurse into the cell behind it. */
    method Recurse(i: int, j: int, visited: array<bool>, rng: Rng)
      requires Valid() && visited.Length == w * h && NotVisited(Model(), visited[..], i, j)
      modifies vert, horz, visited, rng
      ensures Carve(Model(), visited[..], rng.pos) ==
              RecurseRun(old(Model()), old(visited[..]), i, j, rng.draws, old(rng.pos))
      decreases Unvisited(visited[..])
    {
      ghost var g0, v0, p0 := Model(), visited[..], rng.pos;
      visited[CellIndex(w, h, i, j)] := true;
      assert visited[..] == Mark(g0, v0, i, j);
      MarkUnvisited(v0, CellIndex(w, h, i, j));
      while true
        invariant Valid() && visited.Length == w * h
        invariant RecurseLoop(Model(), visited[..], i, j, rng.draws, rng.pos) ==
                  RecurseRun(g0, v0, i, j, rng.draws, p0)
        invariant Unvisited(visited[..]) < Unvisited(v0)
        decreases Unvisited(visited[..])
      {
        var c := CountCandidates(i, j, visited);
        if c == 0 {
          break;
        }
        ghost var g, vis, pos := Model(), visited[..], rng.pos;
        var y := rng.Next();
        var r := y % c;
        RandModIsRem(y, c);
        var d := PickSide(i, j, visited, r);
        var ni, nj := StepI(i, d), StepJ(j, d);
        OpenTowards(i, j, d);
        ghost var g1, q := Model(), rng.pos;
        Recurse(ni, nj, visited, rng);
        LoopStep(g, vis, i, j, rng.draws, pos, c, d, ni, nj, g1, q, Carve(Model(), visited[..], rng.pos));
      }
    }

    /** Maze::generateRecursive(): all cells unvisited, _recurse(0, 0), then
        every slot still Undefined becomes Wall.  On a fresh maze the result
        is perfect. */
    method GenerateRecursive(rng: Rng)
      requires Valid()
      modifies vert, horz, rng
      ensures (Model(), rng.pos) == GenerateRecursiveRun(old(Model()), rng.draws, old(rng.pos))
      ensures old(AllUndefined(Model())) ==> Perfect(Model())
    {
      ghost var g := Model();
      MulLeftMono(w, 1, h);
      var visited := new bool[w * h];
      var k := 0;
      while k < w * h
        invariant 0 <= k <= w * h
        invariant forall m :: 0 <= m < k ==> !visited[m]
        modifies visited
      {
        visited[k] := false;
        k := k + 1;
      }
      assert visited[..] == seq(w * h, _ => false);
      Recurse(0, 0, visited, rng);
      UndefinedToWall();
      if AllUndefined(g) {
        GenerateRecursivePerfect(g, rng.draws, old(rng.pos));
      }
    }

    /** Maze::_split(i, j, sw, sh): recursive division of the sw-by-sh
        rectangle at (i, j), reading rand() from rng. */
    method Split(i: int, j: int, sw: int, sh: int, rng: Rng)
      requires Valid() && Rect(Model(), i, j, sw, sh)
      modifies vert, horz, rng
      ensures (Model(), rng.pos) == SplitRun(old(Model()), i, j, sw, sh, rng.draws, old(rng.pos))
      decreases sw + sh, 1
    {
      if sw == 1 {
        var k := 1;
        while k < sh
          invariant 1 <= k <= sh && rng.pos == old(rng.pos)
          invariant Model() == OpenColumn(old(Model()), i, j, k)
        {
          var jk := j + k;
          WriteTop(i, jk, Passage);
          OpenColumnStep(old(Model()), i, j, k, jk);
          k := k + 1;
        }
      } else if sh == 1 {
        var k := 1;
        while k < sw
          invariant 1 <= k <= sw && rng.pos == old(rng.pos)
          invariant Model() == OpenRow(old(Model()), i, j, k)
        {
          var ik := i + k;
          WriteLeft(ik, j, Passage);
          OpenRowStep(old(Model()), i, j, k, ik);
          k := k + 1;
        }
      } else if sw < sh {
        SplitRows(i, j, sw, sh, rng);
      } else {
        SplitColumns(i, j, sw, sh, rng);
      }
    }

    /** The sw < sh case of _split: a horizontal wall line after hr rows,
        opened at one random column, then both parts in turn. */
    method SplitRows(i: int, j: int, sw: int, sh: int, rng: Rng)
      requires Valid() && Rect(Model(), i, j, sw, sh) && sh >= 2
      modifies vert, horz, rng
      ensures (Model(), rng.pos) == CutRows(old(Model()), i, j, sw, sh, rng.draws, old(rng.pos))
      decreases sw + sh, 0
    {
      ghost var g, pos := Model(), rng.pos;
      var hr := DrawFirstPart(sh, rng);
      ghost var p1 := rng.pos;
      var y := rng.Next();
      var o := y % sw;
      RandModIsRem(y, sw);
      var io, jhr := i + o, j + hr;
      WriteTop(io, jhr, Passage);
      ghost var g1, q := Model(), rng.pos;
      Split(i, j, sw, hr, rng);
      ghost var r1 := (Model(), rng.pos);
      var sh2 := sh - hr;
      Split(i, jhr, sw, sh2, rng);
      CutRowsSteps(g, i, j, sw, sh, rng.draws, pos, hr, p1, o, io, jhr, g1, q, r1, sh2, (Model(), rng.pos));
    }

    /** The sw >= sh case of _split: a vertical wall line after wr columns,
        opened at one random row, then both parts in turn. */
    method SplitColumns(i: int, j: int, sw: int, sh: int, rng: Rng)
      requires Valid() && Rect(Model(), i, j, sw, sh) && sw >= 2
      modifies vert, horz, rng
      ensures (Model(), rng.pos) == CutColumns(old(Model()), i, j, sw, sh, rng.draws, old(rng.pos))
      decreases sw + sh, 0
    {
      ghost var g, pos := Model(), rng.pos;
      var wr := DrawFirstPart(sw, rng);
      ghost var p1 := rng.pos;
      var y := rng.Next();
      var o := y % sh;
      RandModIsRem(y, sh);
      var iwr, jo := i + wr, j + o;
      WriteLeft(iwr, jo, Passage);
      ghost var g1, q := Model(), rng.pos;
      Split(i, j, wr, sh, rng);
      ghost var r1 := (Model(), rng.pos);
      var sw2 := sw - wr;
      Split(iwr, j, sw2, sh, rng);
      CutColumnsSteps(g, i, j, sw, sh, rng.draws, pos, wr, p1, o, iwr, jo, g1, q, r1, sw2, (Model(), rng.pos));
    }

    /** Maze::generateSplit(): recursive division of the whole grid, then
        every slot still Undefined becomes Wall.  On a fresh maze the result
        is perfect. */
    method GenerateSplit(rng: Rng)
      requires Valid()
      modifies vert, horz, rng
      ensures (Model(), rng.pos) == GenerateSplitRun(old(Model()), rng.draws, old(rng.pos))
      ensures old(AllUndefined(Model())) ==> Perfect(Model())
    {
      ghost var g := Model();
      Split(0, 0, w, h, rng);
      UndefinedToWall();
      if AllUndefined(g) {
        GenerateSplitPerfect(g, rng.draws, old(rng.pos));
      }
    }

    /** `top(_left_range(i, size, ft), j) = s_passage`, or with _right_range
        when high. */
    method OpenLineTop(i: int, j: int, size: int, ft: FracType, high: bool, rng: Rng)
      requires Valid() && size >= 1 && 0 < j < h
      requires if high then 1 <= i && i - size < w else i < w && i + size > 0
      modifies horz, rng
      ensures (Model(), rng.pos) == LineTop(old(Model()), i, j, size, ft, high, rng.draws, old(rng.pos))
    {
      var x;
      if high {
        x := DrawHighRange(w, i, size, ft, rng);
      } else {
        x := DrawLowRange(w, i, size, ft, rng);
      }
      WriteTop(x, j, Passage);
    }

    /** `left(i, _bottom_range(j, size, ft)) = s_passage`, or with _top_range
        when high. */
    method OpenLineLeft(i: int, j: int, size: int, ft: FracType, high: bool, rng: Rng)
      requires Valid() && size >= 1 && 0 < i < w
      requires if high then 1 <= j && j - size < h else j < h && j + size > 0
      modifies vert, rng
      ensures (Model(), rng.pos) == LineLeft(old(Model()), i, j, size, ft, high, rng.draws, old(rng.pos))
    {
      var y;
      if high {
        y := DrawHighRange(h, j, size, ft, rng);
      } else {
        y := DrawLowRange(h, j, size, ft, rng);
      }
      WriteLeft(i, y, Passage);
    }

    /** The four conditional half-lines of _fractal around a centre inside
        the grid. */
    method OpenCross(i: int, j: int, size: int, ft: FracType, d: int, rng: Rng)
      requires Valid() && size >= 1 && 0 < i < w && 0 < j < h
      modifies vert, horz, rng
      ensures Lines(Model(), d, rng.pos) == CrossLines(old(Model()), i, j, size, ft, d, rng.draws, old(rng.pos))
    {
      if d != 0 {
        OpenLineTop(i, j, size, ft, false, rng);
      }
      if d != 1 {
        OpenLineLeft(i, j, size, ft, false, rng);
      }
      if d != 2 {
        OpenLineTop(i, j, size, ft, true, rng);
      }
      if d != 3 {
        OpenLineLeft(i, j, size, ft, true, rng);
      }
    }

    /** The part of _fractal(i, j, size, ft, avoid) before its recursive
        calls; d is the side left closed, -1 for a single line. */
    method OpenLines(i: int, j: int, size: int, ft: FracType, avoid: int, rng: Rng) returns (d: int)
      requires Valid() && size >= 1 && !Outside(Model(), i, j, size)
      modifies vert, horz, rng
      ensures Lines(Model(), d, rng.pos) == FractalLines(old(Model()), i, j, size, ft, avoid, rng.draws, old(rng.pos))
    {
      d := -1;
      if i <= 0 {
        if j > 0 && j < h {
          OpenLineTop(i, j, size, ft, false, rng);
        }
      } else if i >= w {
        if j > 0 && j < h {
          OpenLineTop(i, j, size, ft, true, rng);
        }
      } else if j <= 0 {
        OpenLineLeft(i, j, size, ft, false, rng);
      } else if j >= h {
        OpenLineLeft(i, j, size, ft, true, rng);
      } else {
        d := DrawOrientation(ft, avoid, rng);
        OpenCross(i, j, size, ft, d, rng);
      }
    }

    /** Maze::_fractal(i, j, size, ft, avoid): the lines of the square, then
        its four quarters. */
    method Fractal(i: int, j: int, size: int, ft: FracType, avoid: int, rng: Rng)
      requires Valid() && size >= 1
      modifies vert, horz, rng
      ensures (Model(), rng.pos) == FractalRun(old(Model()), i, j, size, ft, avoid, rng.draws, old(rng.pos))
      decreases size, 0
    {
      if i + size <= 0 || i - size >= w || j + size <= 0 || j - size >= h {
        return;
      }
      ghost var g0, p0 := Model(), rng.pos;
      var d := OpenLines(i, j, size, ft, avoid, rng);
      FractalStep(g0, i, j, size, ft, avoid, rng.draws, p0, Lines(Model(), d, rng.pos));
      if size == 1 {
        return;
      }
      FractalQuarters(i, j, size / 2, ft, avoid, d, rng);
    }

    /** The recursive calls at the end of _fractal, with half the size
        s, each told which corner to avoid given avoid and the closed side d. */
    method FractalQuarters(i: int, j: int, s: int, ft: FracType, avoid: int, d: int, rng: Rng)
      requires Valid() && s >= 1
      modifies vert, horz, rng
      ensures (Model(), rng.pos) == Quarters(old(Model()), old(rng.pos), i, j, s, ft, avoid, d, 0, rng.draws)
      decreases s, 2
    {
      ghost var g, pos := Model(), rng.pos;
      var qi, qj := i + s, j - s;
      var a := if avoid == 0 then 0 else if d == 1 || d == 2 then 2 else -1;
      Fractal(qi, qj, s, ft, a, rng);
      QuartersStep(g, pos, i, j, s, ft, avoid, d, 0, rng.draws, qi, qj, a, (Model(), rng.pos));
      g, pos := Model(), rng.pos;
      qi, qj := i + s, j + s;
      a := if avoid == 1 then 1 else if d == 2 || d == 3 then 3 else -1;
      Fractal(qi, qj, s, ft, a, rng);
      QuartersStep(g, pos, i, j, s, ft, avoid, d, 1, rng.draws, qi, qj, a, (Model(), rng.pos));
      FractalQuartersWest(i, j, s, ft, avoid, d, rng);
    }

    /** The last two of those calls, south-west and north-west. */
    method FractalQuartersWest(i: int, j: int, s: int, ft: FracType, avoid: int, d: int, rng: Rng)
      requires Valid() && s >= 1
      modifies vert, horz, rng
      ensures (Model(), rng.pos) == Quarters(old(Model()), old(rng.pos), i, j, s, ft, avoid, d, 2, rng.draws)
      decreases s, 1
    {
      ghost var g, pos := Model(), rng.pos;
      var qi, qj := i - s, j + s;
      var a := if avoid == 2 then 2 else if d == 3 || d == 0 then 0 else -1;
      Fractal(qi, qj, s, ft, a, rng);
      QuartersStep(g, pos, i, j, s, ft, avoid, d, 2, rng.draws, qi, qj, a, (Model(), rng.pos));
      g, pos := Model(), rng.pos;
      qi, qj := i - s, j - s;
      a := if avoid == 3 then 3 else if d == 0 || d == 1 then 1 else -1;
      Fractal(qi, qj, s, ft, a, rng);
      QuartersStep(g, pos, i, j, s, ft, avoid, d, 3, rng.draws, qi, qj, a, (Model(), rng.pos));
    }

    /** Maze::generateFractal(i, j, type): double size until the square
        around (i, j) reaches the borders (comparing j + size with _w - 1, as
        the source does), run _fractal, then every slot still Undefined
        becomes Wall. */
    method GenerateFractalAt(i: int, j: int, ft: FracType, rng: Rng)
      requires Valid()
      modifies vert, horz, rng
      ensures (Model(), rng.pos) == GenerateFractalRun(old(Model()), i, j, ft, rng.draws, old(rng.pos))
    {
      var size := 1;
      while i - size > 0 || i + size < w - 1 || j - size > 0 || j + size < w - 1
        invariant size >= 1 && CoverSize(w, i, j, size) == CoverSize(w, i, j, 1)
        decreases 2 * (Abs(i) + Abs(j) + Abs(w)) - size
      {
        size := size * 2;
      }
      Fractal(i, j, size, ft, -1, rng);
      UndefinedToWall();
    }

    /** Maze::generateFractal(type): generateFractal(_w/2, _h/2, type). */
    method GenerateFractal(ft: FracType, rng: Rng)
      requires Valid()
      modifies vert, horz, rng
      ensures (Model(), rng.pos) == GenerateFractalRun(old(Model()), w / 2, h / 2, ft, rng.draws, old(rng.pos))
    {
      GenerateFractalAt(w / 2, h / 2, ft, rng);
    }

    /** Maze::right(i, j) read from `_vert`. */
    function ReadRight(i: int, j: int): (s: State)
      reads this, vert, horz
      requires Valid() && 0 <= i < w - 1 && 0 <= j < h
      ensures s == Right(Model(), i, j)
    {
      FromFlatRight(w, h, vert[..], horz[..], i, j);
      vert[RightIndex(w, h, i, j)]
    }

    /** Maze::bottom(i, j) read from `_horz`. */
    function ReadBottom(i: int, j: int): (s: State)
      reads this, vert, horz
      requires Valid() && 0 <= i < w && 0 <= j < h - 1
      ensures s == Bottom(Model(), i, j)
    {
      FromFlatBottom(w, h, vert[..], horz[..], i, j);
      horz[BottomIndex(w, h, i, j)]
    }

    /** right(l, k) = Wall for every row k from t up to b. */
    method WallRightRun(l: int, t: int, b: int)
      requires Valid() && 0 <= l < w - 1 && 0 <= t <= b <= h
      modifies vert
      ensures forall a, c :: 0 <= a < w - 1 && 0 <= c < h ==>
        Right(Model(), a, c) == if a == l && t <= c < b then Wall else Right(old(Model()), a, c)
    {
      ghost var g0 := Model();
      var k := t;
      while k < b
        invariant t <= k <= b
        invariant forall a, c :: 0 <= a < w - 1 && 0 <= c < h ==>
          Right(Model(), a, c) == if a == l && t <= c < k then Wall else Right(g0, a, c)
      {
        ghost var m := Model();
        WriteRight(l, k, Wall);
        SetRightAt(m, l, k, Wall);
        k := k + 1;
      }
    }

    /** bottom(k, b) = Wall for every column k from l up to r. */
    method WallBottomRun(b: int, l: int, r: int)
      requires Valid() && 0 <= b < h - 1 && 0 <= l <= r <= w
      modifies horz
      ensures forall a, c :: 0 <= a < w && 0 <= c < h - 1 ==>
        Bottom(Model(), a, c) == if c == b && l <= a < r then Wall else Bottom(old(Model()), a, c)
    {
      ghost var g0 := Model();
      var k := l;
      while k < r
        invariant l <= k <= r
        invariant forall a, c :: 0 <= a < w && 0 <= c < h - 1 ==>
          Bottom(Model(), a, c) == if c == b && l <= a < k then Wall else Bottom(g0, a, c)
      {
        ghost var m := Model();
        WriteBottom(k, b, Wall);
        SetBottomAt(m, k, b, Wall);
        k := k + 1;
      }
    }

    /** The first pair of stamp's loops: every vertical wall of the pattern
        becomes a run of vertical walls in one column of the receiver. */
    method StampRightWalls(pattern: Maze)
      requires Valid() && pattern.Valid() && pattern.w <= w && pattern.h <= h
      requires pattern.vert != vert && pattern.horz != vert
      modifies vert
      ensures Model() == StampRights(old(Model()), pattern.Model())
    {
      ghost var g0 := Model();
      ghost var p := pattern.Model();
      var i := 0;
      while i < pattern.w - 1
        invariant 0 <= i <= pattern.w - 1 && pattern.Model() == p
        invariant forall a, b :: 0 <= a < w - 1 && 0 <= b < h ==>
          Right(Model(), a, b) == if RightStampedBefore(p, w, h, i, 0, a, b) then Wall else Right(g0, a, b)
      {
        var j := 0;
        while j < pattern.h
          invariant 0 <= j <= pattern.h && pattern.Model() == p
          invariant forall a, b :: 0 <= a < w - 1 && 0 <= b < h ==>
            Right(Model(), a, b) == if RightStampedBefore(p, w, h, i, j, a, b) then Wall else Right(g0, a, b)
        {
          if pattern.ReadRight(i, j) == Wall {
            var l := ((i + 1) * w) / pattern.w - 1;
            var t := (j * h) / pattern.h;
            var b := ((j + 1) * h) / pattern.h;
            StampDrawsRight(g0, p, i, j, l, t, b);
            WallRightRun(l, t, b);
          }
          RightBeforeNext(p, w, h, i, j);
          j := j + 1;
        }
        RightBeforeWrap(p, w, h, i);
        i := i + 1;
      }
      GridExt(StampRights(g0, p), Model());
    }

    /** The second pair of stamp's loops: every horizontal wall of the
        pattern becomes a run of horizontal walls in one row of the receiver. */
    method StampBottomWalls(pattern: Maze)
      requires Valid() && pattern.Valid() && pattern.w <= w && pattern.h <= h
      requires pattern.vert != horz && pattern.horz != horz
      modifies horz
      ensures Model() == StampBottoms(old(Model()), pattern.Model())
    {
      ghost var g0 := Model();
      ghost var p := pattern.Model();
      var i := 0;
      while i < pattern.w
        invariant 0 <= i <= pattern.w && pattern.Model() == p
        invariant forall a, b :: 0 <= a < w && 0 <= b < h - 1 ==>
          Bottom(Model(), a, b) == if BottomStampedBefore(p, w, h, i, 0, a, b) then Wall else Bottom(g0, a, b)
      {
        var j := 0;
        while j < pattern.h - 1
          invariant 0 <= j <= pattern.h - 1 && pattern.Model() == p
          invariant forall a, b :: 0 <= a < w && 0 <= b < h - 1 ==>
            Bottom(Model(), a, b) == if BottomStampedBefore(p, w, h, i, j, a, b) then Wall else Bottom(g0, a, b)
        {
          if pattern.ReadBottom(i, j) == Wall {
            var l := (i * w) / pattern.w;
            var r := ((i + 1) * w) / pattern.w;
            var b := ((j + 1) * h) / pattern.h - 1;
            StampDrawsBottom(g0, p, i, j, b, l, r);
            WallBottomRun(b, l, r);
          }
          BottomBeforeNext(p, w, h, i, j);
          j := j + 1;
        }
        BottomBeforeWrap(p, w, h, i, pattern.h - 1);
        i := i + 1;
      }
      GridExt(StampBottoms(g0, p), Model());
    }

    /** Maze::stamp(pattern): false, and nothing changes, when the pattern is
        wider or taller than the receiver; otherwise every pattern wall is
        drawn, scaled, onto the receiver (see StampGrid). */
    method Stamp(pattern: Maze) returns (ok: bool)
      requires Valid() && pattern.Valid()
      requires {pattern.vert, pattern.horz} !! {vert, horz}
      modifies vert, horz
      ensures ok == (pattern.w <= w && pattern.h <= h)
      ensures Model() == if ok then StampGrid(old(Model()), pattern.Model()) else old(Model())
    {
      if pattern.w > w || pattern.h > h {
        return false;
      }
      StampRightWalls(pattern);
      StampBottomWalls(pattern);
      return true;
    }

    /** Maze::check(): the walk from (0, 0) facing east makes exactly
        2*(w*h-1) moves; None when it needs more than `fuel` calls of next(). */
    method Check(fuel: nat) returns (r: Option<bool>)
      requires Valid()
      ensures r == CheckWalk(Model(), fuel)
    {
      ghost var g := Model();
      var count := 0;
      var it := new Walker(this, 0, 0, 0);
      ghost var seen: seq<Cursor> := [];
      var left := fuel;
      ghost var walk := Walk(g, 0, 0, 0, fuel);
      PrependNil(Run(g, it.View(), fuel));
      while it.More()
        invariant it.Valid() && it.maze == this && Model() == g
        invariant walk == Prepend(seen, Run(g, it.View(), left))
        invariant count == StraightCount(seen)
        decreases left
      {
        if left == 0 {
          CheckWalkOutcome(g, seen, it.View(), fuel, left);
          return None;
        }
        ghost var c := it.View();
        ghost var fuelBefore := left;
        StraightCountSnoc(seen, c);
        if it.turn == 0 {
          count := count + 1;
        }
        it.Next();
        left := left - 1;
        RunUnfold(g, seen, c, it.View(), fuelBefore, left);
        seen := seen + [c];
      }
      CheckWalkOutcome(g, seen, it.View(), fuel, left);
      r := Some(count == 2 * (w * h - 1));
    }

    /** The two loops of generateRandom: each slot of `_vert`, then of
        `_horz`, becomes Wall when its draw is even and Passage otherwise. */
    method RandomizeSlots(rng: Rng)
      requires Valid()
      modifies vert, horz, rng
      ensures vert[..] == RandomSlots(rng.draws, old(rng.pos), (w - 1) * h)
      ensures horz[..] == RandomSlots(rng.draws, old(rng.pos) + (w - 1) * h, w * (h - 1))
      ensures rng.pos == AfterRandomSlots(w, h, old(rng.pos))
    {
      var k := 0;
      while k < vert.Length
        invariant 0 <= k <= vert.Length && rng.pos == old(rng.pos) + k
        invariant forall m :: 0 <= m < k ==> vert[m] == RandomState(rng.draws(old(rng.pos) + m))
      {
        var y := rng.Next();
        vert[k] := if y % 2 == 0 then Wall else Passage;
        RandModIsRem(y, 2);
        k := k + 1;
      }
      ghost var p1 := rng.pos;
      k := 0;
      while k < horz.Length
        invariant 0 <= k <= horz.Length && rng.pos == p1 + k
        invariant forall m :: 0 <= m < k ==> horz[m] == RandomState(rng.draws(p1 + m))
        invariant forall m :: 0 <= m < vert.Length ==> vert[m] == RandomState(rng.draws(old(rng.pos) + m))
      {
        var y := rng.Next();
        horz[k] := if y % 2 == 0 then Wall else Passage;
        RandModIsRem(y, 2);
        k := k + 1;
      }
    }

    /** The scan at the start of a round of fix: from the drawn cell
        (i0, j0) move east, wrapping to the next row and from the last row
        to the first, until a cell has a wall; there, turn to the start
        direction.  The wrap-around is never taken: the east side of the
        last column is the border. */
    method FindStart(i0: int, j0: int, d0: int) returns (i: int, j: int, d: int)
      requires Valid() && InGrid(Model(), i0, j0) && 0 <= d0 < 4
      ensures i == ScanStart(Model(), i0, j0) && j == j0 && 0 <= i < w
      ensures d == StartDir(Model(), i, j, d0)
    {
      var g := Model();
      ScanStartFinds(g, i0, j0);
      i, j := i0, j0;
      while true
        invariant i0 <= i <= ScanStart(g, i0, j0) && j == j0
        decreases ScanStart(g, i0, j0) - i
      {
        var n := NrWalls(i, j);
        SomeWallCount(g, i, j);
        if n > 0 {
          d := TurnToWall(i, j, d0);
          return;
        }
        i := i + 1;
        if i == w {
          assert false;
          i := 0;
          j := j + 1;
          if j == h {
            j := 0;
          }
        }
      }
    }

    /** On a cell with a wall: turn clockwise from d0 to the first wall,
        then one step further, so that the wall is on the left hand. */
    method TurnToWall(i: int, j: int, d0: int) returns (d: int)
      requires Valid() && InGrid(Model(), i, j) && 0 <= d0 < 4 && HasSomeWall(Model(), i, j)
      ensures d == StartDir(Model(), i, j, d0)
    {
      var g := Model();
      FirstWallFinds(g, i, j, d0);
      d := d0;
      while !HasWall(g, i, j, d)
        invariant 0 <= d < 4 && FirstWall(g, i, j, d) == FirstWall(g, i, j, d0)
        decreases FirstWallDistance(g, i, j, d)
      {
        FirstWallSkip(g, i, j, d);
        d := (d + 1) % 4;
      }
      d := (d + 1) % 4;
    }

    /** The two switches in fix's loop over its walk: a move (turn 0) bumps
        the counter of the side just crossed, touching the wall (turn 2) that
        of the side on the left hand unless it is the border. */
    method CountTouch(it: Walker, cv: array<int>, ch: array<int>, ghost seen: seq<Cursor>)
      requires Valid() && it.maze == this && it.Valid() && it.More() && cv != ch
      requires cv[..] == VertTally(Model(), seen) && ch[..] == HorzTally(Model(), seen)
      modifies cv, ch
      ensures cv[..] == VertTally(Model(), seen + [it.View()])
      ensures ch[..] == HorzTally(Model(), seen + [it.View()])
    {
      TallySnoc(Model(), seen, it.View());
      if it.turn == 0 {
        CountMove(it.i, it.j, it.d, cv, ch);
      } else if it.turn == 2 {
        CountWall(it.i, it.j, it.d, cv, ch);
      }
    }

    /** The switch for a move facing d onto (i, j): the side behind it. */
    method CountMove(i: int, j: int, d: int, cv: array<int>, ch: array<int>)
      requires Valid() && InGrid(Model(), i, j) && 0 <= d < 4
      requires InGrid(Model(), StepI(i, (d + 2) % 4), StepJ(j, (d + 2) % 4))
      requires cv.Length == (w - 1) * h && ch.Length == w * (h - 1) && cv != ch
      modifies cv, ch
      ensures Bumped(Model(), EdgeOf(Model(), i, j, (d + 2) % 4), old(cv[..]), cv[..], old(ch[..]), ch[..])
    {
      ghost var g := Model();
      if d == 0 {
        assert EdgeOf(g, i, j, 2) == Vert(i - 1, j);
        BumpRight(i - 1, j, cv, ch);
      } else if d == 1 {
        assert EdgeOf(g, i, j, 3) == Horz(i, j - 1);
        BumpBottom(i, j - 1, cv, ch);
      } else if d == 2 {
        assert EdgeOf(g, i, j, 0) == Vert(i, j);
        BumpRight(i, j, cv, ch);
      } else {
        assert EdgeOf(g, i, j, 1) == Horz(i, j);
        BumpBottom(i, j, cv, ch);
      }
    }

    /** The switch for touching the wall facing d at (i, j): the side on the
        left hand, unless it is the border. */
    method CountWall(i: int, j: int, d: int, cv: array<int>, ch: array<int>)
      requires Valid() && InGrid(Model(), i, j) && 0 <= d < 4
      requires cv.Length == (w - 1) * h && ch.Length == w * (h - 1) && cv != ch
      modifies cv, ch
      ensures Bumped(Model(), EdgeOf(Model(), i, j, (d + 3) % 4), old(cv[..]), cv[..], old(ch[..]), ch[..])
    {
      ghost var g := Model();
      if d == 0 {
        assert EdgeOf(g, i, j, 3) == if j > 0 then Horz(i, j - 1) else Border;
        if j > 0 {
          BumpBottom(i, j - 1, cv, ch);
        }
      } else if d == 1 {
        assert EdgeOf(g, i, j, 0) == if i < w - 1 then Vert(i, j) else Border;
        if i < w - 1 {
          BumpRight(i, j, cv, ch);
        }
      } else if d == 2 {
        assert EdgeOf(g, i, j, 1) == if j < h - 1 then Horz(i, j) else Border;
        if j < h - 1 {
          BumpBottom(i, j, cv, ch);
        }
      } else {
        assert EdgeOf(g, i, j, 2) == if i > 0 then Vert(i - 1, j) else Border;
        if i > 0 {
          BumpRight(i - 1, j, cv, ch);
        }
      }
    }

    /** `c_vert[_h*a + b]++`: the counter of right(a, b). */
    method BumpRight(a: int, b: int, cv: array<int>, ch: array<int>)
      requires Valid() && 0 <= a < w - 1 && 0 <= b < h
      requires cv.Length == (w - 1) * h && ch.Length == w * (h - 1) && cv != ch
      modifies cv
      ensures Bumped(Model(), Vert(a, b), old(cv[..]), cv[..], old(ch[..]), ch[..])
    {
      cv[RightIndex(w, h, a, b)] := cv[RightIndex(w, h, a, b)] + 1;
    }

    /** `c_horz[a + _w*b]++`: the counter of bottom(a, b). */
    method BumpBottom(a: int, b: int, cv: array<int>, ch: array<int>)
      requires Valid() && 0 <= a < w && 0 <= b < h - 1
      requires cv.Length == (w - 1) * h && ch.Length == w * (h - 1) && cv != ch
      modifies ch
      ensures Bumped(Model(), Horz(a, b), old(cv[..]), cv[..], old(ch[..]), ch[..])
    {
      ch[BottomIndex(w, h, a, b)] := ch[BottomIndex(w, h, a, b)] + 1;
    }

    /** The walk of a round of fix from (i, j) facing d, counting its moves
        and filling the counters, which start at zero; None when it needs
        more than `steps` calls of next(). */
    method TallyWalk(i: int, j: int, d: int, steps: nat, cv: array<int>, ch: array<int>)
      returns (moves: Option<int>)
      requires Valid() && InGrid(Model(), i, j) && 0 <= d < 4
      requires cv[..] == VertTally(Model(), []) && ch[..] == HorzTally(Model(), []) && cv != ch
      modifies cv, ch
      ensures moves.None? <==> Walk(Model(), i, j, d, steps).None?
      ensures moves.Some? ==>
        var cs := Walk(Model(), i, j, d, steps).value;
        moves.value == StraightCount(cs) &&
        cv[..] == VertTally(Model(), cs) && ch[..] == HorzTally(Model(), cs)
    {
      ghost var g := Model();
      var count := 0;
      var it := new Walker(this, i, j, d);
      ghost var seen: seq<Cursor> := [];
      var left := steps;
      ghost var walk := Walk(g, i, j, d, steps);
      PrependNil(Run(g, it.View(), steps));
      while it.More()
        invariant it.Valid() && it.maze == this && Model() == g
        invariant walk == Prepend(seen, Run(g, it.View(), left))
        invariant count == StraightCount(seen)
        invariant cv[..] == VertTally(g, seen) && ch[..] == HorzTally(g, seen)
        decreases left
      {
        if left == 0 {
          RunOutcome(g, walk, seen, it.View(), left);
          return None;
        }
        ghost var c := it.View();
        ghost var fuelBefore := left;
        StraightCountSnoc(seen, c);
        CountTouch(it, cv, ch, seen);
        if it.turn == 0 {
          count := count + 1;
        }
        it.Next();
        left := left - 1;
        RunUnfold(g, seen, c, it.View(), fuelBefore, left);
        seen := seen + [c];
      }
      RunOutcome(g, walk, seen, it.View(), left);
      moves := Some(count);
    }

    /** The two loops that set every counter to 0 at the start of a round. */
    method ClearCounters(cv: array<int>, ch: array<int>)
      requires Valid() && cv.Length == (w - 1) * h && ch.Length == w * (h - 1) && cv != ch
      modifies cv, ch
      ensures cv[..] == VertTally(Model(), []) && ch[..] == HorzTally(Model(), [])
    {
      var k := 0;
      while k < cv.Length
        invariant 0 <= k <= cv.Length
        invariant forall m :: 0 <= m < k ==> cv[m] == 0
      {
        cv[k] := 0;
        k := k + 1;
      }
      k := 0;
      while k < ch.Length
        invariant 0 <= k <= ch.Length
        invariant forall m :: 0 <= m < k ==> ch[m] == 0
        invariant forall m :: 0 <= m < cv.Length ==> cv[m] == 0
      {
        ch[k] := 0;
        k := k + 1;
      }
    }

    /** The two loops counting the counters equal to 1, `_vert` first. */
    method CountOnes(cv: array<int>, ch: array<int>) returns (count: int)
      ensures count == Ones(cv[..]) + Ones(ch[..])
    {
      count := 0;
      var k := 0;
      while k < cv.Length
        invariant 0 <= k <= cv.Length && count == Ones(cv[..k])
      {
        OnesSnoc(cv[..], k);
        if cv[k] == 1 {
          count := count + 1;
        }
        k := k + 1;
      }
      assert cv[..cv.Length] == cv[..];
      k := 0;
      while k < ch.Length
        invariant 0 <= k <= ch.Length && count == Ones(cv[..]) + Ones(ch[..k])
      {
        OnesSnoc(ch[..], k);
        if ch[k] == 1 {
          count := count + 1;
        }
        k := k + 1;
      }
      assert ch[..ch.Length] == ch[..];
    }

    /** The last two loops of a round: the r-th slot (from 0) whose counter
        is 1, `_vert` before `_horz`, is flipped. */
    method FlipChosen(cv: array<int>, ch: array<int>, r: int)
      requires Valid() && cv.Length == vert.Length && ch.Length == horz.Length
      modifies vert, horz
      ensures vert[..] == FlipNth(old(vert[..]), old(cv[..]), r)
      ensures horz[..] == FlipNth(old(horz[..]), old(ch[..]), r - Ones(old(cv[..])))
    {
      var count := FlipInVert(cv, r);
      FlipInHorz(ch, r, count);
    }

    /** The loop over `_vert`: the slot with counter 1 at which `count`,
        the number of such slots before it, equals r is flipped. */
    method FlipInVert(cv: array<int>, r: int) returns (count: int)
      requires Valid() && cv.Length == vert.Length
      modifies vert
      ensures vert[..] == FlipNth(old(vert[..]), cv[..], r) && count == Ones(cv[..])
    {
      count := 0;
      var k := 0;
      while k < vert.Length
        invariant 0 <= k <= vert.Length && count == Ones(cv[..k])
        invariant forall m :: 0 <= m < k ==> vert[m] == FlipNth(old(vert[..]), cv[..], r)[m]
        invariant forall m :: k <= m < vert.Length ==> vert[m] == old(vert[m])
      {
        OnesSnoc(cv[..], k);
        if cv[k] == 1 {
          if count == r {
            vert[k] := if vert[k] == Wall then Passage else Wall;
          }
          count := count + 1;
        }
        k := k + 1;
      }
      assert cv[..cv.Length] == cv[..];
    }

    /** The loop over `_horz`, where `count` goes on from `start`. */
    method FlipInHorz(ch: array<int>, r: int, start: int)
      requires Valid() && ch.Length == horz.Length
      modifies horz
      ensures horz[..] == FlipNth(old(horz[..]), ch[..], r - start)
    {
      ghost var rh := r - start;
      var count := start;
      var k := 0;
      while k < horz.Length
        invariant 0 <= k <= horz.Length && count == start + Ones(ch[..k])
        invariant forall m :: 0 <= m < k ==> horz[m] == FlipNth(old(horz[..]), ch[..], rh)[m]
        invariant forall m :: k <= m < horz.Length ==> horz[m] == old(horz[m])
      {
        OnesSnoc(ch[..], k);
        if ch[k] == 1 {
          if count == r {
            horz[k] := if horz[k] == Wall then Passage else Wall;
          }
          count := count + 1;
        }
        k := k + 1;
      }
    }

    /** One pass of fix's outer loop: clear the counters, draw the start,
        walk and count; stop when the walk made 2*(w*h-1) moves, otherwise
        flip the slot a draw picks among those whose counter is 1.  When no
        counter is 1 the source's `rand() % count` divides by zero; the pass
        ends NoneToFlip there instead. */
    method FixPass(cv: array<int>, ch: array<int>, steps: nat, rng: Rng) returns (end: RoundEnd)
      requires Valid() && cv.Length == (w - 1) * h && ch.Length == w * (h - 1) && cv != ch
      modifies vert, horz, cv, ch, rng
      ensures RoundResult(end, vert[..], horz[..], rng.pos) ==
              FixRound(w, h, old(vert[..]), old(horz[..]), rng.draws, old(rng.pos), steps)
    {
      ghost var g, pos := Model(), rng.pos;
      ClearCounters(cv, ch);
      var y := rng.Next();
      var i0 := y % w;
      RandModIsRem(y, w);
      y := rng.Next();
      assert y == rng.draws(pos + 1);
      var j0 := y % h;
      RandModIsRem(y, h);
      y := rng.Next();
      assert y == rng.draws(pos + 2);
      var d0 := y % 4;
      RandModIsRem(y, 4);
      var i, j, d := FindStart(i0, j0, d0);
      assert (i, j, d) == RoundStart(g, rng.draws, pos);
      assert rng.pos == AfterStartDraws(pos);
      var moves := TallyWalk(i, j, d, steps, cv, ch);
      if moves.None? {
        return WalkTooLong;
      }
      end := FinishPass(cv, ch, moves.value, Walk(g, i, j, d, steps).value, rng);
    }

    /** The rest of a pass once the walk cs is done, with its move count and
        its counters: stop when it made 2*(w*h-1) moves, otherwise flip the
        slot a draw picks among those whose counter is 1. */
    method FinishPass(cv: array<int>, ch: array<int>, moves: int, ghost cs: seq<Cursor>, rng: Rng)
      returns (end: RoundEnd)
      requires Valid() && moves == StraightCount(cs)
      requires cv[..] == VertTally(Model(), cs) && ch[..] == HorzTally(Model(), cs)
      modifies vert, horz, rng
      ensures RoundResult(end, vert[..], horz[..], rng.pos) ==
              AfterWalk(w, h, old(vert[..]), old(horz[..]), cs, rng.draws, old(rng.pos))
    {
      if moves == 2 * (w * h - 1) {
        AfterWalkBalanced(w, h, vert[..], horz[..], cs, rng.draws, rng.pos);
        return Balanced;
      }
      var count := CountOnes(cv, ch);
      if count == 0 {
        AfterWalkStuck(w, h, vert[..], horz[..], cs, rng.draws, rng.pos);
        return NoneToFlip;
      }
      FlipDrawn(cv, ch, count, cs, rng);
      end := Flipped;
    }

    /** The flipping end of a pass: one draw picks the r-th slot whose
        counter is 1 among the count of them, and that slot is flipped. */
    method FlipDrawn(cv: array<int>, ch: array<int>, count: int, ghost cs: seq<Cursor>, rng: Rng)
      requires Valid() && StraightCount(cs) != 2 * (w * h - 1)
      requires cv[..] == VertTally(Model(), cs) && ch[..] == HorzTally(Model(), cs)
      requires count == Ones(cv[..]) + Ones(ch[..]) && count != 0
      modifies vert, horz, rng
      ensures RoundResult(Flipped, vert[..], horz[..], rng.pos) ==
              AfterWalk(w, h, old(vert[..]), old(horz[..]), cs, rng.draws, old(rng.pos))
    {
      AfterWalkFlipped(w, h, vert[..], horz[..], cs, rng.draws, rng.pos, cv[..], ch[..],
                       RandMod(rng.draws(rng.pos), count));
      var y := rng.Next();
      var r := y % count;
      RandModIsRem(y, count);
      FlipChosen(cv, ch, r);
    }

    /** Maze::fix(): passes of the outer loop until one finds the walk
        balanced, at most `rounds` of them, each walk at most `steps` calls
        of next().  The counters are ints; the source's are chars. */
    method Fix(steps: nat, rounds: nat, rng: Rng) returns (outcome: FixOutcome)
      requires Valid()
      modifies vert, horz, rng
      ensures FixResult(outcome, vert[..], horz[..], rng.pos) ==
              FixRun(w, h, old(vert[..]), old(horz[..]), rng.draws, old(rng.pos), steps, rounds)
    {
      var cv := new int[vert.Length];
      var ch := new int[horz.Length];
      outcome := FixLoop(cv, ch, steps, rounds, rng);
    }

    /** fix()'s outer loop, over the counter arrays cv and ch. */
    method FixLoop(cv: array<int>, ch: array<int>, steps: nat, rounds: nat, rng: Rng)
      returns (outcome: FixOutcome)
      requires Valid() && cv.Length == (w - 1) * h && ch.Length == w * (h - 1) && cv != ch
      modifies vert, horz, cv, ch, rng
      ensures FixResult(outcome, vert[..], horz[..], rng.pos) ==
              FixRun(w, h, old(vert[..]), old(horz[..]), rng.draws, old(rng.pos), steps, rounds)
    {
      var left := rounds;
      ghost var target := FixRun(w, h, vert[..], horz[..], rng.draws, rng.pos, steps, rounds);
      while true
        invariant FixRun(w, h, vert[..], horz[..], rng.draws, rng.pos, steps, left) == target
        decreases left
      {
        if left == 0 {
          return OutOfFuel;
        }
        ghost var v, z, p := vert[..], horz[..], rng.pos;
        var end := FixPass(cv, ch, steps, rng);
        if end != Flipped {
          ghost var rr := RoundResult(end, vert[..], horz[..], rng.pos);
          assert FixRun(w, h, v, z, rng.draws, p, steps, left) ==
                 FixAfter(w, h, v, z, rng.draws, steps, left, rr);
          return if end == Balanced then Fixed else if end == NoneToFlip then NoCandidate else OutOfFuel;
        }
        FixRunAfterFlip(w, h, v, z, rng.draws, p, steps, left, vert[..], horz[..], rng.pos);
        ghost var before := left;
        left := left - 1;
        assert left == FewerRounds(before);
      }
    }

    /** Maze::generateTrees(): fix() applied to the maze as it is. */
    method GenerateTrees(steps: nat, rounds: nat, rng: Rng) returns (outcome: FixOutcome)
      requires Valid()
      modifies vert, horz, rng
      ensures FixResult(outcome, vert[..], horz[..], rng.pos) ==
              FixRun(w, h, old(vert[..]), old(horz[..]), rng.draws, old(rng.pos), steps, rounds)
      ensures outcome == Fixed ==> SomeWalkBalanced(w, h, vert[..], horz[..], steps)
    {
      outcome := Fix(steps, rounds, rng);
    }

    /** Maze::generateRandom(): every slot Wall or Passage by a draw, then
        fix(). */
    method GenerateRandom(steps: nat, rounds: nat, rng: Rng) returns (outcome: FixOutcome)
      requires Valid()
      modifies vert, horz, rng
      ensures FixResult(outcome, vert[..], horz[..], rng.pos) ==
        FixRun(w, h, RandomSlots(rng.draws, old(rng.pos), (w - 1) * h),
               RandomSlots(rng.draws, old(rng.pos) + (w - 1) * h, w * (h - 1)),
               rng.draws, AfterRandomSlots(w, h, old(rng.pos)), steps, rounds)
      ensures outcome == Fixed ==> SomeWalkBalanced(w, h, vert[..], horz[..], steps)
    {
      RandomizeSlots(rng);
      outcome := Fix(steps, rounds, rng);
    }

    /** Maze::removeCrosses(): the anti-diagonals i+j = k from w+h-2 down to
        1, each from column 0 on; every cross found is relinked.  Each walk
        makes at most `steps` calls of next(). */
    method RemoveCrosses(steps: nat) returns (end: UncrossEnd)
      requires Valid()
      modifies vert, horz
      ensures Uncross(end, Model()) == RemoveCrossesRun(old(Model()), steps)
      ensures old(Defined(Model())) ==> Defined(Model())
    {
      if Defined(Model()) {
        CrossesKeepDefined(Model(), w + h - 2, 0, steps);
      }
      end := ScanDiagonals(steps);
    }

    /** The outer loop of removeCrosses: the anti-diagonals from w+h-2
        down to 1. */
    method ScanDiagonals(steps: nat) returns (end: UncrossEnd)
      requires Valid()
      modifies vert, horz
      ensures Uncross(end, Model()) == RemoveCrossesRun(old(Model()), steps)
    {
      ghost var target := RemoveCrossesRun(Model(), steps);
      var k := w + h - 2;
      while k > 0
        invariant 0 <= k && CrossesFrom(Model(), k, 0, steps) == target
        decreases k
      {
        end := ScanDiagonal(k, steps);
        if end != Uncrossed {
          return;
        }
        k := k - 1;
      }
      end := Uncrossed;
    }

    /** The inner loop of removeCrosses: the cells (i, k-i) of one
        anti-diagonal from column 0 on, relinking each cross. */
    method ScanDiagonal(k: int, steps: nat) returns (end: UncrossEnd)
      requires Valid() && k > 0
      modifies vert, horz
      ensures end == Uncrossed ==>
                CrossesFrom(Model(), k, w, steps) == CrossesFrom(old(Model()), k, 0, steps)
      ensures end != Uncrossed ==> Uncross(end, Model()) == CrossesFrom(old(Model()), k, 0, steps)
    {
      ghost var target := CrossesFrom(Model(), k, 0, steps);
      var i, j := 0, k;
      while i < w
        invariant 0 <= i <= w && j == DiagonalRow(k, i)
        invariant CrossesFrom(Model(), k, i, steps) == target
        decreases w - i
      {
        if 0 <= j && j < h {
          var n := NrWalls(i, j);
          SomeWallCount(Model(), i, j);
          if n == 0 {
            end := RelinkCrossAt(i, j, k, steps);
            if end != Uncrossed {
              return;
            }
          }
        }
        i, j := i + 1, j - 1;
      }
      assert i == w;
      end := Uncrossed;
    }

    /** The body of removeCrosses for the cross (i, j) on anti-diagonal k. */
    method RelinkCrossAt(i: int, j: int, k: int, steps: nat) returns (end: UncrossEnd)
      requires Valid() && InGrid(Model(), i, j) && !HasSomeWall(Model(), i, j) && k == i + j
      modifies horz, vert
      ensures Uncross(end, Model()) == RelinkCross(old(Model()), i, j, k, steps)
    {
      ghost var g0 := Model();
      CrossIsInner(g0, i, j);
      WriteTop(i, j, Wall);
      ghost var g1 := Model();
      var found := LowestOnWalk(i, j, 0, Best(k, i, j), true, steps);
      if found.Some? && found.value.k == 0 {
        found := LowestOnWalk(i, j - 1, 2, Best(k - 1, i, j - 1), false, steps);
      }
      RelinkCrossByChoice(g0, i, j, k, steps, found);
      if found.None? {
        end := StuckWalk;
      } else {
        end := OpenAtBest(found.value);
      }
    }

    /** The last statement of removeCrosses' body: open top(best) when
        best_j > 0, otherwise left(best). */
    method OpenAtBest(best: Best) returns (end: UncrossEnd)
      requires Valid() && InGrid(Model(), best.i, best.j)
      modifies horz, vert
      ensures Uncross(end, Model()) == OpenAt(old(Model()), best)
    {
      if best.j > 0 {
        WriteTop(best.i, best.j, Passage);
      } else if best.i > 0 {
        WriteLeft(best.i, best.j, Passage);
      } else {
        // left(0, 0) would be _vert[-h]
        return WriteOffGrid;
      }
      end := Uncrossed;
    }

    /** One walk loop of removeCrosses: the move closest to (0, 0) along the
        walk of iterator(*this, i0, j0, d0), starting from b0; with `stop` it
        breaks when a move reaches (0, 0). */
    method LowestOnWalk(i0: int, j0: int, d0: int, b0: Best, stop: bool, steps: nat)
      returns (found: Option<Best>)
      requires Valid() && InGrid(Model(), i0, j0) && 0 <= d0 < 4
      requires InGrid(Model(), b0.i, b0.j) && b0.k == b0.i + b0.j
      ensures found == ScanWalk(Model(), Step(Model(), Start(i0, j0, d0)), steps, b0, stop)
    {
      ghost var g := Model();
      var it := new Walker(this, i0, j0, d0);
      ghost var target := ScanWalk(g, it.View(), steps, b0, stop);
      var b := b0;
      var left := steps;
      while it.More()
        invariant it.Valid() && it.maze == this && Model() == g
        invariant InGrid(g, b.i, b.j) && b.k == b.i + b.j
        invariant ScanWalk(g, it.View(), left, b, stop) == target
        decreases left
      {
        ghost var c, b1, before := it.View(), b, left;
        ScanWalkStop(g, c, left, b, stop);
        if it.turn == 0 && it.i + it.j < b.k {
          b := Best(it.i + it.j, it.i, it.j);
          if stop && b.k == 0 {
            return Some(b);
          }
        }
        if left == 0 {
          return None;
        }
        assert b == Consider(b1, c);
        it.Next();
        left := left - 1;
        ScanWalkUnfold(g, c, it.View(), before, left, b1, stop);
      }
      ScanWalkStop(g, it.View(), left, b, stop);
      found := Some(b);
    }
  }

  /** Maze::iterator: a resumable wall-following walk over a maze. */
  class Walker {
    const maze: Maze
    var si: int
    var sj: int
    var sd: int
    var i: int
    var j: int
    var d: int
    var turn: int
    var state: int

    function View(): Cursor
      reads this
    {
      Cursor(si, sj, sd, i, j, d, turn, state)
    }

    ghost predicate Valid()
      reads this, maze, maze.vert, maze.horz
    {
      maze.Valid() && Inv(maze.Model(), View())
    }

    /** iterator(maze, i, j, d): start at (i, j) facing d and make the first step. */
    constructor (maze: Maze, i: int, j: int, d: int)
      requires maze.Valid() && InGrid(maze.Model(), i, j) && 0 <= d < 4
      ensures this.maze == maze && Valid()
      ensures View() == Step(maze.Model(), Start(i, j, d))
    {
      this.maze := maze;
      si, sj, sd := i, j, d;
      this.i, this.j, this.d := i, j, d;
      turn, state := 0, 0;
      new;
      Next();
    }

    /** iterator::more(). */
    function More(): bool
      reads this
    {
      state != 0
    }

    /** iterator::next(): resume at the label `state` names and run to the
        next reported step, or to the end of the walk. */
    method Next()
      requires Valid()
      modifies this
      ensures View() == Step(maze.Model(), old(View())) && Valid()
    {
      if state == 1 {
        ResumeL1();
      } else if state == 2 {
        ResumeL2();
      } else {
        ResumeLoop();
      }
    }

    /** L1: the left-hand side was open; turn left, then move. */
    method ResumeL1()
      requires Valid() && state == 1
      modifies this
      ensures View() == Step(maze.Model(), old(View())) && Valid()
    {
      var e := (d + 3) % 4;
      d, i, j, turn, state := e, StepI(i, e), StepJ(j, e), 0, 3;
    }

    /** L2: move when the side ahead is open, otherwise report a right turn. */
    method ResumeL2()
      requires Valid() && state == 2
      modifies this
      ensures View() == Step(maze.Model(), old(View())) && Valid()
    {
      var g := maze.Model();
      if !HasWall(g, i, j, d) {
        i, j, turn, state := StepI(i, d), StepJ(j, d), 0, 3;
      } else {
        turn, state := 1, 4;
      }
    }

    /** L0 (the first call), L3 (after a move) and L4 (after a right turn,
        which it completes): the do-while test, then the probe of the
        left-hand side. */
    method ResumeLoop()
      requires Valid() && state != 1 && state != 2
      modifies this
      ensures View() == Step(maze.Model(), old(View())) && Valid()
    {
      var g := maze.Model();
      var e := if state == 4 then (d + 1) % 4 else d;
      if state != 0 && i == si && j == sj && e == sd {
        // the do-while test fails: the walk is back at its start
        d, state := e, 0;
      } else if !HasWall(g, i, j, e - 1) {
        d, turn, state := e, -1, 1;
      } else {
        d, turn, state := e, 2, 2;
      }
    }
  }
}
