// Connectivity through passages: the property every generator of class Maze
// aims at, a "perfect" maze in which every cell can be reached from every
// other along Passage slots and there are exactly w*h-1 of them (a spanning
// tree of the grid of cells).
module MazePaths {
  import opened MazeGrid

  type Cell = (int, int)

  /** Cells a and b are neighbours and the slot between them holds Passage. */
  predicate Joined(g: Grid, a: Cell, b: Cell)
    requires g.Valid()
  {
    InGrid(g, a.0, a.1) && InGrid(g, b.0, b.1) &&
    ((b.0 == a.0 + 1 && b.1 == a.1 && Right(g, a.0, a.1) == Passage) ||
     (a.0 == b.0 + 1 && a.1 == b.1 && Right(g, b.0, b.1) == Passage) ||
     (b.1 == a.1 + 1 && b.0 == a.0 && Bottom(g, a.0, a.1) == Passage) ||
     (a.1 == b.1 + 1 && a.0 == b.0 && Bottom(g, b.0, b.1) == Passage))
  }

  lemma JoinedRight(g: Grid, a: int, b: int)
    requires g.Valid() && 0 <= a < g.w - 1 && 0 <= b < g.h && Right(g, a, b) == Passage
    ensures Joined(g, (a, b), (a + 1, b))
  {
  }

  lemma JoinedDown(g: Grid, a: int, b: int)
    requires g.Valid() && 0 <= a < g.w && 0 <= b < g.h - 1 && Bottom(g, a, b) == Passage
    ensures Joined(g, (a, b), (a, b + 1))
  {
  }

  /** A walk through the maze along passages. */
  ghost predicate IsPath(g: Grid, p: seq<Cell>)
    requires g.Valid()
  {
    |p| >= 1 && InGrid(g, p[0].0, p[0].1) &&
    forall k :: 0 <= k < |p| - 1 ==> Joined(g, p[k], p[k + 1])
  }

  /** b can be reached from a along passages. */
  ghost predicate Reach(g: Grid, a: Cell, b: Cell)
    requires g.Valid()
  {
    exists p {:trigger IsPath(g, p)} :: IsPath(g, p) && p[0] == a && p[|p| - 1] == b
  }

  /** Every Passage of g is still a Passage in g2, on a grid of the same shape. */
  ghost predicate KeepsPassages(g: Grid, g2: Grid) {
    g.Valid() && g2.Valid() && g2.w == g.w && g2.h == g.h &&
    (forall a, b :: 0 <= a < g.w - 1 && 0 <= b < g.h && Right(g, a, b) == Passage ==> Right(g2, a, b) == Passage) &&
    (forall a, b :: 0 <= a < g.w && 0 <= b < g.h - 1 && Bottom(g, a, b) == Passage ==> Bottom(g2, a, b) == Passage)
  }

  /** A perfect maze: every slot decided, every cell reachable from (0, 0),
      and w*h-1 passages, so no passage closes a cycle. */
  ghost predicate Perfect(g: Grid)
    requires g.Valid()
  {
    (forall a, b :: 0 <= a < g.w - 1 && 0 <= b < g.h ==> Right(g, a, b) != Undefined) &&
    (forall a, b :: 0 <= a < g.w && 0 <= b < g.h - 1 ==> Bottom(g, a, b) != Undefined) &&
    Passages(g) == g.w * g.h - 1 &&
    forall a, b :: InGrid(g, a, b) ==> Reach(g, (0, 0), (a, b))
  }

  lemma ReachRefl(g: Grid, a: Cell)
    requires g.Valid() && InGrid(g, a.0, a.1)
    ensures Reach(g, a, a)
  {
    assert IsPath(g, [a]);
  }

  lemma JoinedSym(g: Grid, a: Cell, b: Cell)
    requires g.Valid() && Joined(g, a, b)
    ensures Joined(g, b, a)
  {
  }

  /** Two cells joined by a passage reach each other. */
  lemma ReachJoined(g: Grid, a: Cell, b: Cell)
    requires g.Valid() && Joined(g, a, b)
    ensures Reach(g, a, b)
  {
    assert IsPath(g, [a, b]);
  }

  /** Reachability composes: walk from a to b, then on to c. */
  lemma ReachTrans(g: Grid, a: Cell, b: Cell, c: Cell)
    requires g.Valid() && Reach(g, a, b) && Reach(g, b, c)
    ensures Reach(g, a, c)
  {
    var p :| IsPath(g, p) && p[0] == a && p[|p| - 1] == b;
    var q :| IsPath(g, q) && q[0] == b && q[|q| - 1] == c;
    var pq := p + q[1..];
    forall k | 0 <= k < |pq| - 1
      ensures Joined(g, pq[k], pq[k + 1])
    {
      if k < |p| - 1 {
        assert pq[k] == p[k] && pq[k + 1] == p[k + 1];
      } else {
        assert pq[k] == q[k - |p| + 1] && pq[k + 1] == q[k - |p| + 2];
      }
    }
    assert IsPath(g, pq);
  }

  function Reverse(p: seq<Cell>): (r: seq<Cell>)
    ensures |r| == |p|
    ensures forall k :: 0 <= k < |p| ==> r[k] == p[|p| - 1 - k]
  {
    if p == [] then [] else Reverse(p[1..]) + [p[0]]
  }

  /** Passages are two-way: a path walked backwards is a path. */
  lemma ReachSym(g: Grid, a: Cell, b: Cell)
    requires g.Valid() && Reach(g, a, b)
    ensures Reach(g, b, a)
  {
    var p :| IsPath(g, p) && p[0] == a && p[|p| - 1] == b;
    var r := Reverse(p);
    if |p| > 1 {
      assert Joined(g, p[|p| - 2], p[|p| - 1]);
    }
    forall k | 0 <= k < |r| - 1
      ensures Joined(g, r[k], r[k + 1])
    {
      JoinedSym(g, p[|p| - 2 - k], p[|p| - 1 - k]);
    }
    assert IsPath(g, r);
  }

  /** Two connected regions joined by one passage: from c0 through the
      passage x-y into the region that c1 connects. */
  lemma ReachAcross(g: Grid, c0: Cell, x: Cell, y: Cell, c1: Cell, z: Cell)
    requires g.Valid() && Reach(g, c0, x) && Joined(g, x, y) && Reach(g, c1, y) && Reach(g, c1, z)
    ensures Reach(g, c0, z)
  {
    ReachJoined(g, x, y);
    ReachTrans(g, c0, x, y);
    ReachSym(g, c1, y);
    ReachTrans(g, c0, y, c1);
    ReachTrans(g, c0, c1, z);
  }

  /** Opening more passages never disconnects two cells. */
  lemma ReachMono(g: Grid, g2: Grid, a: Cell, b: Cell)
    requires KeepsPassages(g, g2) && Reach(g, a, b)
    ensures Reach(g2, a, b)
  {
    var p :| IsPath(g, p) && p[0] == a && p[|p| - 1] == b;
    forall k | 0 <= k < |p| - 1
      ensures Joined(g2, p[k], p[k + 1])
    {
      assert Joined(g, p[k], p[k + 1]);
    }
    assert IsPath(g2, p);
  }

  /** Opening right(a, b) keeps every connection and joins (a, b) to (a+1, b). */
  lemma ReachOpenRight(g: Grid, a: int, b: int, c: Cell, x: Cell)
    requires g.Valid() && 0 <= a < g.w - 1 && 0 <= b < g.h && Reach(g, c, x)
    ensures Reach(SetRight(g, a, b, Passage), c, x)
  {
    var r := SetRight(g, a, b, Passage);
    assert KeepsPassages(g, r);
    ReachMono(g, r, c, x);
  }

  lemma ReachThroughRight(g: Grid, a: int, b: int, c: Cell)
    requires g.Valid() && 0 <= a < g.w - 1 && 0 <= b < g.h && Reach(g, c, (a, b))
    ensures Reach(SetRight(g, a, b, Passage), c, (a + 1, b))
  {
    var r := SetRight(g, a, b, Passage);
    ReachOpenRight(g, a, b, c, (a, b));
    JoinedRight(r, a, b);
    ReachJoined(r, (a, b), (a + 1, b));
    ReachTrans(r, c, (a, b), (a + 1, b));
  }

  /** Opening bottom(a, b) keeps every connection and joins (a, b) to (a, b+1). */
  lemma ReachOpenBottom(g: Grid, a: int, b: int, c: Cell, x: Cell)
    requires g.Valid() && 0 <= a < g.w && 0 <= b < g.h - 1 && Reach(g, c, x)
    ensures Reach(SetBottom(g, a, b, Passage), c, x)
  {
    var r := SetBottom(g, a, b, Passage);
    assert KeepsPassages(g, r);
    ReachMono(g, r, c, x);
  }

  lemma ReachThroughBottom(g: Grid, a: int, b: int, c: Cell)
    requires g.Valid() && 0 <= a < g.w && 0 <= b < g.h - 1 && Reach(g, c, (a, b))
    ensures Reach(SetBottom(g, a, b, Passage), c, (a, b + 1))
  {
    var r := SetBottom(g, a, b, Passage);
    ReachOpenBottom(g, a, b, c, (a, b));
    JoinedDown(r, a, b);
    ReachJoined(r, (a, b), (a, b + 1));
    ReachTrans(r, c, (a, b), (a, b + 1));
  }

  /** Opening top(a, b), which is bottom(a, b-1), keeps every connection and
      joins (a, b-1) to (a, b). */
  lemma ReachOpenTop(g: Grid, a: int, b: int, c: Cell, x: Cell)
    requires g.Valid() && 0 <= a < g.w && 1 <= b < g.h && Reach(g, c, x)
    ensures Reach(SetTop(g, a, b, Passage), c, x)
  {
    ReachOpenBottom(g, a, b - 1, c, x);
  }

  lemma ReachThroughTop(g: Grid, a: int, b: int, c: Cell)
    requires g.Valid() && 0 <= a < g.w && 1 <= b < g.h && Reach(g, c, (a, b - 1))
    ensures Reach(SetTop(g, a, b, Passage), c, (a, b))
  {
    ReachThroughBottom(g, a, b - 1, c);
  }

  /** Opening left(a, b), which is right(a-1, b), keeps every connection and
      joins (a-1, b) to (a, b). */
  lemma ReachOpenLeft(g: Grid, a: int, b: int, c: Cell, x: Cell)
    requires g.Valid() && 1 <= a < g.w && 0 <= b < g.h && Reach(g, c, x)
    ensures Reach(SetLeft(g, a, b, Passage), c, x)
  {
    ReachOpenRight(g, a - 1, b, c, x);
  }

  lemma ReachThroughLeft(g: Grid, a: int, b: int, c: Cell)
    requires g.Valid() && 1 <= a < g.w && 0 <= b < g.h && Reach(g, c, (a - 1, b))
    ensures Reach(SetLeft(g, a, b, Passage), c, (a, b))
  {
    ReachThroughRight(g, a - 1, b, c);
  }

  lemma KeepsPassagesTrans(g: Grid, g2: Grid, g3: Grid)
    requires KeepsPassages(g, g2) && KeepsPassages(g2, g3)
    ensures KeepsPassages(g, g3)
  {
  }

  lemma KeepsPassagesRefl(g: Grid)
    requires g.Valid()
    ensures KeepsPassages(g, g)
  {
  }

  /** _hasWall reports a wall on all four sides of c. */
  predicate WalledIn(g: Grid, c: Cell)
    requires g.Valid() && InGrid(g, c.0, c.1)
  {
    forall d :: 0 <= d < 4 ==> HasWall(g, c.0, c.1, d)
  }

  /** A cell reached from another cell has an open side: a walled-in cell
      can be reached only from itself. */
  lemma ReachOpensSide(g: Grid, x: Cell, c: Cell)
    requires g.Valid() && InGrid(g, c.0, c.1) && Reach(g, x, c) && x != c
    ensures !WalledIn(g, c)
  {
    var p :| IsPath(g, p) && p[0] == x && p[|p| - 1] == c;
    var b := p[|p| - 2];
    assert Joined(g, b, c);
    if b.0 + 1 == c.0 {
      assert !HasWall(g, c.0, c.1, 2);
    } else if b.0 == c.0 + 1 {
      assert !HasWall(g, c.0, c.1, 0);
    } else if b.1 + 1 == c.1 {
      assert !HasWall(g, c.0, c.1, 3);
    } else {
      assert !HasWall(g, c.0, c.1, 1);
    }
  }
}
