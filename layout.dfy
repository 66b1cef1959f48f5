// The flat storage of class Maze: `_vert` holds right(i, j) at h*i+j, `_horz`
// holds bottom(i, j) at i+w*j (src/MazeGen.cpp lines 24-27).  This module is
// the only place that reasons about those positions; everything else works on
// the Grid snapshot that FromFlat builds from the two arrays.
module MazeLayout {
  import opened MazeGrid

  lemma MulLeftMono(a: int, b: int, c: int)
    requires a >= 0 && b <= c
    ensures a * b <= a * c
  {
    assert a * c - a * b == a * (c - b);
  }

  /** The cell (i, j) of a w-wide layout sits at i + w*j; two cells that
      share a position are the same cell. */
  lemma RowMajorInjective(w: int, i: int, j: int, i2: int, j2: int)
    requires w >= 1 && 0 <= i < w && 0 <= i2 < w && 0 <= j && 0 <= j2
    requires i + w * j == i2 + w * j2
    ensures i == i2 && j == j2
  {
    if j < j2 {
      MulLeftMono(w, j + 1, j2);
      assert false;
    } else if j2 < j {
      MulLeftMono(w, j2 + 1, j);
      assert false;
    }
  }

  /** Below a bound of n rows, a row-major position stays below w*n. */
  lemma RowMajorBound(w: int, n: int, i: int, j: int)
    requires 0 <= i < w && 0 <= j < n
    ensures 0 <= i + w * j < w * n
  {
    MulLeftMono(w, 0, j);
    MulLeftMono(w, j + 1, n);
  }

  /** The sizes of the two arrays of a w by h maze. */
  predicate FlatValid(w: int, h: int, vert: seq<State>, horz: seq<State>) {
    w >= 1 && h >= 1 && |vert| == (w - 1) * h && |horz| == w * (h - 1)
  }

  /** The position of right(i, j) in `_vert`. */
  function RightIndex(w: int, h: int, i: int, j: int): (k: int)
    requires w >= 1 && h >= 1 && 0 <= i < w - 1 && 0 <= j < h
    ensures 0 <= k < (w - 1) * h
  {
    RowMajorBound(h, w - 1, j, i);
    h * i + j
  }

  /** The position of bottom(i, j) in `_horz`. */
  function BottomIndex(w: int, h: int, i: int, j: int): (k: int)
    requires w >= 1 && h >= 1 && 0 <= i < w && 0 <= j < h - 1
    ensures 0 <= k < w * (h - 1)
  {
    RowMajorBound(w, h - 1, i, j);
    i + w * j
  }

  /** Distinct cells have distinct right slots. */
  lemma RightIndexInjective(w: int, h: int, i: int, j: int, i2: int, j2: int)
    requires w >= 1 && h >= 1 && 0 <= i < w - 1 && 0 <= j < h && 0 <= i2 < w - 1 && 0 <= j2 < h
    ensures RightIndex(w, h, i, j) == RightIndex(w, h, i2, j2) ==> i == i2 && j == j2
  {
    if RightIndex(w, h, i, j) == RightIndex(w, h, i2, j2) {
      RowMajorInjective(h, j, i, j2, i2);
    }
  }

  /** Distinct cells have distinct bottom slots. */
  lemma BottomIndexInjective(w: int, h: int, i: int, j: int, i2: int, j2: int)
    requires w >= 1 && h >= 1 && 0 <= i < w && 0 <= j < h - 1 && 0 <= i2 < w && 0 <= j2 < h - 1
    ensures BottomIndex(w, h, i, j) == BottomIndex(w, h, i2, j2) ==> i == i2 && j == j2
  {
    if BottomIndex(w, h, i, j) == BottomIndex(w, h, i2, j2) {
      RowMajorInjective(w, i, j, i2, j2);
    }
  }

  /** The snapshot of the two flat arrays: right(i, j) is vert[h*i+j] and
      bottom(i, j) is horz[i+w*j] (FromFlatAt). */
  function FromFlat(w: int, h: int, vert: seq<State>, horz: seq<State>): (g: Grid)
    requires FlatValid(w, h, vert, horz)
    ensures g.Valid() && g.w == w && g.h == h
  {
    Grid(w, h, VertColumns(w, h, vert, w - 1), HorzColumns(w, h, horz, w))
  }

  /** The right slots of the first k columns. */
  function VertColumns(w: int, h: int, vert: seq<State>, k: nat): (c: seq<seq<State>>)
    requires w >= 1 && h >= 1 && |vert| == (w - 1) * h && k <= w - 1
    ensures |c| == k && forall i :: 0 <= i < k ==> |c[i]| == h
  {
    if k == 0 then []
    else VertColumns(w, h, vert, k - 1) + [seq(h, j requires 0 <= j < h => vert[RightIndex(w, h, k - 1, j)])]
  }

  /** The bottom slots of the first k columns. */
  function HorzColumns(w: int, h: int, horz: seq<State>, k: nat): (c: seq<seq<State>>)
    requires w >= 1 && h >= 1 && |horz| == w * (h - 1) && k <= w
    ensures |c| == k && forall i :: 0 <= i < k ==> |c[i]| == h - 1
  {
    if k == 0 then []
    else HorzColumns(w, h, horz, k - 1) + [seq(h - 1, j requires 0 <= j < h - 1 => horz[BottomIndex(w, h, k - 1, j)])]
  }

  lemma {:induction false} VertColumnsAt(w: int, h: int, vert: seq<State>, k: nat, i: int, j: int)
    requires w >= 1 && h >= 1 && |vert| == (w - 1) * h && k <= w - 1
    requires 0 <= i < k && 0 <= j < h
    ensures VertColumns(w, h, vert, k)[i][j] == vert[RightIndex(w, h, i, j)]
    decreases k
  {
    if i < k - 1 {
      VertColumnsAt(w, h, vert, k - 1, i, j);
    }
  }

  lemma {:induction false} HorzColumnsAt(w: int, h: int, horz: seq<State>, k: nat, i: int, j: int)
    requires w >= 1 && h >= 1 && |horz| == w * (h - 1) && k <= w
    requires 0 <= i < k && 0 <= j < h - 1
    ensures HorzColumns(w, h, horz, k)[i][j] == horz[BottomIndex(w, h, i, j)]
    decreases k
  {
    if i < k - 1 {
      HorzColumnsAt(w, h, horz, k - 1, i, j);
    }
  }

  /** right(i, j) of the snapshot is the entry of `_vert` at h*i+j. */
  lemma FromFlatRight(w: int, h: int, vert: seq<State>, horz: seq<State>, i: int, j: int)
    requires FlatValid(w, h, vert, horz) && 0 <= i < w - 1 && 0 <= j < h
    ensures Right(FromFlat(w, h, vert, horz), i, j) == vert[RightIndex(w, h, i, j)]
  {
    VertColumnsAt(w, h, vert, w - 1, i, j);
  }

  /** bottom(i, j) of the snapshot is the entry of `_horz` at i+w*j. */
  lemma FromFlatBottom(w: int, h: int, vert: seq<State>, horz: seq<State>, i: int, j: int)
    requires FlatValid(w, h, vert, horz) && 0 <= i < w && 0 <= j < h - 1
    ensures Bottom(FromFlat(w, h, vert, horz), i, j) == horz[BottomIndex(w, h, i, j)]
  {
    HorzColumnsAt(w, h, horz, w, i, j);
  }

  /** Writing `_vert[h*i+j]` is writing right(i, j) in the snapshot. */
  lemma FromFlatSetRight(w: int, h: int, vert: seq<State>, horz: seq<State>, i: int, j: int, s: State)
    requires FlatValid(w, h, vert, horz) && 0 <= i < w - 1 && 0 <= j < h
    ensures FromFlat(w, h, vert[RightIndex(w, h, i, j) := s], horz) == SetRight(FromFlat(w, h, vert, horz), i, j, s)
  {
    var g := FromFlat(w, h, vert, horz);
    var g2 := FromFlat(w, h, vert[RightIndex(w, h, i, j) := s], horz);
    var r := SetRight(g, i, j, s);
    forall a, b | 0 <= a < w - 1 && 0 <= b < h
      ensures g2.vert[a][b] == r.vert[a][b]
    {
      FromFlatRight(w, h, vert, horz, a, b);
      FromFlatRight(w, h, vert[RightIndex(w, h, i, j) := s], horz, a, b);
      RightIndexInjective(w, h, a, b, i, j);
    }
    assert forall a | 0 <= a < w - 1 :: g2.vert[a] == r.vert[a];
  }

  /** Writing `_horz[i+w*j]` is writing bottom(i, j) in the snapshot. */
  lemma FromFlatSetBottom(w: int, h: int, vert: seq<State>, horz: seq<State>, i: int, j: int, s: State)
    requires FlatValid(w, h, vert, horz) && 0 <= i < w && 0 <= j < h - 1
    ensures FromFlat(w, h, vert, horz[BottomIndex(w, h, i, j) := s]) == SetBottom(FromFlat(w, h, vert, horz), i, j, s)
  {
    var g := FromFlat(w, h, vert, horz);
    var g2 := FromFlat(w, h, vert, horz[BottomIndex(w, h, i, j) := s]);
    var r := SetBottom(g, i, j, s);
    forall a, b | 0 <= a < w && 0 <= b < h - 1
      ensures g2.horz[a][b] == r.horz[a][b]
    {
      FromFlatBottom(w, h, vert, horz, a, b);
      FromFlatBottom(w, h, vert, horz[BottomIndex(w, h, i, j) := s], a, b);
      BottomIndexInjective(w, h, a, b, i, j);
    }
    assert forall a | 0 <= a < w :: g2.horz[a] == r.horz[a];
  }

  /** _undefinedToWall over the flat arrays is ResolveGrid over the snapshot. */
  lemma FromFlatResolve(w: int, h: int, vert: seq<State>, horz: seq<State>)
    requires FlatValid(w, h, vert, horz)
    ensures FlatValid(w, h, ResolveAll(vert), ResolveAll(horz))
    ensures FromFlat(w, h, ResolveAll(vert), ResolveAll(horz)) == ResolveGrid(FromFlat(w, h, vert, horz))
  {
    var g := FromFlat(w, h, vert, horz);
    ResolveAllLength(vert);
    ResolveAllLength(horz);
    var g2 := FromFlat(w, h, ResolveAll(vert), ResolveAll(horz));
    var r := ResolveGrid(g);
    ResolveGridDefines(g);
    forall a, b | 0 <= a < w - 1 && 0 <= b < h
      ensures g2.vert[a][b] == r.vert[a][b]
    {
      FromFlatRight(w, h, vert, horz, a, b);
      FromFlatRight(w, h, ResolveAll(vert), ResolveAll(horz), a, b);
      ResolveAllAt(vert, RightIndex(w, h, a, b));
      assert r.vert[a][b] == Right(r, a, b);
    }
    forall a, b | 0 <= a < w && 0 <= b < h - 1
      ensures g2.horz[a][b] == r.horz[a][b]
    {
      FromFlatBottom(w, h, vert, horz, a, b);
      FromFlatBottom(w, h, ResolveAll(vert), ResolveAll(horz), a, b);
      ResolveAllAt(horz, BottomIndex(w, h, a, b));
      assert r.horz[a][b] == Bottom(r, a, b);
    }
    assert forall a | 0 <= a < w - 1 :: g2.vert[a] == r.vert[a];
    assert forall a | 0 <= a < w :: g2.horz[a] == r.horz[a];
  }

  /** Arrays that hold Undefined everywhere give a fresh snapshot. */
  lemma FromFlatUndefined(w: int, h: int, vert: seq<State>, horz: seq<State>)
    requires FlatValid(w, h, vert, horz)
    requires forall k :: 0 <= k < |vert| ==> vert[k] == Undefined
    requires forall k :: 0 <= k < |horz| ==> horz[k] == Undefined
    ensures AllUndefined(FromFlat(w, h, vert, horz))
  {
    forall a, b | 0 <= a < w - 1 && 0 <= b < h
      ensures Right(FromFlat(w, h, vert, horz), a, b) == Undefined
    {
      FromFlatRight(w, h, vert, horz, a, b);
    }
    forall a, b | 0 <= a < w && 0 <= b < h - 1
      ensures Bottom(FromFlat(w, h, vert, horz), a, b) == Undefined
    {
      FromFlatBottom(w, h, vert, horz, a, b);
    }
  }

  /** The position of cell (i, j) in a w-by-h array of per-cell flags. */
  function CellIndex(w: int, h: int, i: int, j: int): (k: int)
    requires 0 <= i < w && 0 <= j < h
    ensures 0 <= k < w * h
  {
    RowMajorBound(w, h, i, j);
    i + w * j
  }

  /** Distinct cells have distinct flags. */
  lemma CellIndexInjective(w: int, h: int, i: int, j: int, i2: int, j2: int)
    requires 0 <= i < w && 0 <= j < h && 0 <= i2 < w && 0 <= j2 < h
    ensures CellIndex(w, h, i, j) == CellIndex(w, h, i2, j2) ==> i == i2 && j == j2
  {
    if CellIndex(w, h, i, j) == CellIndex(w, h, i2, j2) {
      RowMajorInjective(w, i, j, i2, j2);
    }
  }

  /** Every position of a w*h array of per-cell flags belongs to a cell. */
  lemma CellOf(w: int, h: int, k: int) returns (i: int, j: int)
    requires w >= 1 && 0 <= k < w * h
    ensures 0 <= i < w && 0 <= j < h && CellIndex(w, h, i, j) == k
  {
    i, j := k % w, k / w;
    assert k == i + w * j;
    if j >= h {
      MulLeftMono(w, h, j);
      assert false;
    }
  }
}
