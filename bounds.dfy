/** `GetImageBounds`: the corners of the region whose colour differs from the colour
    at (0, 0). The four accumulators start at 0 and 0 also stands for "nothing seen
    yet", so a foreground coordinate equal to 0 can be overwritten later. The model
    keeps that behaviour; the lemmas below give conditions under which the result is
    the true bounding box and show inputs where it is not. */
module Bounds {
  import opened Image

  // ---------------------------------------------------------------------------
  // The accumulators, one value at a time

  /** The update of minX and minY: take `v` when nothing is kept (0) or when it is smaller. */
  function KeepMin(cur: int, v: int): (kept: int) {
    if cur == 0 || v < cur then v else cur
  }

  /** The update of maxX and maxY: take `v` when nothing is kept (0) or when it is larger. */
  function KeepMax(cur: int, v: int): (kept: int) {
    if cur == 0 || v > cur then v else cur
  }

  /** The minimum accumulator after seeing the values `vs` in order, starting from 0. */
  function RunMin(vs: seq<int>): (m: int)
    decreases |vs|
  {
    if vs == [] then 0 else KeepMin(RunMin(vs[..|vs| - 1]), vs[|vs| - 1])
  }

  /** The maximum accumulator after seeing the values `vs` in order, starting from 0. */
  function RunMax(vs: seq<int>): (m: int)
    decreases |vs|
  {
    if vs == [] then 0 else KeepMax(RunMax(vs[..|vs| - 1]), vs[|vs| - 1])
  }

  predicate Sorted(vs: seq<int>) {
    forall i, j :: 0 <= i < j < |vs| ==> vs[i] <= vs[j]
  }

  lemma RunMinSnoc(vs: seq<int>, v: int)
    ensures RunMin(vs + [v]) == KeepMin(RunMin(vs), v)
  {
    assert (vs + [v])[..|vs|] == vs;
  }

  lemma RunMaxSnoc(vs: seq<int>, v: int)
    ensures RunMax(vs + [v]) == KeepMax(RunMax(vs), v)
  {
    assert (vs + [v])[..|vs|] == vs;
  }

  /** Each accumulator holds 0 before any value is seen, and one of the values it
      has seen after that. */
  lemma {:induction false} RunValuesSeen(vs: seq<int>)
    ensures vs == [] ==> RunMin(vs) == 0 && RunMax(vs) == 0
    ensures vs != [] ==> RunMin(vs) in vs && RunMax(vs) in vs
  {
    if vs != [] {
      var w := vs[..|vs| - 1];
      RunValuesSeen(w);
      assert forall v :: v in w ==> v in vs;
    }
  }

  /** Over values in non-decreasing order (the x coordinates in scan order) the
      maximum accumulator ends on the last, largest value: 0 never loses it. */
  lemma {:induction false} RunMaxSorted(vs: seq<int>)
    requires Sorted(vs) && vs != []
    ensures RunMax(vs) == vs[|vs| - 1]
  {
    var n := |vs|;
    if n > 1 {
      var w := vs[..n - 1];
      RunMaxSorted(w);
      assert RunMax(w) == vs[n - 2] <= vs[n - 1];
    }
  }

  /** Over values in non-decreasing order the minimum accumulator ends on the least
      NON-ZERO value, or on 0 when every value is 0: a 0 is always overwritten by the
      next value. */
  lemma {:induction false} RunMinSorted(vs: seq<int>)
    requires Sorted(vs)
    ensures (forall v :: v in vs ==> v == 0) ==> RunMin(vs) == 0
    ensures (exists v :: v in vs && v != 0) ==>
      RunMin(vs) != 0 && RunMin(vs) in vs && forall v :: v in vs && v != 0 ==> RunMin(vs) <= v
  {
    if exists v :: v in vs && v != 0 {
      RunMinSortedNonZero(vs);
    } else {
      RunMinAllZero(vs);
    }
  }

  lemma {:induction false} RunMinAllZero(vs: seq<int>)
    requires forall v :: v in vs ==> v == 0
    ensures RunMin(vs) == 0
  {
    if vs != [] {
      var w := vs[..|vs| - 1];
      assert forall v :: v in w ==> v in vs;
      RunMinAllZero(w);
      assert vs[|vs| - 1] in vs;
    }
  }

  lemma {:induction false} RunMinSortedNonZero(vs: seq<int>)
    requires Sorted(vs) && exists v :: v in vs && v != 0
    ensures RunMin(vs) != 0 && RunMin(vs) in vs && forall v :: v in vs && v != 0 ==> RunMin(vs) <= v
  {
    var n := |vs|;
    var w, last := vs[..n - 1], vs[n - 1];
    assert vs == w + [last];
    RunMinSnoc(w, last);
    if exists v :: v in w && v != 0 {
      assert Sorted(w);
      RunMinSortedNonZero(w);
      var m := RunMin(w);
      var i :| 0 <= i < n - 1 && w[i] == m;
      assert m <= last by { assert vs[i] <= vs[n - 1]; }
      assert RunMin(vs) == m;
      assert m in vs by { assert vs[i] == m; }
      forall v | v in vs && v != 0 ensures m <= v {
        if v != last {
          assert v in w;
        }
      }
    } else {
      RunMinAllZero(w);
      assert RunMin(vs) == last;
      forall v | v in vs && v != 0 ensures v == last {
        assert v in w || v == last;
      }
    }
  }

  /** When no value is 0 the minimum accumulator is the true minimum (0 when empty). */
  lemma {:induction false} RunMinNoZero(vs: seq<int>)
    requires 0 !in vs
    ensures vs == [] ==> RunMin(vs) == 0
    ensures vs != [] ==> RunMin(vs) in vs && forall v :: v in vs ==> RunMin(vs) <= v
  {
    var n := |vs|;
    if n > 1 {
      var w := vs[..n - 1];
      assert vs == w + [vs[n - 1]];
      RunMinNoZero(w);
    }
  }

  /** When no value is 0, or no value is negative, the maximum accumulator is the
      true maximum (0 when empty). */
  lemma {:induction false} RunMaxExact(vs: seq<int>)
    requires 0 !in vs || forall v :: v in vs ==> v >= 0
    ensures vs == [] ==> RunMax(vs) == 0
    ensures vs != [] ==> RunMax(vs) in vs && forall v :: v in vs ==> v <= RunMax(vs)
  {
    var n := |vs|;
    if n > 1 {
      var w := vs[..n - 1];
      assert vs == w + [vs[n - 1]];
      assert forall v :: v in w ==> v in vs;
      RunMaxExact(w);
    }
  }

  /** A 0 in the middle wipes out a smaller value seen before it: after 1, 0, 2 the
      minimum accumulator holds 2. */
  lemma RunMinLosesMinimum()
    ensures RunMin([1, 0, 2]) == 2
  {
    assert [1, 0, 2][..2] == [1, 0];
    assert [1, 0][..1] == [1];
  }

  // ---------------------------------------------------------------------------
  // The scan over the image

  /** A pixel of the rectangle whose colour differs from the colour at (0, 0). */
  predicate Foreground(img: Raster, x: int, y: int)
    requires img.Valid()
    reads img.pix
  {
    img.In(x, y) && img.At(x, y) != img.At(0, 0)
  }

  ghost predicate HasForeground(img: Raster)
    requires img.Valid()
    reads img.pix
  {
    exists x, y :: Foreground(img, x, y)
  }

  /** The foreground points of column `x` in rows img.min.y .. y - 1, in scan order. */
  function ColumnScan(img: Raster, x: int, y: int): (s: seq<Point>)
    requires img.Valid()
    reads img.pix
    decreases y - img.min.y
  {
    if y <= img.min.y then []
    else ColumnScan(img, x, y - 1) + (if Foreground(img, x, y - 1) then [Point(x, y - 1)] else [])
  }

  /** The foreground points of columns img.min.x .. x - 1, column by column and each
      column from top to bottom, the order of the nested loops. */
  function Scan(img: Raster, x: int): (s: seq<Point>)
    requires img.Valid()
    reads img.pix
    decreases x - img.min.x
  {
    if x <= img.min.x then []
    else Scan(img, x - 1) + ColumnScan(img, x - 1, img.max.y)
  }

  function Xs(s: seq<Point>): (r: seq<int>)
    ensures |r| == |s| && forall i :: 0 <= i < |s| ==> r[i] == s[i].x
  {
    seq(|s|, i requires 0 <= i < |s| => s[i].x)
  }

  function Ys(s: seq<Point>): (r: seq<int>)
    ensures |r| == |s| && forall i :: 0 <= i < |s| ==> r[i] == s[i].y
  {
    seq(|s|, i requires 0 <= i < |s| => s[i].y)
  }

  /** The corners the four accumulators hold after seeing the points `s` in order. */
  function Fold(s: seq<Point>): (corners: (Point, Point)) {
    (Point(RunMin(Xs(s)), RunMin(Ys(s))), Point(RunMax(Xs(s)), RunMax(Ys(s))))
  }

  /** The corners the accumulators end on: each is the fold of its update over the
      foreground points in scan order. */
  function ImageBounds(img: Raster): (corners: (Point, Point))
    requires img.Valid()
    reads img.pix
  {
    Fold(Scan(img, img.max.x))
  }

  lemma FoldSnoc(s: seq<Point>, p: Point)
    ensures Fold(s + [p]) ==
      (Point(KeepMin(Fold(s).0.x, p.x), KeepMin(Fold(s).0.y, p.y)),
       Point(KeepMax(Fold(s).1.x, p.x), KeepMax(Fold(s).1.y, p.y)))
  {
    assert Xs(s + [p]) == Xs(s) + [p.x];
    assert Ys(s + [p]) == Ys(s) + [p.y];
    RunMinSnoc(Xs(s), p.x);
    RunMaxSnoc(Xs(s), p.x);
    RunMinSnoc(Ys(s), p.y);
    RunMaxSnoc(Ys(s), p.y);
  }

  /** One more row of column `x` adds that point when it is foreground. */
  lemma ScanStep(img: Raster, x: int, y: int)
    requires img.Valid() && img.min.y <= y
    ensures Scan(img, x) + ColumnScan(img, x, y + 1) ==
      Scan(img, x) + ColumnScan(img, x, y) + (if Foreground(img, x, y) then [Point(x, y)] else [])
  {}

  lemma {:induction false} ColumnScanMembers(img: Raster, x: int, y: int)
    requires img.Valid()
    ensures forall p :: p in ColumnScan(img, x, y) <==> p.x == x && p.y < y && Foreground(img, p.x, p.y)
    decreases y - img.min.y
  {
    if y > img.min.y {
      ColumnScanMembers(img, x, y - 1);
    }
  }

  /** The scan lists exactly the foreground points left of column `x`. */
  lemma {:induction false} ScanMembers(img: Raster, x: int)
    requires img.Valid()
    ensures forall p :: p in Scan(img, x) <==> p.x < x && Foreground(img, p.x, p.y)
    decreases x - img.min.x
  {
    if x > img.min.x {
      ScanMembers(img, x - 1);
      ColumnScanMembers(img, x - 1, img.max.y);
    }
  }

  /** The scan visits columns left to right. */
  lemma {:induction false} ScanSortedByX(img: Raster, x: int)
    requires img.Valid()
    ensures Sorted(Xs(Scan(img, x)))
    decreases x - img.min.x
  {
    if x > img.min.x {
      var a, c := Scan(img, x - 1), ColumnScan(img, x - 1, img.max.y);
      ScanSortedByX(img, x - 1);
      ScanMembers(img, x - 1);
      ColumnScanMembers(img, x - 1, img.max.y);
      var s := a + c;
      forall i, j | 0 <= i < j < |s| ensures s[i].x <= s[j].x {
        if j >= |a| {
          assert s[j] in c;
          if i < |a| { assert s[i] in a; } else { assert s[i] in c; }
        } else {
          assert Xs(a)[i] <= Xs(a)[j];
        }
      }
    }
  }

  /** A value is an x (a y) of the scan exactly when a foreground pixel has it. */
  lemma ScanCoordinates(img: Raster)
    requires img.Valid()
    ensures forall v :: v in Xs(Scan(img, img.max.x)) <==> exists y :: Foreground(img, v, y)
    ensures forall v :: v in Ys(Scan(img, img.max.x)) <==> exists x :: Foreground(img, x, v)
  {
    var s := Scan(img, img.max.x);
    ScanMembers(img, img.max.x);
    forall v ensures v in Xs(s) <==> exists y :: Foreground(img, v, y) {
      if v in Xs(s) {
        var i :| 0 <= i < |s| && Xs(s)[i] == v;
        assert Foreground(img, v, s[i].y);
      }
      if exists y :: Foreground(img, v, y) {
        var y :| Foreground(img, v, y);
        var i :| 0 <= i < |s| && s[i] == Point(v, y);
        assert Xs(s)[i] == v;
      }
    }
    forall v ensures v in Ys(s) <==> exists x :: Foreground(img, x, v) {
      if v in Ys(s) {
        var i :| 0 <= i < |s| && Ys(s)[i] == v;
        assert Foreground(img, s[i].x, v);
      }
      if exists x :: Foreground(img, x, v) {
        var x :| Foreground(img, x, v);
        var i :| 0 <= i < |s| && s[i] == Point(x, v);
        assert Ys(s)[i] == v;
      }
    }
  }

  // ---------------------------------------------------------------------------
  // What the returned corners mean

  /** maxX is the largest x of any foreground pixel, and 0 on a blank image. maxY is
      the largest y of any foreground pixel whenever no row is negative or no
      foreground pixel lies in row 0. */
  lemma BoundsMax(img: Raster)
    requires img.Valid()
    ensures var (_, hi) := ImageBounds(img);
      (!HasForeground(img) ==> hi == Point(0, 0)) &&
      (forall x, y :: Foreground(img, x, y) ==> x <= hi.x) &&
      (HasForeground(img) ==> exists y :: Foreground(img, hi.x, y))
    ensures var (_, hi) := ImageBounds(img);
      (img.min.y >= 0 || forall x :: !Foreground(img, x, 0)) ==>
        (forall x, y :: Foreground(img, x, y) ==> y <= hi.y) &&
        (HasForeground(img) ==> exists x :: Foreground(img, x, hi.y))
  {
    var s := Scan(img, img.max.x);
    ScanMembers(img, img.max.x);
    ScanCoordinates(img);
    ScanSortedByX(img, img.max.x);
    if HasForeground(img) {
      var x, y :| Foreground(img, x, y);
      assert Point(x, y) in s;
    }
    if s != [] {
      RunMaxSorted(Xs(s));
      var last := s[|s| - 1];
      assert Foreground(img, last.x, last.y) by { assert last in s; }
      forall x, y | Foreground(img, x, y) ensures x <= last.x {
        var i :| 0 <= i < |s| && s[i] == Point(x, y);
        assert Xs(s)[i] <= Xs(s)[|s| - 1];
      }
    }
    if img.min.y >= 0 || forall x :: !Foreground(img, x, 0) {
      RunMaxExact(Ys(s));
      if s != [] {
        var m := RunMax(Ys(s));
        assert exists x :: Foreground(img, x, m);
        forall x, y | Foreground(img, x, y) ensures y <= m {
          assert y in Ys(s);
        }
      }
    }
  }

  /** minX is the least non-zero x of any foreground pixel, or 0 when there is none:
      foreground in column 0 is overwritten. When no foreground pixel lies in row 0,
      minY is the least y of any foreground pixel (0 on a blank image). */
  lemma BoundsMin(img: Raster)
    requires img.Valid()
    ensures var (lo, _) := ImageBounds(img);
      ((forall x, y :: Foreground(img, x, y) ==> x == 0) ==> lo.x == 0) &&
      ((exists x, y :: Foreground(img, x, y) && x != 0) ==>
         lo.x != 0 && (exists y :: Foreground(img, lo.x, y)) &&
         forall x, y :: Foreground(img, x, y) && x != 0 ==> lo.x <= x)
    ensures var (lo, _) := ImageBounds(img);
      (forall x :: !Foreground(img, x, 0)) ==>
        (!HasForeground(img) ==> lo.y == 0) &&
        (HasForeground(img) ==>
           (exists x :: Foreground(img, x, lo.y)) && forall x, y :: Foreground(img, x, y) ==> lo.y <= y)
  {
    var s := Scan(img, img.max.x);
    ScanMembers(img, img.max.x);
    ScanCoordinates(img);
    ScanSortedByX(img, img.max.x);
    RunMinSorted(Xs(s));
    var mx := RunMin(Xs(s));
    if exists x, y :: Foreground(img, x, y) && x != 0 {
      var x, y :| Foreground(img, x, y) && x != 0;
      assert x in Xs(s);
      forall x, y | Foreground(img, x, y) && x != 0 ensures mx <= x {
        assert x in Xs(s);
      }
    } else {
      forall v | v in Xs(s) ensures v == 0 {
        var y :| Foreground(img, v, y);
      }
    }
    if forall x :: !Foreground(img, x, 0) {
      RunMinNoZero(Ys(s));
      if HasForeground(img) {
        var x, y :| Foreground(img, x, y);
        assert y in Ys(s);
        forall x, y | Foreground(img, x, y) ensures RunMin(Ys(s)) <= y {
          assert y in Ys(s);
        }
      }
      if Ys(s) != [] {
        assert Ys(s)[0] in Ys(s);
      }
    }
  }

  /** On a blank image both corners are (0, 0); otherwise every returned coordinate
      is the coordinate of some foreground pixel, so it lies inside the image's
      rectangle on its axis. */
  lemma BoundsInRange(img: Raster)
    requires img.Valid()
    ensures !HasForeground(img) ==> ImageBounds(img) == (Point(0, 0), Point(0, 0))
    ensures var (lo, hi) := ImageBounds(img);
      HasForeground(img) ==>
        img.min.x <= lo.x < img.max.x && img.min.x <= hi.x < img.max.x &&
        img.min.y <= lo.y < img.max.y && img.min.y <= hi.y < img.max.y
  {
    var s := Scan(img, img.max.x);
    ScanMembers(img, img.max.x);
    ScanCoordinates(img);
    RunValuesSeen(Xs(s));
    RunValuesSeen(Ys(s));
    if HasForeground(img) {
      var x, y :| Foreground(img, x, y);
      assert Point(x, y) in s;
      assert s != [] && Xs(s) != [] && Ys(s) != [];
      var (lo, hi) := ImageBounds(img);
      var y0 :| Foreground(img, lo.x, y0);
      var y1 :| Foreground(img, hi.x, y1);
      var x0 :| Foreground(img, x0, lo.y);
      var x1 :| Foreground(img, x1, hi.y);
    }
    if s != [] {
      assert s[0] in s;
    }
  }

  /** Foreground in column 0 is dropped: on a 3 x 2 image whose foreground is (0, 1)
      and (2, 1), minX is 2, so the returned box leaves out the pixel at (0, 1). */
  lemma ColumnZeroOverwritten(img: Raster)
    requires img.Valid() && img.min == Point(0, 0) && img.max == Point(3, 2)
    requires forall x, y :: Foreground(img, x, y) <==> (x == 0 || x == 2) && y == 1
    ensures ImageBounds(img).0.x == 2
  {
    assert !Foreground(img, 0, 0) && Foreground(img, 0, 1);
    assert !Foreground(img, 1, 0) && !Foreground(img, 1, 1);
    assert !Foreground(img, 2, 0) && Foreground(img, 2, 1);
    assert ColumnScan(img, 0, 2) == [Point(0, 1)] by {
      assert ColumnScan(img, 0, 1) == [];
    }
    assert ColumnScan(img, 1, 2) == [] by {
      assert ColumnScan(img, 1, 1) == [];
    }
    assert ColumnScan(img, 2, 2) == [Point(2, 1)] by {
      assert ColumnScan(img, 2, 1) == [];
    }
    assert Scan(img, 3) == [Point(0, 1), Point(2, 1)] by {
      assert Scan(img, 1) == [Point(0, 1)];
      assert Scan(img, 2) == [Point(0, 1)];
    }
    var xs := Xs(Scan(img, 3));
    assert xs == [0, 2];
    assert xs[..1] == [0] && [0][..0] == [];
    assert RunMin([0]) == 0;
    assert RunMin(xs) == KeepMin(RunMin([0]), 2);
  }

  /** A 0 in row 0 wipes out a smaller row seen before it: on a 3 x 3 image whose
      foreground is (1, 1), (2, 0) and (2, 2), minY is 2, so the returned box leaves
      out rows 0 and 1. */
  lemma RowZeroOverwritten(img: Raster)
    requires img.Valid() && img.min == Point(0, 0) && img.max == Point(3, 3)
    requires forall x, y :: Foreground(img, x, y) <==> (x == 1 && y == 1) || (x == 2 && (y == 0 || y == 2))
    ensures ImageBounds(img).0.y == 2
  {
    assert !Foreground(img, 0, 0) && !Foreground(img, 0, 1) && !Foreground(img, 0, 2);
    assert !Foreground(img, 1, 0) && Foreground(img, 1, 1) && !Foreground(img, 1, 2);
    assert Foreground(img, 2, 0) && !Foreground(img, 2, 1) && Foreground(img, 2, 2);
    assert ColumnScan(img, 0, 3) == [] by {
      assert ColumnScan(img, 0, 1) == [];
      assert ColumnScan(img, 0, 2) == [];
    }
    assert ColumnScan(img, 1, 3) == [Point(1, 1)] by {
      assert ColumnScan(img, 1, 1) == [];
      assert ColumnScan(img, 1, 2) == [Point(1, 1)];
    }
    assert ColumnScan(img, 2, 3) == [Point(2, 0), Point(2, 2)] by {
      assert ColumnScan(img, 2, 1) == [Point(2, 0)];
      assert ColumnScan(img, 2, 2) == [Point(2, 0)];
    }
    assert Scan(img, 3) == [Point(1, 1), Point(2, 0), Point(2, 2)] by {
      assert Scan(img, 1) == [];
      assert Scan(img, 2) == [Point(1, 1)];
    }
    assert Ys(Scan(img, 3)) == [1, 0, 2];
    RunMinLosesMinimum();
  }

  // ---------------------------------------------------------------------------
  // The nested loops

  /** main.go:63-91. The returned corners are the accumulators' fold over the
      foreground points in scan order; BoundsMax, BoundsMin and BoundsInRange say
      what they mean. */
  method GetImageBounds(img: Raster) returns (minPoint: Point, maxPoint: Point)
    requires img.Valid()
    ensures (minPoint, maxPoint) == ImageBounds(img)
  {
    var minX, maxX, minY, maxY := 0, 0, 0, 0;
    var predominantColor := img.At(0, 0);
    var x := img.min.x;
    while x < img.max.x
      invariant img.min.x <= x <= img.max.x
      invariant (Point(minX, minY), Point(maxX, maxY)) == Fold(Scan(img, x))
    {
      var y := img.min.y;
      assert Scan(img, x) + ColumnScan(img, x, y) == Scan(img, x);
      while y < img.max.y
        invariant img.min.y <= y <= img.max.y
        invariant (Point(minX, minY), Point(maxX, maxY)) == Fold(Scan(img, x) + ColumnScan(img, x, y))
      {
        ghost var s := Scan(img, x) + ColumnScan(img, x, y);
        ScanStep(img, x, y);
        if img.At(x, y) != predominantColor {
          FoldSnoc(s, Point(x, y));
          if minX == 0 || x < minX {
            minX := x;
          }
          if maxX == 0 || x > maxX {
            maxX := x;
          }
          if minY == 0 || y < minY {
            minY := y;
          }
          if maxY == 0 || y > maxY {
            maxY := y;
          }
        } else {
          assert s + [] == s;
        }
        y := y + 1;
      }
      x := x + 1;
    }
    minPoint, maxPoint := Point(minX, minY), Point(maxX, maxY);
  }
}
