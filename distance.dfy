/** `EuclideanDistance`, as the integer sum of squares it takes the square root of.
    The channel differences are Go uint32 subtractions, which wrap modulo 2^32, so
    the sum is not symmetric in its two images. */
module Distance {
  import opened Image

  const Modulus32 := 0x1_0000_0000

  /** The uint32 difference `a - b` of two channel values. */
  function WrapSub(a: Channel, b: Channel): (d: int)
    ensures 0 <= d < Modulus32
    ensures d == 0 <==> a == b
    ensures a >= b ==> d == a - b
    ensures a < b ==> d == Modulus32 - (b - a)
  {
    (a - b) % Modulus32
  }

  /** The squared (wrapped) differences of the four channels of two colours. */
  function PixelCost(p: Color, q: Color): (c: nat)
    ensures c == 0 <==> p == q
  {
    var dr, dg, db, da := WrapSub(p.r, q.r), WrapSub(p.g, q.g), WrapSub(p.b, q.b), WrapSub(p.a, q.a);
    dr * dr + dg * dg + db * db + da * da
  }

  /** The wrap-around makes the cost depend on the order of the colours: two
      premultiplied colours of alpha 1 whose red channels are one step apart cost 1
      one way and (2^32 - 1)^2 the other way. */
  lemma PixelCostAsymmetric()
    ensures PixelCost(Color(1, 0, 0, 1), Color(0, 0, 0, 1)) == 1
    ensures PixelCost(Color(0, 0, 0, 1), Color(1, 0, 0, 1)) == (Modulus32 - 1) * (Modulus32 - 1)
  {}

  /** The cost of column `x`, rows 1 .. y - 1. */
  function ColumnCost(base: Raster, other: Raster, x: int, y: int): (c: nat)
    requires base.Valid() && other.Valid()
    reads base.pix, other.pix
    decreases y
  {
    if y <= 1 then 0
    else ColumnCost(base, other, x, y - 1) + PixelCost(base.At(x, y - 1), other.At(x, y - 1))
  }

  /** The cost of columns 1 .. x - 1, rows 1 .. h - 1. */
  function GridCost(base: Raster, other: Raster, x: int, h: int): (c: nat)
    requires base.Valid() && other.Valid()
    reads base.pix, other.pix
    decreases x
  {
    if x <= 1 then 0
    else GridCost(base, other, x - 1, h) + ColumnCost(base, other, x - 1, h)
  }

  /** The squared distance: the costs of the points 1 <= x < base.max.x, 1 <= y < base.max.y. */
  function SquaredDistance(base: Raster, other: Raster): (sum: nat)
    requires base.Valid() && other.Valid()
    reads base.pix, other.pix
  {
    GridCost(base, other, base.max.x, base.max.y)
  }

  /** The two images agree on columns 1 .. x - 1, rows 1 .. h - 1. */
  ghost predicate AgreeOn(base: Raster, other: Raster, x: int, h: int)
    requires base.Valid() && other.Valid()
    reads base.pix, other.pix
  {
    forall i, j :: 1 <= i < x && 1 <= j < h ==> base.At(i, j) == other.At(i, j)
  }

  lemma {:induction false} ColumnCostZero(base: Raster, other: Raster, x: int, y: int)
    requires base.Valid() && other.Valid()
    ensures ColumnCost(base, other, x, y) == 0 <==>
      forall j :: 1 <= j < y ==> base.At(x, j) == other.At(x, j)
    decreases y
  {
    if y > 1 {
      ColumnCostZero(base, other, x, y - 1);
    }
  }

  lemma {:induction false} GridCostZero(base: Raster, other: Raster, x: int, h: int)
    requires base.Valid() && other.Valid()
    ensures GridCost(base, other, x, h) == 0 <==> AgreeOn(base, other, x, h)
    decreases x
  {
    if x > 1 {
      GridCostZero(base, other, x - 1, h);
      ColumnCostZero(base, other, x - 1, h);
    }
  }

  /** The squared distance is 0 exactly when the images agree on every point it covers. */
  lemma DistanceZeroIff(base: Raster, other: Raster)
    requires base.Valid() && other.Valid()
    ensures SquaredDistance(base, other) == 0 <==> AgreeOn(base, other, base.max.x, base.max.y)
  {
    GridCostZero(base, other, base.max.x, base.max.y);
  }

  /** An image is at distance 0 from itself. */
  lemma DistanceSelf(img: Raster)
    requires img.Valid()
    ensures SquaredDistance(img, img) == 0
  {
    DistanceZeroIff(img, img);
  }

  lemma {:induction false} ColumnCostCovers(base: Raster, other: Raster, x: int, y: int, j: int)
    requires base.Valid() && other.Valid() && 1 <= j < y
    ensures PixelCost(base.At(x, j), other.At(x, j)) <= ColumnCost(base, other, x, y)
    decreases y
  {
    if j < y - 1 {
      ColumnCostCovers(base, other, x, y - 1, j);
    }
  }

  lemma {:induction false} GridCostCovers(base: Raster, other: Raster, x: int, h: int, i: int, j: int)
    requires base.Valid() && other.Valid() && 1 <= i < x && 1 <= j < h
    ensures PixelCost(base.At(i, j), other.At(i, j)) <= GridCost(base, other, x, h)
    decreases x
  {
    if i < x - 1 {
      GridCostCovers(base, other, x - 1, h, i, j);
    } else {
      ColumnCostCovers(base, other, i, h, j);
    }
  }

  /** Every point 1 <= x < base.max.x, 1 <= y < base.max.y adds its cost to the sum. */
  lemma DistanceCoversPixel(base: Raster, other: Raster, x: int, y: int)
    requires base.Valid() && other.Valid()
    requires 1 <= x < base.max.x && 1 <= y < base.max.y
    ensures PixelCost(base.At(x, y), other.At(x, y)) <= SquaredDistance(base, other)
  {
    GridCostCovers(base, other, base.max.x, base.max.y, x, y);
  }

  lemma {:induction false} ColumnCostLocal(base: Raster, other: Raster, other': Raster, x: int, y: int)
    requires base.Valid() && other.Valid() && other'.Valid()
    requires forall j :: 1 <= j < y ==> other.At(x, j) == other'.At(x, j)
    ensures ColumnCost(base, other, x, y) == ColumnCost(base, other', x, y)
    decreases y
  {
    if y > 1 {
      ColumnCostLocal(base, other, other', x, y - 1);
    }
  }

  lemma {:induction false} GridCostLocal(base: Raster, other: Raster, other': Raster, x: int, h: int)
    requires base.Valid() && other.Valid() && other'.Valid()
    requires AgreeOn(other, other', x, h)
    ensures GridCost(base, other, x, h) == GridCost(base, other', x, h)
    decreases x
  {
    if x > 1 {
      assert AgreeOn(other, other', x - 1, h);
      GridCostLocal(base, other, other', x - 1, h);
      ColumnCostLocal(base, other, other', x - 1, h);
    }
  }

  /** No other point counts: two images that agree on the covered points are at the
      same distance from `base`, whatever their sizes. */
  lemma DistanceOnlyCovered(base: Raster, other: Raster, other': Raster)
    requires base.Valid() && other.Valid() && other'.Valid()
    requires AgreeOn(other, other', base.max.x, base.max.y)
    ensures SquaredDistance(base, other) == SquaredDistance(base, other')
  {
    GridCostLocal(base, other, other', base.max.x, base.max.y);
  }

  /** main.go:94-114 without the final square root: the nested loops accumulate the
      squared distance. */
  method EuclideanDistance(base: Raster, other: Raster) returns (sum: nat)
    requires base.Valid() && other.Valid()
    ensures sum == SquaredDistance(base, other)
  {
    var maxPoint := base.max;
    sum := 0;
    var x := 1;
    while x < maxPoint.x
      invariant 1 <= x && (x <= maxPoint.x || x == 1)
      invariant sum == GridCost(base, other, x, maxPoint.y)
    {
      var y := 1;
      while y < maxPoint.y
        invariant 1 <= y && (y <= maxPoint.y || y == 1)
        invariant sum == GridCost(base, other, x, maxPoint.y) + ColumnCost(base, other, x, y)
      {
        var b, c := base.At(x, y), other.At(x, y);
        sum := sum + PixelCost(b, c);
        y := y + 1;
      }
      x := x + 1;
    }
  }
}
