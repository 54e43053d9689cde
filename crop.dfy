/** `CropImage`: copies the region between two corners into a new raster whose
    rectangle starts at (1, 1). */
module Crop {
  import opened Image

  /** The new raster covers [1, maxP.x - minP.x) x [1, maxP.y - minP.y) and holds, at
      (i, j), the base colour at (minP.x + i, minP.y + j). The loops visit column
      offset 0 and row offset maxP.y - minP.y as well, but those points lie outside
      the new rectangle, so those writes are dropped. Allocation fails when a side
      of the new rectangle would be negative. */
  method CropImage(base: Raster, minP: Point, maxP: Point) returns (res: Result<Raster>)
    requires base.Valid()
    ensures res.Failure? <==> maxP.x - minP.x < 1 || maxP.y - minP.y < 1
    ensures res.Success? ==>
      var out := res.value;
      fresh(out) && fresh(out.pix) && out.Valid() &&
      out.min == Point(1, 1) && out.max == Point(maxP.x - minP.x, maxP.y - minP.y) &&
      forall i, j :: out.In(i, j) ==> out.At(i, j) == base.At(minP.x + i, minP.y + j)
  {
    var dst := NewRaster(Point(1, 1), Point(maxP.x - minP.x, maxP.y - minP.y));
    if dst.Failure? {
      return dst;
    }
    var out := dst.value;
    var x := minP.x;
    while x < maxP.x
      invariant minP.x <= x <= maxP.x
      invariant fresh(out.pix) && out.Valid()
      invariant forall i, j :: out.In(i, j) ==>
        out.At(i, j) == if minP.x + i < x then base.At(minP.x + i, minP.y + j) else Transparent
    {
      var y := minP.y;
      while y <= maxP.y
        invariant minP.y <= y <= maxP.y + 1
        invariant forall i, j :: out.In(i, j) ==>
          out.At(i, j) ==
            if minP.x + i < x || (minP.x + i == x && minP.y + j < y)
            then base.At(minP.x + i, minP.y + j) else Transparent
      {
        out.Set(x - minP.x, y - minP.y, base.At(x, y));
        y := y + 1;
      }
      x := x + 1;
    }
    res := Success(out);
  }
}
