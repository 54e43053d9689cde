/** `ResizeImage`: nearest-point resampling onto a raster over [1, width) x [1, height).
    The source calls it bilinear; it reads exactly one source pixel per target pixel. */
module Resize {
  import opened Image

  /** The source coordinate read for target coordinate `x`: the ratio srcMax / size
      times `x`, truncated toward zero as Go's int conversion does. */
  function SampleIndex(x: int, srcMax: int, size: int): (idx: int)
    requires size > 0
  {
    var p := x * srcMax;
    if p >= 0 then p / size else -((-p) / size)
  }

  /** For non-negative operands the sample is the floor of x * srcMax / size. */
  lemma SampleIndexIsFloor(x: int, srcMax: int, size: int)
    requires size > 0 && x >= 0 && srcMax >= 0
    ensures var k := SampleIndex(x, srcMax, size);
      0 <= k && k * size <= x * srcMax < (k + 1) * size
  {
    var p := x * srcMax;
    assert p >= 0 by { MulNonneg(x, srcMax); }
    var k := p / size;
    assert p == k * size + p % size;
  }

  /** Every target coordinate 0 <= x < size reads a source coordinate in [0, srcMax). */
  lemma SampleIndexInRange(x: int, srcMax: int, size: int)
    requires size > 0 && 0 <= x < size && srcMax > 0
    ensures 0 <= SampleIndex(x, srcMax, size) < srcMax
  {
    var k := SampleIndex(x, srcMax, size);
    SampleIndexIsFloor(x, srcMax, size);
    assert x * srcMax < size * srcMax by { MulStrict(x, size, srcMax); }
    if k >= srcMax {
      assert (k + 1) * size > srcMax * size by { MulStrict(srcMax, k + 1, size); }
      assert false;
    }
  }

  /** Resampling onto the source's own size reads every coordinate back unchanged. */
  lemma SampleIndexSameSize(x: int, size: int)
    requires size > 0
    ensures SampleIndex(x, size, size) == x
  {
    var p := x * size;
    if p >= 0 {
      assert p / size == x by { DivExact(x, size); }
    } else {
      assert (-p) / size == -x by { DivExact(-x, size); }
    }
  }

  /** Sampling never reverses the order of two non-negative target coordinates. */
  lemma SampleIndexMonotone(x: int, x': int, srcMax: int, size: int)
    requires size > 0 && 0 <= x <= x' && srcMax >= 0
    ensures SampleIndex(x, srcMax, size) <= SampleIndex(x', srcMax, size)
  {
    var k, k' := SampleIndex(x, srcMax, size), SampleIndex(x', srcMax, size);
    SampleIndexIsFloor(x, srcMax, size);
    SampleIndexIsFloor(x', srcMax, size);
    assert x * srcMax <= x' * srcMax by { MulMono(x, x', srcMax); }
    if k > k' {
      assert (k' + 1) * size <= k * size by { MulMono(k' + 1, k, size); }
      assert false;
    }
  }

  lemma MulNonneg(a: int, b: int)
    requires a >= 0 && b >= 0
    ensures a * b >= 0
  {}

  lemma MulStrict(a: int, b: int, c: int)
    requires a < b && c > 0
    ensures a * c < b * c
  {}

  lemma MulMono(a: int, b: int, c: int)
    requires a <= b && c >= 0
    ensures a * c <= b * c
  {}

  lemma DivExact(a: int, n: int)
    requires n > 0
    ensures (a * n) / n == a
  {
    var q, r := (a * n) / n, (a * n) % n;
    assert q * n + r == a * n && 0 <= r < n;
    assert (q - a) * n == -r;
    if q > a {
      MulMono(1, q - a, n);
      assert false;
    } else if q < a {
      MulMono(1, a - q, n);
      assert false;
    }
  }

  /** The new raster covers [1, width) x [1, height) whatever the source size, and
      holds, at (x, y), the source colour at the sampled coordinates. Allocation
      fails when width or height is below 1. */
  method ResizeImage(base: Raster, width: int, height: int) returns (res: Result<Raster>)
    requires base.Valid()
    ensures res.Failure? <==> width < 1 || height < 1
    ensures res.Success? ==>
      var out := res.value;
      fresh(out) && fresh(out.pix) && out.Valid() &&
      out.min == Point(1, 1) && out.max == Point(width, height) &&
      forall x, y :: out.In(x, y) ==>
        out.At(x, y) == base.At(SampleIndex(x, base.max.x, width), SampleIndex(y, base.max.y, height))
  {
    var dst := NewRaster(Point(1, 1), Point(width, height));
    if dst.Failure? {
      return dst;
    }
    var out := dst.value;
    var srcMax := base.max;
    var x := 1;
    while x < width
      invariant 1 <= x <= width
      invariant fresh(out.pix) && out.Valid()
      invariant forall i, j :: out.In(i, j) ==>
        out.At(i, j) ==
          if i < x then base.At(SampleIndex(i, srcMax.x, width), SampleIndex(j, srcMax.y, height))
          else Transparent
    {
      var y := 1;
      while y < height
        invariant 1 <= y <= height
        invariant forall i, j :: out.In(i, j) ==>
          out.At(i, j) ==
            if i < x || (i == x && j < y)
            then base.At(SampleIndex(i, srcMax.x, width), SampleIndex(j, srcMax.y, height))
            else Transparent
      {
        var fromX := SampleIndex(x, srcMax.x, width);
        var fromY := SampleIndex(y, srcMax.y, height);
        out.Set(x, y, base.At(fromX, fromY));
        y := y + 1;
      }
      x := x + 1;
    }
    res := Success(out);
  }
}
