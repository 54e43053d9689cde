/** Raster images in the shape of Go's `image.NRGBA`: a rectangle that is
    half-open on both axes, one colour per point inside it, `Set` that ignores
    points outside the rectangle and `At` that answers the zero colour there. */
module Image {

  /** An integer pixel address or rectangle corner (Go's `image.Point`). */
  datatype Point = Point(x: int, y: int)

  /** One colour channel as Go's `color.Color.RGBA()` reports it: 16 bits held in a uint32. */
  type Channel = c: int | 0 <= c < 0x1_0000

  /** A colour sample; two colours are equal when all four channels are. */
  datatype Color = Color(r: Channel, g: Channel, b: Channel, a: Channel)

  /** The zero colour, which `At` answers outside the rectangle and a new raster starts with. */
  const Transparent := Color(0, 0, 0, 0)

  /** Allocating a raster whose rectangle has a negative width or height fails. */
  datatype Error = NegativeDimensions

  datatype Result<T> = Success(value: T) | Failure(error: Error)

  class Raster {
    /** The rectangle [min.x, max.x) x [min.y, max.y). */
    const min: Point
    const max: Point
    /** pix[x - min.x, y - min.y] is the colour at (x, y). */
    const pix: array2<Color>

    predicate Valid() {
      min.x <= max.x && min.y <= max.y &&
      pix.Length0 == max.x - min.x && pix.Length1 == max.y - min.y
    }

    predicate In(x: int, y: int) {
      min.x <= x < max.x && min.y <= y < max.y
    }

    function At(x: int, y: int): (c: Color)
      requires Valid()
      reads pix
    {
      if In(x, y) then pix[x - min.x, y - min.y] else Transparent
    }

    /** A raster over [lo, hi) whose every pixel is the zero colour. */
    constructor (lo: Point, hi: Point)
      requires lo.x <= hi.x && lo.y <= hi.y
      ensures Valid() && min == lo && max == hi && fresh(pix)
      ensures forall x, y :: At(x, y) == Transparent
    {
      min, max := lo, hi;
      pix := new Color[hi.x - lo.x, hi.y - lo.y]((_, _) => Transparent);
    }

    /** Writes one pixel; a point outside the rectangle is ignored. */
    method Set(x: int, y: int, c: Color)
      requires Valid()
      modifies pix
      ensures forall i, j :: At(i, j) == if In(x, y) && i == x && j == y then c else old(At(i, j))
      ensures !In(x, y) ==> unchanged(pix)
    {
      if In(x, y) {
        pix[x - min.x, y - min.y] := c;
      }
    }
  }

  /** Go's `image.NewNRGBA`: a fresh all-zero raster over [lo, hi), or a failure
      when the rectangle has a negative width or height. */
  method NewRaster(lo: Point, hi: Point) returns (res: Result<Raster>)
    ensures res.Failure? <==> hi.x < lo.x || hi.y < lo.y
    ensures res.Success? ==>
      fresh(res.value) && fresh(res.value.pix) && res.value.Valid() &&
      res.value.min == lo && res.value.max == hi &&
      forall x, y :: res.value.At(x, y) == Transparent
  {
    if hi.x < lo.x || hi.y < lo.y {
      return Failure(NegativeDimensions);
    }
    var r := new Raster(lo, hi);
    res := Success(r);
  }
}
