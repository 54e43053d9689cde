/** The pipeline of `main` without its file input and output: normalise the query
    (bounds, crop, resize to 10 x 15), resize every gallery image the same way,
    measure the distance to each and pick the best match. */
module Classify {
  import opened Image
  import opened Bounds
  import opened Crop
  import opened Resize
  import opened Distance
  import opened Select

  /** The size every image is resampled to. */
  const Width := 10
  const Height := 15

  /** `r` is `src` resampled onto [1, Width) x [1, Height). */
  ghost predicate Normalized(r: Raster, src: Raster)
    reads r.pix, src.pix
  {
    r.Valid() && src.Valid() && r.min == Point(1, 1) && r.max == Point(Width, Height) &&
    forall x, y :: r.In(x, y) ==>
      r.At(x, y) == src.At(SampleIndex(x, src.max.x, Width), SampleIndex(y, src.max.y, Height))
  }

  /** The colour of the normalised query at (x, y): crop to the detected corners,
      then sample; a sample that falls on column or row 0 of the crop, or anywhere
      outside it, reads the zero colour. */
  ghost function QueryPixel(img: Raster, x: int, y: int): (c: Color)
    requires img.Valid()
    reads img.pix
  {
    var (lo, hi) := ImageBounds(img);
    var dx, dy := hi.x - lo.x, hi.y - lo.y;
    var i, j := SampleIndex(x, dx, Width), SampleIndex(y, dy, Height);
    if 1 <= i < dx && 1 <= j < dy then img.At(lo.x + i, lo.y + j) else Transparent
  }

  /** main.go:174-177: the query cut to its detected corners and resampled. */
  method NormalizeQuery(img: Raster) returns (res: Result<Raster>)
    requires img.Valid()
    ensures var (lo, hi) := ImageBounds(img);
      res.Failure? <==> hi.x - lo.x < 1 || hi.y - lo.y < 1
    ensures res.Success? ==>
      var q := res.value;
      q.Valid() && q.min == Point(1, 1) && q.max == Point(Width, Height) &&
      forall x, y :: q.In(x, y) ==> q.At(x, y) == QueryPixel(img, x, y)
  {
    var minPoint, maxPoint := GetImageBounds(img);
    var cropped := CropImage(img, minPoint, maxPoint);
    if cropped.Failure? {
      return Failure(cropped.error);
    }
    var c := cropped.value;
    res := ResizeImage(c, Width, Height);
    assert forall i, j :: c.At(i, j) == if c.In(i, j) then img.At(minPoint.x + i, minPoint.y + j) else Transparent;
  }

  /** main.go:184-186, 192: each gallery image resampled and its distance from the
      normalised query, in gallery order. */
  method ScoreGallery(query: Raster, gallery: seq<(string, Raster)>)
    returns (scores: seq<Score>, ghost references: seq<Raster>)
    requires query.Valid()
    requires forall i :: 0 <= i < |gallery| ==> gallery[i].1.Valid()
    ensures |scores| == |gallery| && |references| == |gallery|
    ensures forall i :: 0 <= i < |gallery| ==>
      Normalized(references[i], gallery[i].1) &&
      scores[i] == (gallery[i].0, SquaredDistance(query, references[i]))
  {
    scores, references := [], [];
    for n := 0 to |gallery|
      invariant |scores| == n && |references| == n
      invariant forall i :: 0 <= i < n ==>
        Normalized(references[i], gallery[i].1) &&
        scores[i] == (gallery[i].0, SquaredDistance(query, references[i]))
    {
      var (letter, image) := gallery[n];
      var compare := ResizeImage(image, Width, Height);
      var compareImage := compare.value;
      var distance := EuclideanDistance(query, compareImage);
      scores := scores + [(letter, distance)];
      references := references + [compareImage];
    }
  }

  /** main.go:172-195 without the files and the printing. Fails when the detected
      region is too thin to crop; otherwise `scores` is the per-label distance table
      in gallery order and the result is the winner of the selection loop. */
  method Classify(img: Raster, gallery: seq<(string, Raster)>)
    returns (res: Result<Score>, scores: seq<Score>, ghost query: Raster, ghost references: seq<Raster>)
    requires img.Valid()
    requires forall i :: 0 <= i < |gallery| ==> gallery[i].1.Valid()
    ensures var (lo, hi) := ImageBounds(img);
      res.Failure? <==> hi.x - lo.x < 1 || hi.y - lo.y < 1
    ensures res.Success? ==>
      query.Valid() && query.min == Point(1, 1) && query.max == Point(Width, Height) &&
      (forall x, y :: query.In(x, y) ==> query.At(x, y) == QueryPixel(img, x, y)) &&
      |scores| == |gallery| && |references| == |gallery| &&
      (forall i :: 0 <= i < |gallery| ==>
         Normalized(references[i], gallery[i].1) &&
         scores[i] == (gallery[i].0, SquaredDistance(query, references[i]))) &&
      (gallery == [] ==> res.value == ("", 0)) &&
      (gallery != [] ==> exists k :: Winner(scores, k) && scores[k] == res.value)
  {
    var normalized := NormalizeQuery(img);
    if normalized.Failure? {
      return Failure(normalized.error), [], img, [];
    }
    var resizedImage := normalized.value;
    query := resizedImage;
    scores, references := ScoreGallery(resizedImage, gallery);
    var rightLetter, lowerDistance := SelectBest(scores);
    res := Success((rightLetter, lowerDistance));
  }
}
