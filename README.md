# Glyph normalise-and-classify, modelled in Dafny

This project models the algorithmic core of a small Go OCR program (`main.go`).
The program takes an image of one glyph and normalises it. It finds the corners of
the pixels that differ from the colour at (0, 0), crops to them, and resamples the
crop onto a 10 x 15 grid. It then compares the result with a gallery of reference
letters by a per-channel squared distance, and reports the label with the smallest
distance.

Each step is a loop (a nested one for the image operations, a single one for the
selection of the best match) that updates variables or fills a freshly allocated
pixel buffer, so the model is imperative. Each loop is a Dafny `method` with loop
invariants. That method is proved against a specification function, and the
source's promises are proved as lemmas about that function.

## Files and modules

- `image.dfy`, module `Image`: `Point` and `Color`, a `Result` type, and the class
  `Raster`. A `Raster` is Go's `image.NRGBA`. It has a rectangle `[min, max)` and
  a const `array2<Color>`. `At` answers the zero colour outside the rectangle, and
  `Set` ignores points outside it. `NewRaster` is `image.NewNRGBA`: it fails on a
  rectangle with a negative width or height.
- `bounds.dfy`, module `Bounds`: `GetImageBounds` and its specification. The
  specification is four folds (`RunMin`, `RunMax`) of the source's zero-sentinel
  updates over the foreground points in scan order (`Scan`).
- `crop.dfy`, module `Crop`: `CropImage`.
- `resize.dfy`, module `Resize`: `ResizeImage` and the sampling index
  `SampleIndex`.
- `distance.dfy`, module `Distance`: `EuclideanDistance`, computed as the integer
  sum of squares (`SquaredDistance`), with the uint32 wrap-around of the channel
  differences.
- `select.dfy`, module `Select`: the best-match loop of `main` (`SelectBest`). The
  predicate `Leads` says which entry is kept after each prefix, and `Winner` which
  one the loop ends on.
- `classify.dfy`, module `Classify`: the pipeline of `main` without files or
  printing (`NormalizeQuery`, `ScoreGallery`, `Classify`).

## Assumptions about the Go library

- A colour is the four 16-bit premultiplied values that `color.Color.RGBA()`
  reports, and two colours are equal when those four values are equal. This is a
  simplification: Go's `!=` at main.go:73 compares the concrete colour values, so
  for instance two NRGBA pixels with alpha 0 and different red, green or blue
  differ in Go but are the same colour in the model.
- `At` outside an image's rectangle answers the zero colour. This is what
  `image.NRGBA` does; for the decoded input image it is assumed.
- `Set` stores the colour unchanged. The conversion to the NRGBA colour model is
  not modelled.
- `image.NewNRGBA` panics on a negative width or height in current Go releases.
  The model returns `Failure(NegativeDimensions)` instead.

## Quirks of the code kept in the model

- The bounds accumulators start at 0, and 0 also means "unset" (main.go:74-85).
  maxX is always the true maximum, because columns are scanned in increasing
  order. minX is the least **non-zero** foreground x. minY is the true minimum when
  no foreground pixel lies in row 0. It can be exact otherwise too: with
  foreground at (1, 1) and (2, 0) the rows are seen as 1, 0 and minY ends on 0.
  `ColumnZeroOverwritten` and `RowZeroOverwritten` give images where the returned
  box misses foreground pixels.
  On an image with any foreground, every returned coordinate is a coordinate of
  some foreground pixel (`BoundsInRange`).
- The crop rectangle is `[1, maxX - minX) x [1, maxY - minY)` (main.go:117-126).
  The corner pixels found by `GetImageBounds` are inclusive, so the crop leaves out
  the first column and row of the region and also its last column and row. The
  inner loop runs to `y <= maxPoint.Y` (main.go:129). The extra row, and column
  offset 0, land outside the new rectangle, so `Set` drops them.
- `ResizeImage` output starts at (1, 1), like the crop. A sample that lands on
  column or row 0 of the crop reads the zero colour (`Classify.QueryPixel`).
- The channel differences are uint32 subtractions (main.go:108). They wrap modulo
  2^32, so the distance is not symmetric (`PixelCostAsymmetric`).
- The running distance in the selection loop starts at 0, and 0 also means
  "unset" (main.go:188). So a distance of 0, an exact match, is replaced by the
  next gallery entry, whatever that entry's distance is: of two exact matches the
  later one wins, and an exact match followed by an entry at distance 7 loses to
  it.

## Behaviour taken from the code

The model follows what `main.go` does, not a cleaned-up version of it. It has no
"seen" flags beside the zero sentinels, no error for a blank glyph, no error for
images of different sizes and no error for an empty gallery:
- a blank image gives ((0, 0), (0, 0)), and the crop then fails because its size
  is negative;
- the distance reads the zero colour where the second image is smaller;
- an empty gallery yields the label "" with distance 0;
- among positive distances, ties go to the earliest entry in gallery order (not
  to the smallest label); an exact match is replaced by whatever entry follows
  it.

## Model

| member | source | states |
|---|---|---|
| `Image.NewRaster` | main.go:117-126 | allocation fails exactly when the rectangle has a negative width or height; otherwise a fresh raster over exactly that rectangle, all zero colour |
| `Image.Raster.Set` | main.go:128-131 | a write inside the rectangle changes that one pixel; a write outside it changes nothing |
| `Bounds.GetImageBounds` | main.go:63-91 | the returned corners are the zero-sentinel min/max updates applied to the foreground pixels in column-major scan order |
| `Bounds.ScanMembers` | main.go:71-73 | the scan lists exactly the pixels of the rectangle whose colour differs from the colour at (0, 0) |
| `Bounds.ScanSortedByX` | main.go:71-72 | the scan visits foreground pixels in non-decreasing x |
| `Bounds.RunValuesSeen` | main.go:74-85 | each accumulator stays 0 until a value is seen and afterwards always holds one of the values seen |
| `Bounds.RunMaxSorted` | main.go:77-79 | over non-decreasing values the max accumulator ends on the last, largest value, so the `maxX == 0` test never loses the maximum |
| `Bounds.RunMinSorted` | main.go:74-76 | over non-decreasing values the min accumulator ends on the least non-zero value, or 0 when all values are 0 |
| `Bounds.RunMinNoZero` | main.go:80-82 | with no zero value the min accumulator is the true minimum (0 when empty) |
| `Bounds.RunMaxExact` | main.go:83-85 | with no zero value, or no negative value, the max accumulator is the true maximum (0 when empty) |
| `Bounds.RunMinLosesMinimum` | main.go:80-82 | after 1, 0, 2 the min accumulator holds 2: a middle zero wipes out the smaller 1 |
| `Bounds.BoundsMax` | main.go:66-85 | maxX is the largest foreground x (0 on a blank image); maxY is the largest foreground y when rows are non-negative or row 0 has no foreground |
| `Bounds.BoundsMin` | main.go:71-82 | minX is the least non-zero foreground x (0 if there is none); with no foreground in row 0, minY is the least foreground y |
| `Bounds.BoundsInRange` | main.go:64-90 | a blank image gives ((0, 0), (0, 0)); on an image with foreground every returned coordinate lies inside the image's range on its axis |
| `Bounds.ColumnZeroOverwritten` | main.go:74-76 | with foreground at (0, 1) and (2, 1), minX is 2, so the box misses the pixel in column 0 |
| `Bounds.RowZeroOverwritten` | main.go:80-82 | with foreground at (1, 1), (2, 0) and (2, 2), minY is 2, so the box misses rows 0 and 1 |
| `Crop.CropImage` | main.go:116-136 | fails exactly when maxX - minX < 1 or maxY - minY < 1; otherwise a fresh raster over exactly [1, maxX - minX) x [1, maxY - minY) whose pixel (i, j) is the base pixel (minX + i, minY + j) |
| `Resize.ResizeImage` | main.go:140-168 | fails exactly when width or height is below 1; otherwise a fresh raster over exactly [1, width) x [1, height) whose pixel (x, y) is the source pixel at the sampled indices |
| `Resize.SampleIndexInRange` | main.go:154-161 | for 0 <= x < size and a positive source extent, the sampled index lies in [0, srcMax) |
| `Resize.SampleIndexIsFloor` | main.go:154-161 | for non-negative operands the sampled index k satisfies k * size <= x * srcMax < (k + 1) * size |
| `Resize.SampleIndexSameSize` | main.go:154-161 | resampling onto the source's own extent reads each coordinate unchanged |
| `Resize.SampleIndexMonotone` | main.go:154-161 | sampling preserves the order of non-negative target coordinates |
| `Distance.WrapSub` | main.go:108 | the uint32 difference lies in [0, 2^32), is 0 exactly for equal channels, and wraps to 2^32 - (b - a) when a < b |
| `Distance.PixelCost` | main.go:105-109 | a pixel's cost is 0 exactly when the two colours are equal |
| `Distance.PixelCostAsymmetric` | main.go:108 | for two alpha-1 colours whose red differs by one, the cost is 1 one way and (2^32 - 1)^2 the other way |
| `Distance.EuclideanDistance` | main.go:94-114 | the nested loops return the sum of squared wrapped differences over 1 <= x < base.max.x, 1 <= y < base.max.y |
| `Distance.DistanceZeroIff` | main.go:102-111 | the squared distance is 0 exactly when the images agree on every covered point |
| `Distance.DistanceSelf` | main.go:94-113 | an image is at distance 0 from itself |
| `Distance.DistanceCoversPixel` | main.go:102-103 | every covered point's cost is part of the sum |
| `Distance.DistanceOnlyCovered` | main.go:96-103 | images that agree on the covered points are at the same distance, so no other point counts |
| `Select.SelectBest` | main.go:181-191 | an empty gallery gives ("", 0); otherwise the result is the (label, distance) pair of the unique `Winner` entry |
| `Select.LeadsStep` | main.go:188-191 | the next entry takes over exactly when the kept distance is 0 or larger than the new distance; otherwise the kept entry stays |
| `Select.WinnerExists` | main.go:181-191 | every non-empty gallery has a winner |
| `Select.WinnerBefore` | main.go:188 | every entry after the winner is at least as far away, and no zero distance lies between them |
| `Select.WinnerUnique` | main.go:181-191 | at most one entry is the winner |
| `Select.WinnerAllPositive` | main.go:188 | with all distances positive, the winner is exactly the earliest entry of least distance |
| `Select.WinnerBeforeLastPositive` | main.go:188 | a winner not in last place has a positive distance: a zero is always replaced by the next entry |
| `Classify.NormalizeQuery` | main.go:174-177 | fails exactly when the detected box is too thin to crop; otherwise a 10 x 15 raster over [1, 10) x [1, 15) whose pixels are the cropped-then-sampled query pixels |
| `Classify.ScoreGallery` | main.go:184-186 | one score per gallery entry, in order, each the label with the squared distance from the query to that entry's resampled image |
| `Classify.Classify` | main.go:172-195 | fails exactly when the query cannot be cropped; otherwise a normalised query, the per-label distance table and the selection loop's winner over it |

## Left out

- `OpenImageFile`, `SaveImage`, PNG decoding and encoding, and the panics on file
  errors (main.go:39-61, 172, 179) are file I/O. The query and the gallery are
  passed in as rasters.
- The `ALPHABET` filename table (main.go:11-37) is configuration. The gallery is an
  explicit sequence of (label, raster) pairs. Go's map iteration order
  (main.go:184) is not deterministic and is not modelled; the model iterates in
  sequence order.
- The `fmt.Printf`/`fmt.Println` reports (main.go:192, 195) are output.
  `Classify` returns the per-label table and the winner instead.
- Distance.EuclideanDistance: returns the integer sum of squares and not its
  float64 square root. The square root is monotone and is 0 only at 0, so the
  selection's comparisons are the same. float64 rounding of the sum (it can exceed
  2^53) is not modelled.
- Resize.ResizeImage: the float32 ratio `srcMax / size` times `x` is modelled as
  the exact rational `x * srcMax / size`, truncated toward zero. float32 rounding
  could pick a different pixel at large sizes.
- Go `int` overflow of coordinates and of the buffer size in `image.NewNRGBA` is
  not modelled; integers are unbounded.
- The conversion of colours between colour models (`RGBA()` premultiplication,
  the NRGBA model in `Set`) is not modelled. A colour is its four 16-bit channel
  values.
