/**
 The stride scan of the particle builder: which pixels of the image become
 particles, and in which order. Rows are visited top to bottom and, within a
 row, columns left to right, both in steps of `Spacing`; a visited pixel is
 kept when its alpha byte exceeds `AlphaThreshold`.
 */
module Sampling {
  import opened Raster

  /** Distance, in image pixels, between two sampled rows or columns. */
  const Spacing: nat := 4

  /** A pixel is kept only when its alpha is strictly above this value. */
  const AlphaThreshold: byte := 128

  /** Integer pixel coordinate inside the source image. */
  datatype Pixel = Pixel(x: nat, y: nat)

  /** The scan visits (x, y): both coordinates are multiples of the spacing and inside the image. */
  predicate OnGrid(img: ImageData, p: Pixel) {
    img.Contains(p.x, p.y) && p.x % Spacing == 0 && p.y % Spacing == 0
  }

  /** The scan turns (x, y) into a particle. */
  predicate Kept(img: ImageData, p: Pixel)
    requires img.Valid()
  {
    OnGrid(img, p) && Alpha(img, p.x, p.y) > AlphaThreshold
  }

  /** `a` is visited strictly before `b` by a row-major scan. */
  predicate Before(a: Pixel, b: Pixel) {
    a.y < b.y || (a.y == b.y && a.x < b.x)
  }

  /** The pixels of `s` are listed in strictly increasing row-major order. */
  predicate RowMajor(s: seq<Pixel>) {
    forall i, j :: 0 <= i < j < |s| ==> Before(s[i], s[j])
  }

  /** Number of sampled positions in [from, n) when `from` is a multiple of the spacing. */
  function GridCount(n: nat, from: nat): nat {
    if from >= n then 0 else (n - from + Spacing - 1) / Spacing
  }

  /** Two distinct multiples of the spacing are at least one spacing apart. */
  lemma NextGridPoint(a: nat, b: nat)
    requires a % Spacing == 0 && b % Spacing == 0 && a < b
    ensures a + Spacing <= b
  {
    assert a == Spacing * (a / Spacing) && b == Spacing * (b / Spacing);
  }

  /** Advancing one spacing inside [0, n) leaves one sampled position fewer. */
  lemma GridCountStep(n: nat, from: nat)
    requires from < n
    ensures GridCount(n, from) == GridCount(n, from + Spacing) + 1
  {
  }

  /** The next sampled row or column after an aligned one is aligned too. */
  lemma AlignedStep(n: nat)
    requires n % Spacing == 0
    ensures (n + Spacing) % Spacing == 0
  {
  }

  /** Kept pixels of row `y`, scanning columns x, x + Spacing, ... below the image width. */
  function ScanRow(img: ImageData, y: nat, x: nat): (r: seq<Pixel>)
    requires img.Valid() && y < img.height
    ensures forall p :: p in r ==> p.y == y && x <= p.x < img.width
    decreases img.width - x
  {
    if x >= img.width then []
    else
      var rest := ScanRow(img, y, x + Spacing);
      if Alpha(img, x, y) > AlphaThreshold then [Pixel(x, y)] + rest else rest
  }

  /** Kept pixels of rows y, y + Spacing, ... below the image height, in scan order. */
  function ScanRows(img: ImageData, y: nat): (r: seq<Pixel>)
    requires img.Valid()
    ensures forall p :: p in r ==> y <= p.y < img.height && p.x < img.width
    decreases img.height - y
  {
    if y >= img.height then []
    else ScanRow(img, y, 0) + ScanRows(img, y + Spacing)
  }

  /** All pixels the builder keeps, in the order it emits particles for them. */
  function KeptPixels(img: ImageData): seq<Pixel>
    requires img.Valid()
  {
    ScanRows(img, 0)
  }

  /** A row scan started on an aligned column lists exactly the kept pixels of the row
      from that column on. */
  lemma {:induction false} ScanRowExactly(img: ImageData, y: nat, x: nat)
    requires img.Valid() && y < img.height && y % Spacing == 0 && x % Spacing == 0
    ensures forall p :: p in ScanRow(img, y, x) <==> p.y == y && x <= p.x && Kept(img, p)
    decreases img.width - x
  {
    if x < img.width {
      AlignedStep(x);
      ScanRowExactly(img, y, x + Spacing);
      forall p: Pixel | x <= p.x && p.x % Spacing == 0 && p.x != x
        ensures x + Spacing <= p.x
      {
        NextGridPoint(x, p.x);
      }
    }
  }

  /** A row scan lists its pixels left to right. */
  lemma {:induction false} ScanRowOrdered(img: ImageData, y: nat, x: nat)
    requires img.Valid() && y < img.height
    ensures RowMajor(ScanRow(img, y, x))
    decreases img.width - x
  {
    if x < img.width {
      var rest := ScanRow(img, y, x + Spacing);
      ScanRowOrdered(img, y, x + Spacing);
      ConcatRowMajor([Pixel(x, y)], rest);
    }
  }

  /** A scan started on an aligned row lists exactly the kept pixels from that row down. */
  lemma {:induction false} ScanRowsExactly(img: ImageData, y: nat)
    requires img.Valid() && y % Spacing == 0
    ensures forall p :: p in ScanRows(img, y) <==> y <= p.y && Kept(img, p)
    decreases img.height - y
  {
    if y < img.height {
      AlignedStep(y);
      ScanRowExactly(img, y, 0);
      ScanRowsExactly(img, y + Spacing);
      forall p: Pixel | y <= p.y && p.y % Spacing == 0 && p.y != y
        ensures y + Spacing <= p.y
      {
        NextGridPoint(y, p.y);
      }
    }
  }

  /** A scan lists its pixels in row-major order. */
  lemma {:induction false} ScanRowsOrdered(img: ImageData, y: nat)
    requires img.Valid()
    ensures RowMajor(ScanRows(img, y))
    decreases img.height - y
  {
    if y < img.height {
      ScanRowOrdered(img, y, 0);
      ScanRowsOrdered(img, y + Spacing);
      ConcatRowMajor(ScanRow(img, y, 0), ScanRows(img, y + Spacing));
    }
  }

  /** One step of the column scan: pixel (x, y) is emitted ahead of the rest of its row
      exactly when its alpha exceeds the threshold. */
  lemma ScanRowUnfold(img: ImageData, y: nat, x: nat)
    requires img.Valid() && y < img.height && x < img.width
    ensures Alpha(img, x, y) > AlphaThreshold ==>
              ScanRow(img, y, x) == [Pixel(x, y)] + ScanRow(img, y, x + Spacing)
    ensures Alpha(img, x, y) <= AlphaThreshold ==>
              ScanRow(img, y, x) == ScanRow(img, y, x + Spacing)
  {
  }

  /** One step of the row scan: row y is emitted ahead of the rows below it. */
  lemma ScanRowsUnfold(img: ImageData, y: nat)
    requires img.Valid() && y < img.height
    ensures ScanRows(img, y) == ScanRow(img, y, 0) + ScanRows(img, y + Spacing)
  {
  }

  /** Concatenating two row-major lists, the first wholly before the second, is row-major. */
  lemma ConcatRowMajor(a: seq<Pixel>, b: seq<Pixel>)
    requires RowMajor(a) && RowMajor(b)
    requires forall p, q :: p in a && q in b ==> Before(p, q)
    ensures RowMajor(a + b)
  {
    var s := a + b;
    forall i, j | 0 <= i < j < |s|
      ensures Before(s[i], s[j])
    {
      if j < |a| {
        assert Before(a[i], a[j]);
      } else if i < |a| {
        assert s[i] in a && s[j] in b;
      } else {
        assert Before(b[i - |a|], b[j - |a|]);
      }
    }
  }

  /** A pixel becomes a particle exactly when it is on the sampling grid and its
      alpha is strictly above the threshold; alpha equal to 128 is rejected. */
  lemma KeptPixelsExactly(img: ImageData, p: Pixel)
    requires img.Valid()
    ensures p in KeptPixels(img) <==> OnGrid(img, p) && Alpha(img, p.x, p.y) > 128
  {
    ScanRowsExactly(img, 0);
  }

  /** The scan emits its pixels in row-major order: rows ascending, columns ascending within a row. */
  lemma KeptPixelsRowMajor(img: ImageData)
    requires img.Valid()
    ensures forall i, j :: 0 <= i < j < |KeptPixels(img)| ==>
              var a, b := KeptPixels(img)[i], KeptPixels(img)[j];
              a.y < b.y || (a.y == b.y && a.x < b.x)
  {
    ScanRowsOrdered(img, 0);
  }

  /** A row yields at most one pixel per sampled column, and exactly one per column
      when every sampled pixel of the row is opaque enough. */
  lemma {:induction false} ScanRowCount(img: ImageData, y: nat, x: nat)
    requires img.Valid() && y < img.height && y % Spacing == 0 && x % Spacing == 0
    ensures |ScanRow(img, y, x)| <= GridCount(img.width, x)
    ensures (forall p :: OnGrid(img, p) && p.y == y && x <= p.x ==> Kept(img, p)) ==>
              |ScanRow(img, y, x)| == GridCount(img.width, x)
    decreases img.width - x
  {
    if x < img.width {
      AlignedStep(x);
      ScanRowCount(img, y, x + Spacing);
    }
  }

  /** The scan from row y yields at most (rows left) * (columns) pixels, and exactly
      that many when every sampled pixel from row y on is opaque enough. */
  lemma {:induction false} ScanRowsCount(img: ImageData, y: nat)
    requires img.Valid() && y % Spacing == 0
    ensures |ScanRows(img, y)| <= GridCount(img.height, y) * GridCount(img.width, 0)
    ensures (forall p :: OnGrid(img, p) && y <= p.y ==> Kept(img, p)) ==>
              |ScanRows(img, y)| == GridCount(img.height, y) * GridCount(img.width, 0)
    decreases img.height - y
  {
    if y < img.height {
      AlignedStep(y);
      var row, rest := ScanRow(img, y, 0), ScanRows(img, y + Spacing);
      assert ScanRows(img, y) == row + rest;
      ScanRowCount(img, y, 0);
      ScanRowsCount(img, y + Spacing);
      GridCountStep(img.height, y);
      OneMoreRow(|row|, |rest|, GridCount(img.height, y + Spacing), GridCount(img.width, 0));
    }
  }

  /** Adding a row of at most `cols` pixels to at most `rows * cols` pixels gives at most
      `(rows + 1) * cols`, with equality when both parts are full. */
  lemma OneMoreRow(rowLen: nat, restLen: nat, rows: nat, cols: nat)
    requires rowLen <= cols && restLen <= rows * cols
    ensures rowLen + restLen <= (rows + 1) * cols
    ensures rowLen == cols && restLen == rows * cols ==> rowLen + restLen == (rows + 1) * cols
  {
    assert (rows + 1) * cols == rows * cols + cols;
  }

  /** At most ceil(w/4) * ceil(h/4) pixels are kept; exactly that many when every sampled
      pixel is opaque enough, and none when no pixel's alpha exceeds 128. */
  lemma KeptPixelsCount(img: ImageData)
    requires img.Valid()
    ensures |KeptPixels(img)| <= ((img.width + 3) / 4) * ((img.height + 3) / 4)
    ensures (forall p :: OnGrid(img, p) ==> Kept(img, p)) ==>
              |KeptPixels(img)| == ((img.width + 3) / 4) * ((img.height + 3) / 4)
    ensures (forall x: nat, y: nat :: img.Contains(x, y) ==> Alpha(img, x, y) <= 128) ==>
              KeptPixels(img) == []
  {
    ScanRowsCount(img, 0);
    assert GridCount(img.width, 0) == (img.width + 3) / 4;
    assert GridCount(img.height, 0) == (img.height + 3) / 4;
    if KeptPixels(img) != [] {
      ScanRowsExactly(img, 0);
      assert Kept(img, KeptPixels(img)[0]);
    }
  }
}
