/**
 The particle field builder: every pixel the stride scan keeps becomes one
 particle, placed at the pixel's coordinate stretched onto the visible canvas
 (x by canvas width / image width, y by canvas height / image height), at rest
 at that spot and coloured by the pixel's RGB bytes. Coordinates are exact
 reals here; the component computes them in floating point.
 */
module FieldBuilder {
  import opened Raster
  import opened Sampling

  /** Size, in pixels, of the visible canvas the particles are drawn on. */
  datatype Canvas = Canvas(width: nat, height: nat)

  /** One point of the cloud: where it is, where it rests, how fast it moves, its colour. */
  datatype Particle = Particle(
    x: real, y: real,
    originalX: real, originalY: real,
    vx: real, vy: real,
    color: Rgb)

  /** The offscreen 2D context the image is drawn into: either no context could be
      obtained, or the image was drawn and its pixel buffer read back. */
  datatype Offscreen = Unavailable | Rendered(image: ImageData)

  /** A particle sitting still on its rest position. */
  predicate AtRest(p: Particle) {
    p.x == p.originalX && p.y == p.originalY && p.vx == 0.0 && p.vy == 0.0
  }

  /** Image coordinate `v` stretched onto a canvas axis: `v * (canvasExtent / imageExtent)`. */
  function Scale(v: nat, canvasExtent: nat, imageExtent: nat): real
    requires imageExtent > 0
  {
    v as real * (canvasExtent as real / imageExtent as real)
  }

  /** A coordinate inside the image lands inside the canvas: never negative, never past
      its far edge, and strictly before it whenever the canvas is not empty. */
  lemma ScaleInsideCanvas(v: nat, canvasExtent: nat, imageExtent: nat)
    requires v < imageExtent
    ensures 0.0 <= Scale(v, canvasExtent, imageExtent) <= canvasExtent as real
    ensures canvasExtent > 0 ==> Scale(v, canvasExtent, imageExtent) < canvasExtent as real
  {
    var ratio := canvasExtent as real / imageExtent as real;
    assert ratio * imageExtent as real == canvasExtent as real;
    assert 0.0 <= ratio;
    MulRealMonotone(v as real, imageExtent as real, ratio);
  }

  /** Scaling by a positive ratio keeps strict order. */
  lemma MulRealMonotone(a: real, b: real, k: real)
    requires 0.0 <= a < b && 0.0 <= k
    ensures 0.0 <= a * k <= b * k
    ensures 0.0 < k ==> a * k < b * k
  {
  }

  /** On a non-empty canvas, stretching keeps the order of image coordinates. */
  lemma ScaleStrictlyMonotone(a: nat, b: nat, canvasExtent: nat, imageExtent: nat)
    requires a < b && imageExtent > 0 && canvasExtent > 0
    ensures Scale(a, canvasExtent, imageExtent) < Scale(b, canvasExtent, imageExtent)
  {
    var ratio := canvasExtent as real / imageExtent as real;
    assert 0.0 < ratio;
    MulRealMonotone(a as real, b as real, ratio);
  }

  /** The particle created for pixel `p`: at rest on its stretched coordinate, with the pixel's colour. */
  function Spawn(img: ImageData, canvas: Canvas, p: Pixel): Particle
    requires img.Valid() && img.Contains(p.x, p.y)
  {
    var sx := Scale(p.x, canvas.width, img.width);
    var sy := Scale(p.y, canvas.height, img.height);
    Particle(sx, sy, sx, sy, 0.0, 0.0, ColorAt(img, p.x, p.y))
  }

  /** The particles for a list of image pixels, in the same order. */
  function SpawnAll(img: ImageData, canvas: Canvas, pixels: seq<Pixel>): seq<Particle>
    requires img.Valid()
    requires forall p :: p in pixels ==> img.Contains(p.x, p.y)
  {
    seq(|pixels|, i requires 0 <= i < |pixels| => Spawn(img, canvas, pixels[i]))
  }

  /** The particle field of an image on a canvas: one particle per kept pixel, in scan order. */
  function Extract(img: ImageData, canvas: Canvas): seq<Particle>
    requires img.Valid()
  {
    SpawnAll(img, canvas, KeptPixels(img))
  }

  /** The builder as the component runs it: the previous field is dropped first, an
      unavailable offscreen context yields an empty field, and otherwise the rows of the
      image are walked top to bottom in steps of `Spacing`, each contributing the
      particles of its sampled pixels. The result does not depend on `previous`. */
  method BuildParticles(previous: seq<Particle>, offscreen: Offscreen, canvas: Canvas)
    returns (particles: seq<Particle>)
    requires offscreen.Rendered? ==> offscreen.image.Valid()
    ensures offscreen.Unavailable? ==> particles == []
    ensures offscreen.Rendered? ==> particles == Extract(offscreen.image, canvas)
  {
    particles := [];
    if offscreen.Unavailable? {
      return;
    }
    var img := offscreen.image;
    ghost var kept: seq<Pixel> := [];
    var y := 0;
    while y < img.height
      invariant forall p :: p in kept ==> img.Contains(p.x, p.y)
      invariant kept + ScanRows(img, y) == KeptPixels(img)
      invariant particles == SpawnAll(img, canvas, kept)
      decreases img.height - y
    {
      var row := SampleRow(img, canvas, y);
      NextRow(img, canvas, kept, y);
      particles := particles + row;
      kept := kept + ScanRow(img, y, 0);
      y := y + Spacing;
    }
  }

  /** The columns of row `y` walked left to right in steps of `Spacing`: the four bytes
      of each sampled pixel are read at its byte index, and a particle is appended when
      the alpha byte exceeds the threshold. */
  method SampleRow(img: ImageData, canvas: Canvas, y: nat) returns (row: seq<Particle>)
    requires img.Valid() && y < img.height
    ensures row == SpawnAll(img, canvas, ScanRow(img, y, 0))
  {
    row := [];
    ghost var kept: seq<Pixel> := [];
    var x := 0;
    while x < img.width
      invariant forall p :: p in kept ==> img.Contains(p.x, p.y)
      invariant kept + ScanRow(img, y, x) == ScanRow(img, y, 0)
      invariant row == SpawnAll(img, canvas, kept)
      decreases img.width - x
    {
      var index := ByteIndex(img.width, x, y);
      PixelBytes(img, x, y);
      var r, g, b := img.data[index], img.data[index + 1], img.data[index + 2];
      var alpha := img.data[index + 3];
      if alpha > AlphaThreshold {
        var px := Scale(x, canvas.width, img.width);
        var py := Scale(y, canvas.height, img.height);
        var particle := Particle(px, py, px, py, 0.0, 0.0, Rgb(r, g, b));
        KeepPixel(img, canvas, kept, x, y);
        assert row + [particle] == SpawnAll(img, canvas, kept + [Pixel(x, y)]);
        row := row + [particle];
        kept := kept + [Pixel(x, y)];
      } else {
        SkipPixel(img, kept, x, y);
      }
      x := x + Spacing;
    }
    assert ScanRow(img, y, x) == [];
  }

  /** Appending the particle of a kept pixel keeps the row's bookkeeping in step: the
      particle built from the pixel's bytes is the one `Spawn` describes, and the kept
      list grows by that pixel while the part of the row still to scan shrinks. */
  lemma KeepPixel(img: ImageData, canvas: Canvas, kept: seq<Pixel>, x: nat, y: nat)
    requires img.Valid() && img.Contains(x, y)
    requires Alpha(img, x, y) > AlphaThreshold
    requires forall q :: q in kept ==> img.Contains(q.x, q.y)
    requires kept + ScanRow(img, y, x) == ScanRow(img, y, 0)
    ensures ByteIndex(img.width, x, y) + 2 < |img.data|
    ensures forall q :: q in kept + [Pixel(x, y)] ==> img.Contains(q.x, q.y)
    ensures (kept + [Pixel(x, y)]) + ScanRow(img, y, x + Spacing) == ScanRow(img, y, 0)
    ensures SpawnAll(img, canvas, kept + [Pixel(x, y)]) == SpawnAll(img, canvas, kept) + [
              var sx, sy := Scale(x, canvas.width, img.width), Scale(y, canvas.height, img.height);
              var i := ByteIndex(img.width, x, y);
              Particle(sx, sy, sx, sy, 0.0, 0.0, Rgb(img.data[i], img.data[i + 1], img.data[i + 2]))]
  {
    PixelBytes(img, x, y);
    ScanRowUnfold(img, y, x);
    ConcatAssociative(kept, [Pixel(x, y)], ScanRow(img, y, x + Spacing));
    SpawnAllAppend(img, canvas, kept, Pixel(x, y));
  }

  /** Appending the particles of row `y` keeps the builder's bookkeeping in step: the
      kept list grows by that row's pixels, the rows still to scan start one spacing
      lower, and the field grows by that row's particles. */
  lemma NextRow(img: ImageData, canvas: Canvas, kept: seq<Pixel>, y: nat)
    requires img.Valid() && y < img.height
    requires forall p :: p in kept ==> img.Contains(p.x, p.y)
    requires kept + ScanRows(img, y) == KeptPixels(img)
    ensures forall p :: p in kept + ScanRow(img, y, 0) ==> img.Contains(p.x, p.y)
    ensures (kept + ScanRow(img, y, 0)) + ScanRows(img, y + Spacing) == KeptPixels(img)
    ensures SpawnAll(img, canvas, kept + ScanRow(img, y, 0)) ==
              SpawnAll(img, canvas, kept) + SpawnAll(img, canvas, ScanRow(img, y, 0))
  {
    var row, rest := ScanRow(img, y, 0), ScanRows(img, y + Spacing);
    SpawnAllConcat(img, canvas, kept, row);
    ScanRowsUnfold(img, y);
    ConcatAssociative(kept, row, rest);
  }

  /** Concatenation of three lists does not depend on grouping. */
  lemma ConcatAssociative<T>(a: seq<T>, b: seq<T>, c: seq<T>)
    ensures a + (b + c) == (a + b) + c
  {
  }

  /** Skipping a pixel whose alpha is at or below the threshold keeps the row's
      bookkeeping in step: the kept list stays as it is while the part of the row still
      to scan shrinks. */
  lemma SkipPixel(img: ImageData, kept: seq<Pixel>, x: nat, y: nat)
    requires img.Valid() && img.Contains(x, y)
    requires Alpha(img, x, y) <= AlphaThreshold
    requires kept + ScanRow(img, y, x) == ScanRow(img, y, 0)
    ensures kept + ScanRow(img, y, x + Spacing) == ScanRow(img, y, 0)
  {
    ScanRowUnfold(img, y, x);
  }

  /** Spawning two lists one after the other spawns their concatenation. */
  lemma SpawnAllConcat(img: ImageData, canvas: Canvas, a: seq<Pixel>, b: seq<Pixel>)
    requires img.Valid()
    requires forall p :: p in a ==> img.Contains(p.x, p.y)
    requires forall p :: p in b ==> img.Contains(p.x, p.y)
    ensures forall p :: p in a + b ==> img.Contains(p.x, p.y)
    ensures SpawnAll(img, canvas, a + b) == SpawnAll(img, canvas, a) + SpawnAll(img, canvas, b)
  {
  }

  /** Spawning one more pixel appends its particle. */
  lemma SpawnAllAppend(img: ImageData, canvas: Canvas, pixels: seq<Pixel>, p: Pixel)
    requires img.Valid() && img.Contains(p.x, p.y)
    requires forall q :: q in pixels ==> img.Contains(q.x, q.y)
    ensures forall q :: q in pixels + [p] ==> img.Contains(q.x, q.y)
    ensures SpawnAll(img, canvas, pixels + [p]) == SpawnAll(img, canvas, pixels) + [Spawn(img, canvas, p)]
  {
  }

  /** A particle is built for exactly the kept pixels: each sampled pixel whose alpha
      exceeds 128 has its particle in the field, and every particle of the field is the
      particle of such a pixel. */
  lemma ExtractExactly(img: ImageData, canvas: Canvas)
    requires img.Valid()
    ensures forall p :: Kept(img, p) ==> Spawn(img, canvas, p) in Extract(img, canvas)
    ensures forall i :: 0 <= i < |Extract(img, canvas)| ==>
              exists p :: Kept(img, p) && Extract(img, canvas)[i] == Spawn(img, canvas, p)
  {
    var kept := KeptPixels(img);
    var field := Extract(img, canvas);
    ScanRowsExactly(img, 0);
    forall p | Kept(img, p)
      ensures Spawn(img, canvas, p) in field
    {
      var i :| 0 <= i < |kept| && kept[i] == p;
      assert field[i] == Spawn(img, canvas, p);
    }
    forall i | 0 <= i < |field|
      ensures Kept(img, kept[i]) && field[i] == Spawn(img, canvas, kept[i])
    {
      assert kept[i] in kept;
    }
  }

  /** Every new particle sits still on its rest position, and its colour is the red,
      green and blue bytes at the byte index of its source pixel. */
  lemma ExtractInitialState(img: ImageData, canvas: Canvas)
    requires img.Valid()
    ensures forall q :: q in Extract(img, canvas) ==> AtRest(q)
    ensures forall i :: 0 <= i < |Extract(img, canvas)| ==>
              var p, q := KeptPixels(img)[i], Extract(img, canvas)[i];
              var index := ByteIndex(img.width, p.x, p.y);
              index + 2 < |img.data| &&
              q.color == Rgb(img.data[index], img.data[index + 1], img.data[index + 2])
  {
    var kept := KeptPixels(img);
    forall i | 0 <= i < |kept|
      ensures ByteIndex(img.width, kept[i].x, kept[i].y) + 2 < |img.data|
    {
      assert kept[i] in kept;
      IndexInBounds(img.width, img.height, kept[i].x, kept[i].y);
    }
  }

  /** The field has at most ceil(w/4) * ceil(h/4) particles, exactly that many for an
      image whose sampled pixels are all opaque enough, and none for an image with no
      alpha above 128. */
  lemma ExtractCount(img: ImageData, canvas: Canvas)
    requires img.Valid()
    ensures |Extract(img, canvas)| <= ((img.width + 3) / 4) * ((img.height + 3) / 4)
    ensures (forall p :: OnGrid(img, p) ==> Kept(img, p)) ==>
              |Extract(img, canvas)| == ((img.width + 3) / 4) * ((img.height + 3) / 4)
    ensures (forall x: nat, y: nat :: img.Contains(x, y) ==> Alpha(img, x, y) <= 128) ==>
              Extract(img, canvas) == []
  {
    KeptPixelsCount(img);
  }

  /** Every particle starts inside the canvas: 0 <= x < canvas width and 0 <= y < canvas
      height, degenerating to the coordinate 0 on an axis of extent 0. */
  lemma ExtractInsideCanvas(img: ImageData, canvas: Canvas)
    requires img.Valid()
    ensures forall q :: q in Extract(img, canvas) ==>
              0.0 <= q.x <= canvas.width as real && 0.0 <= q.y <= canvas.height as real
    ensures forall q :: q in Extract(img, canvas) ==>
              (canvas.width > 0 ==> q.x < canvas.width as real) &&
              (canvas.height > 0 ==> q.y < canvas.height as real)
  {
    var kept := KeptPixels(img);
    forall i | 0 <= i < |kept|
      ensures var q := Extract(img, canvas)[i];
              0.0 <= q.x <= canvas.width as real && 0.0 <= q.y <= canvas.height as real &&
              (canvas.width > 0 ==> q.x < canvas.width as real) &&
              (canvas.height > 0 ==> q.y < canvas.height as real)
    {
      assert kept[i] in kept;
      ScaleInsideCanvas(kept[i].x, canvas.width, img.width);
      ScaleInsideCanvas(kept[i].y, canvas.height, img.height);
    }
  }

  /** On a non-empty canvas the particles come out in row-major order of their rest
      positions: rows strictly ascending, and within a row x strictly ascending. */
  lemma ExtractRowMajor(img: ImageData, canvas: Canvas)
    requires img.Valid() && canvas.width > 0 && canvas.height > 0
    ensures forall i, j :: 0 <= i < j < |Extract(img, canvas)| ==>
              var a, b := Extract(img, canvas)[i], Extract(img, canvas)[j];
              a.originalY < b.originalY || (a.originalY == b.originalY && a.originalX < b.originalX)
  {
    var kept := KeptPixels(img);
    var field := Extract(img, canvas);
    ScanRowsOrdered(img, 0);
    forall i, j | 0 <= i < j < |field|
      ensures field[i].originalY < field[j].originalY ||
              (field[i].originalY == field[j].originalY && field[i].originalX < field[j].originalX)
    {
      assert kept[i] in kept && kept[j] in kept;
      assert Before(kept[i], kept[j]);
      if kept[i].y < kept[j].y {
        ScaleStrictlyMonotone(kept[i].y, kept[j].y, canvas.height, img.height);
      } else {
        ScaleStrictlyMonotone(kept[i].x, kept[j].x, canvas.width, img.width);
      }
    }
  }

  /** An image no larger than one stride in each direction is sampled at its top-left
      pixel only: it yields one particle, coloured like that pixel and resting at the
      canvas origin, when that pixel's alpha exceeds 128, and no particle otherwise. */
  lemma SinglePixelSample(img: ImageData, canvas: Canvas)
    requires img.Valid() && 0 < img.width <= Spacing && 0 < img.height <= Spacing
    ensures Alpha(img, 0, 0) > 128 ==>
              Extract(img, canvas) == [Particle(0.0, 0.0, 0.0, 0.0, 0.0, 0.0, ColorAt(img, 0, 0))]
    ensures Alpha(img, 0, 0) <= 128 ==> Extract(img, canvas) == []
  {
    ScanRowsUnfold(img, 0);
    ScanRowUnfold(img, 0, 0);
    assert ScanRow(img, 0, Spacing) == [];
    assert ScanRows(img, Spacing) == [];
  }
}
