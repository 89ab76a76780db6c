/**
 The pixel buffer the particle builder reads: an RGBA image as handed out by a
 2D canvas (`getImageData`), `width * height` pixels in row-major order, four
 bytes per pixel (red, green, blue, alpha).
 */
module Raster {

  /** One channel value of a canvas pixel (an element of a clamped byte array). */
  type byte = b: int | 0 <= b < 256

  /** Bytes per pixel: red, green, blue, alpha. */
  const Channels: nat := 4

  /** The colour a particle inherits from its source pixel. */
  datatype Rgb = Rgb(r: byte, g: byte, b: byte)

  /** A decoded image: its dimensions and its flat RGBA buffer. */
  datatype ImageData = ImageData(width: nat, height: nat, data: seq<byte>) {

    /** The canvas guarantees exactly four bytes for every pixel. */
    predicate Valid() {
      |data| == width * height * Channels
    }

    /** The pixel (x, y) lies inside the image. */
    predicate Contains(x: nat, y: nat) {
      x < width && y < height
    }
  }

  /** Offset of the red byte of pixel (x, y) in a buffer whose rows are `w` pixels wide. */
  function ByteIndex(w: nat, x: nat, y: nat): nat {
    (y * w + x) * Channels
  }

  /** The four bytes of any pixel inside a `w` by `h` image lie inside its buffer. */
  lemma IndexInBounds(w: nat, h: nat, x: nat, y: nat)
    requires x < w && y < h
    ensures 0 <= ByteIndex(w, x, y)
    ensures ByteIndex(w, x, y) + Channels <= w * h * Channels
  {
    calc {
      y * w + x;
    <  y * w + w;
    == (y + 1) * w;
    <= { MulMonotone(y + 1, h, w); }
       h * w;
    }
    assert y * w + x + 1 <= w * h;
    MulMonotone(y * w + x + 1, w * h, Channels);
  }

  /** Distinct pixels of a row-major buffer own disjoint groups of four bytes: the
      group of one ends at or before the start of the other. */
  lemma DistinctPixelsDisjointBytes(w: nat, x1: nat, y1: nat, x2: nat, y2: nat)
    requires x1 < w && x2 < w && (x1, y1) != (x2, y2)
    ensures ByteIndex(w, x1, y1) + Channels <= ByteIndex(w, x2, y2) ||
            ByteIndex(w, x2, y2) + Channels <= ByteIndex(w, x1, y1)
  {
    if y1 < y2 {
      MulMonotone(y1 + 1, y2, w);
      RowBefore(w, x1, y1, x2, y2);
    } else if y2 < y1 {
      MulMonotone(y2 + 1, y1, w);
      RowBefore(w, x2, y2, x1, y1);
    }
  }

  /** A pixel of an earlier row starts its bytes at least one pixel before any pixel
      of a later row. */
  lemma RowBefore(w: nat, x1: nat, y1: nat, x2: nat, y2: nat)
    requires x1 < w && (y1 + 1) * w <= y2 * w
    ensures ByteIndex(w, x1, y1) + Channels <= ByteIndex(w, x2, y2)
  {
    assert y1 * w + x1 + 1 <= (y1 + 1) * w;
    MulMonotone(y1 * w + x1 + 1, y2 * w + x2, Channels);
  }

  /** Multiplying by a natural number preserves `<=`. */
  lemma MulMonotone(a: nat, b: nat, c: nat)
    requires a <= b
    ensures a * c <= b * c
  {
  }

  /** Alpha byte of pixel (x, y). */
  function Alpha(img: ImageData, x: nat, y: nat): byte
    requires img.Valid() && img.Contains(x, y)
  {
    var i := ByteIndex(img.width, x, y);
    IndexInBounds(img.width, img.height, x, y);
    assert i + 3 < |img.data|;
    img.data[i + 3]
  }

  /** Red, green and blue bytes of pixel (x, y). */
  function ColorAt(img: ImageData, x: nat, y: nat): Rgb
    requires img.Valid() && img.Contains(x, y)
  {
    var i := ByteIndex(img.width, x, y);
    IndexInBounds(img.width, img.height, x, y);
    assert i + 2 < |img.data|;
    Rgb(img.data[i], img.data[i + 1], img.data[i + 2])
  }

  /** The alpha and colour of pixel (x, y) are the bytes at offsets 0..3 from its byte index. */
  lemma PixelBytes(img: ImageData, x: nat, y: nat)
    requires img.Valid() && img.Contains(x, y)
    ensures ByteIndex(img.width, x, y) + 3 < |img.data|
    ensures Alpha(img, x, y) == img.data[ByteIndex(img.width, x, y) + 3]
    ensures ColorAt(img, x, y) == Rgb(img.data[ByteIndex(img.width, x, y)],
                                      img.data[ByteIndex(img.width, x, y) + 1],
                                      img.data[ByteIndex(img.width, x, y) + 2])
  {
    IndexInBounds(img.width, img.height, x, y);
  }
}
