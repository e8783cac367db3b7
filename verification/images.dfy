/** Raster frames: a width, a height, row-major RGBA8 pixels, and the
    overlay marks that QPainter would have drawn onto them. */
module Images {
  import opened Colors

  datatype Point = Point(x: int, y: int)

  /** A stroke drawn onto a frame: an unfilled ring (QPainter::drawEllipse
      with NoBrush) or a straight line segment (QPainter::drawLine). */
  datatype Mark =
    | Ring(center: Point, radius: int, thickness: int, color: Rgba)
    | Line(from: Point, to: Point, thickness: int, color: Rgba)

  /** A QImage in Format_ARGB32. `overlay` lists, in drawing order, the
      strokes painted onto the pixels since they were loaded. */
  datatype Image = Image(width: nat, height: nat, pixels: seq<Rgba>, overlay: seq<Mark>)

  predicate Valid(img: Image) {
    |img.pixels| == img.width * img.height
  }

  /** QImage(): the null image. */
  const Null := Image(0, 0, [], [])

  /** QImage::isNull(): an image without pixel data. */
  predicate IsNull(img: Image) {
    img.width == 0 || img.height == 0
  }

  predicate InBounds(w: int, h: int, p: Point) {
    0 <= p.x < w && 0 <= p.y < h
  }

  /** Row-major position of a point. */
  function Offset(w: nat, h: nat, p: Point): (k: nat)
    requires InBounds(w, h, p)
    ensures k < w * h
  {
    RowMajorBound(w, h, p.x, p.y);
    p.y * w + p.x
  }

  lemma RowMajorBound(w: nat, h: nat, x: int, y: int)
    requires 0 <= x < w && 0 <= y < h
    ensures 0 <= y * w + x < w * h
  {
    assert y * w <= (h - 1) * w;
  }

  /** QImage::pixelColor: the colour at a point; outside the image, where
      Qt answers with an invalid colour, the model answers transparent. */
  function PixelAt(img: Image, p: Point): Rgba {
    if InBounds(img.width, img.height, p) && Valid(img) then img.pixels[Offset(img.width, img.height, p)]
    else Transparent
  }

  /** A `w` by `h` image every pixel of which is `c`: QImage(w, h) after fill(c). */
  function Filled(w: nat, h: nat, c: Rgba): (img: Image)
    ensures Valid(img) && img.overlay == []
    ensures forall p :: InBounds(w, h, p) ==> PixelAt(img, p) == c
  {
    Image(w, h, seq(w * h, _ => c), [])
  }
}
