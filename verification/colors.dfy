/** RGBA8 colours, as the engine sees them through QColor and QRgb. */
module Colors {
  import opened Arith

  /** One 8-bit colour channel. */
  type Channel = x: int | 0 <= x < 256

  /** A colour with red, green, blue and alpha channels. Two QColor values
      built from RGBA8 data are equal exactly when their channels are equal. */
  datatype Rgba = Rgba(r: Channel, g: Channel, b: Channel, a: Channel)

  const Transparent := Rgba(0, 0, 0, 0)
  const Red := Rgba(255, 0, 0, 255)
  const Green := Rgba(0, 255, 0, 255)
  const Blue := Rgba(0, 0, 255, 255)
  const Yellow := Rgba(255, 255, 0, 255)

  /** A 32-bit unsigned word, the range of QRgb. */
  type Word = x: int | 0 <= x < 0x1_0000_0000

  /** QColor::rgba(): the packed 0xAARRGGBB word of a colour. */
  function Argb32(c: Rgba): (w: Word)
    ensures w / 0x100_0000 == c.a
    ensures w % 0x100 == c.b
  {
    var rgb := c.r * 0x1_0000 + c.g * 0x100 + c.b;
    DivModStep(c.a, rgb, 0x100_0000);
    DivModStep(c.a * 0x1_0000 + c.r * 0x100 + c.g, c.b, 0x100);
    c.a * 0x100_0000 + rgb
  }

  /** qRed, qGreen, qBlue and qAlpha applied to a packed word. */
  function Unpack(w: Word): Rgba {
    Rgba((w / 0x1_0000) % 0x100, (w / 0x100) % 0x100, w % 0x100, w / 0x100_0000)
  }

  /** The colour with alpha forced to 255, as QColor::rgb() produces. */
  function Opaque(c: Rgba): (o: Rgba)
    ensures o.a == 255
    ensures o.r == c.r && o.g == c.g && o.b == c.b
  {
    c.(a := 255)
  }

  /** QColor::rgb(): the packed word of the opaque version of a colour. */
  function Rgb32(c: Rgba): Word {
    Argb32(Opaque(c))
  }

  /** Unpacking the packed word gives back the four channels. */
  lemma UnpackArgb32(c: Rgba)
    ensures Unpack(Argb32(c)) == c
  {
    var w := Argb32(c);
    var ar := c.a * 0x100 + c.r;
    var arg := ar * 0x100 + c.g;
    assert w == arg * 0x100 + c.b;
    DivModStep(arg, c.b, 0x100);
    assert w / 0x100 == arg;
    DivModStep(ar, c.g, 0x100);
    assert w == ar * 0x1_0000 + (c.g * 0x100 + c.b);
    DivModStep(ar, c.g * 0x100 + c.b, 0x1_0000);
    assert w / 0x1_0000 == ar;
    DivModStep(c.a, c.r, 0x100);
  }

  /** Comparing packed words is the same as comparing colours. */
  lemma Argb32Injective(c: Rgba, d: Rgba)
    ensures Argb32(c) == Argb32(d) <==> c == d
  {
    if Argb32(c) == Argb32(d) {
      UnpackArgb32(c);
      UnpackArgb32(d);
    }
  }

  /** Absolute value, as C's abs on int. */
  function Abs(x: int): (r: nat)
    ensures r == x || r == -x
  {
    if x < 0 then -x else x
  }
}
