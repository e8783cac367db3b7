/** The minimal Truevision TGA 2.0 reader used when Qt cannot decode a
    `.tga` file: true-colour images (type 2) and their run-length encoded
    form (type 10), 24 or 32 bits per pixel. */
module Tga {
  import opened Arith
  import opened Colors
  import opened Images

  type Byte = x: int | 0 <= x < 256

  /** `QDataStream >> quint8`: the byte at `pos`, or 0 once the file is
      exhausted (a short read leaves the value zero). */
  function ByteAt(data: seq<Byte>, pos: nat): Byte {
    if pos < |data| then data[pos] else 0
  }

  /** `QDataStream >> quint16` in little-endian order; a read that finds
      fewer than two bytes yields 0. */
  function Word16At(data: seq<Byte>, pos: nat): nat {
    if pos + 1 < |data| then data[pos] as int + 256 * data[pos + 1] as int else 0
  }

  /** The 18-byte header: id length (field 1), image type (field 3),
      width, height, pixel depth and image descriptor (field 5). */
  datatype Header = Header(idLength: Byte, colorMapType: Byte, imageType: Byte,
                           width: nat, height: nat, pixelDepth: Byte, descriptor: Byte)

  const HeaderSize: nat := 18

  function ParseHeader(data: seq<Byte>): Header {
    // bytes 3..7 (colour map specification) and 8..11 (x and y origin) are skipped
    Header(ByteAt(data, 0), ByteAt(data, 1), ByteAt(data, 2),
           Word16At(data, 12), Word16At(data, 14), ByteAt(data, 16), ByteAt(data, 17))
  }

  predicate Supported(hd: Header) {
    (hd.imageType == 2 || hd.imageType == 10) && (hd.pixelDepth == 24 || hd.pixelDepth == 32)
  }

  /** Bit 5 of the image descriptor (0x20): rows are stored top to bottom. */
  predicate TopOrigin(descriptor: Byte) {
    (descriptor / 32) % 2 == 1
  }

  /** One pixel stored as blue, green, red and, at 32 bits, alpha; a 24-bit
      pixel is opaque. */
  function ReadPixel(data: seq<Byte>, pos: nat, bytesPerPixel: nat): (c: Rgba)
    ensures bytesPerPixel != 4 ==> c.a == 255
  {
    Rgba(ByteAt(data, pos + 2), ByteAt(data, pos + 1), ByteAt(data, pos),
         if bytesPerPixel == 4 then ByteAt(data, pos + 3) else 255)
  }

  function Min(a: nat, b: nat): nat {
    if a <= b then a else b
  }

  /** One packet starting at `pos`, of which at most `remaining` pixels are
      still wanted. Returns the decoded pixels and the position after them. */
  function Packet(data: seq<Byte>, pos: nat, remaining: nat, rle: bool, bytesPerPixel: nat)
    : (res: (seq<Rgba>, nat))
    requires remaining > 0
    ensures var (run, next) := res;
      var header := if rle then ByteAt(data, pos) else 127;
      var start := if rle then pos + 1 else pos;
      var count := Min(header % 128 + 1, remaining);
      && |run| == count
      && 0 < count <= remaining
      && (if rle && header >= 128 then
            // a run-length packet: one stored pixel, repeated
            run == Repeat(ReadPixel(data, start, bytesPerPixel), count) && next == start + bytesPerPixel
          else
            // a raw packet: consecutive stored pixels
            run == RawRun(data, start, count, bytesPerPixel) && next == start + count * bytesPerPixel)
  {
    var header := if rle then ByteAt(data, pos) else 127;
    var start := if rle then pos + 1 else pos;
    var count := Min(header % 128 + 1, remaining);
    if rle && header >= 128 then (Repeat(ReadPixel(data, start, bytesPerPixel), count), start + bytesPerPixel)
    else (RawRun(data, start, count, bytesPerPixel), start + count * bytesPerPixel)
  }

  /** `count` copies of one pixel. */
  function Repeat(c: Rgba, count: nat): (run: seq<Rgba>)
    ensures |run| == count && forall k :: 0 <= k < count ==> run[k] == c
  {
    if count == 0 then [] else Repeat(c, count - 1) + [c]
  }

  /** `count` consecutive stored pixels from `start` on. */
  function RawRun(data: seq<Byte>, start: nat, count: nat, bytesPerPixel: nat): (run: seq<Rgba>)
    ensures |run| == count
    ensures forall k :: 0 <= k < count ==> run[k] == ReadPixel(data, start + k * bytesPerPixel, bytesPerPixel)
  {
    seq(count, k requires 0 <= k < count => ReadPixel(data, start + k * bytesPerPixel, bytesPerPixel))
  }

  /** The pixels of the image data in file order: packets are read while
      pixels are still wanted and the file has not ended. */
  function Stream(data: seq<Byte>, pos: nat, remaining: nat, rle: bool, bytesPerPixel: nat)
    : (pixels: seq<Rgba>)
    ensures |pixels| <= remaining
    ensures bytesPerPixel != 4 ==> forall k :: 0 <= k < |pixels| ==> pixels[k].a == 255
    decreases remaining
  {
    if remaining == 0 || pos >= |data| then []
    else
      var (run, next) := Packet(data, pos, remaining, rle, bytesPerPixel);
      run + Stream(data, next, remaining - |run|, rle, bytesPerPixel)
  }

  /** The row of the image that the `row`-th stored row lands on. */
  function DestRow(row: nat, height: nat, top: bool): int {
    if top then row else height - 1 - row
  }

  /** The image pixels: the `n`-th stored pixel goes to column `n % width`
      and row `n / width` (flipped for bottom-origin files); pixels the
      data did not reach stay transparent. */
  function Place(width: nat, height: nat, top: bool, stored: seq<Rgba>): (img: Image)
    ensures Valid(img) && img.width == width && img.height == height && img.overlay == []
  {
    Image(width, height,
          seq(width * height, k requires 0 <= k < width * height =>
            var n := DestRow(k / width, height, top) * width + k % width;
            if 0 <= n < |stored| then stored[n] else Transparent),
          [])
  }

  /** loadTGA: the decoded image, or the null image for an unsupported type or depth. */
  function Decode(data: seq<Byte>): (img: Image)
    ensures Valid(img) && img.overlay == []
    ensures !Supported(ParseHeader(data)) ==> img == Null
    ensures Supported(ParseHeader(data)) ==>
      img.width == ParseHeader(data).width && img.height == ParseHeader(data).height
  {
    var hd := ParseHeader(data);
    if !Supported(hd) then Null
    else
      var stored := Stream(data, HeaderSize + hd.idLength, hd.width * hd.height,
                           hd.imageType == 10, hd.pixelDepth / 8);
      Place(hd.width, hd.height, TopOrigin(hd.descriptor), stored)
  }

  /** The stored pixels of a supported file, in file order. */
  function StoredPixels(data: seq<Byte>): seq<Rgba> {
    var hd := ParseHeader(data);
    Stream(data, HeaderSize + hd.idLength, hd.width * hd.height, hd.imageType == 10, hd.pixelDepth / 8)
  }

  /** What Place puts at an in-bounds point. */
  lemma PlacePoint(width: nat, height: nat, top: bool, stored: seq<Rgba>, x: int, y: int)
    requires InBounds(width, height, Point(x, y))
    ensures var n := DestRow(y, height, top) * width + x;
      PixelAt(Place(width, height, top, stored), Point(x, y)) == (if 0 <= n < |stored| then stored[n] else Transparent)
  {
    var k := Offset(width, height, Point(x, y));
    DivModStep(y, x, width);
    assert k / width == y && k % width == x;
  }

  /** A supported file decodes to its stored pixels in place. */
  lemma DecodeSupported(data: seq<Byte>)
    requires Supported(ParseHeader(data))
    ensures var hd := ParseHeader(data);
      Decode(data) == Place(hd.width, hd.height, TopOrigin(hd.descriptor), StoredPixels(data))
  {
  }

  /** Placement of one stored pixel: the `n`-th stored pixel lands at
      column n % w of row n / w, flipped unless rows are stored top first. */
  lemma PlaceAt(width: nat, height: nat, top: bool, stored: seq<Rgba>, n: nat)
    requires n < width * height
    ensures var p := Point(n % width, DestRow(n / width, height, top));
      && InBounds(width, height, p)
      && PixelAt(Place(width, height, top, stored), p) == (if n < |stored| then stored[n] else Transparent)
  {
    var w, h := width, height;
    var x, row := n % w, n / w;
    RowBelow(n, w, h);
    var y := DestRow(row, h, top);
    var p := Point(x, y);
    var k := Offset(w, h, p);
    assert k == y * w + x;
    DivModStep(y, x, w);
    assert k / w == y && k % w == x;
    assert DestRow(y, h, top) == row;
    assert row * w + x == n;
  }

  /** Pixel (x, y) of a decoded file is stored pixel number
      row * width + x, where row is y for top-origin files and
      height - 1 - y otherwise; a pixel the data did not reach is
      transparent. */
  lemma DecodePlacement(data: seq<Byte>, x: int, y: int)
    requires Supported(ParseHeader(data))
    requires InBounds(ParseHeader(data).width, ParseHeader(data).height, Point(x, y))
    ensures var hd := ParseHeader(data);
      var n := DestRow(y, hd.height, TopOrigin(hd.descriptor)) * hd.width + x;
      PixelAt(Decode(data), Point(x, y)) == (if 0 <= n < |StoredPixels(data)| then StoredPixels(data)[n] else Transparent)
  {
    var hd := ParseHeader(data);
    DecodeSupported(data);
    PlacePoint(hd.width, hd.height, TopOrigin(hd.descriptor), StoredPixels(data), x, y);
  }

  /** A 24-bit file decodes to an image whose stored pixels are all opaque. */
  lemma TwentyFourBitIsOpaque(data: seq<Byte>, n: nat)
    requires ParseHeader(data).pixelDepth == 24
    requires n < |StoredPixels(data)|
    ensures StoredPixels(data)[n].a == 255
  {
  }

  // ---------------------------------------------------------------------
  // Two 32-bit top-origin writers, uncompressed (type 2) and run-length
  // encoded (type 10), each inverted by Decode.

  /** The header of a 32-bit file of the given type and size, rows stored
      top first, without an image id or colour map. */
  function HeaderBytes(imageType: Byte, width: nat, height: nat): (bytes: seq<Byte>)
    requires width < 0x1_0000 && height < 0x1_0000
    ensures |bytes| == HeaderSize
  {
    [0, 0, imageType, 0, 0, 0, 0, 0, 0, 0, 0, 0,
     width % 256, width / 256, height % 256, height / 256, 32, 0x20]
  }

  /** The reader reads back the fields HeaderBytes writes, whatever follows. */
  lemma HeaderRead(imageType: Byte, width: nat, height: nat, body: seq<Byte>)
    requires width < 0x1_0000 && height < 0x1_0000
    ensures ParseHeader(HeaderBytes(imageType, width, height) + body) == Header(0, 0, imageType, width, height, 32, 0x20)
  {
    var data := HeaderBytes(imageType, width, height) + body;
    assert data[12] == width % 256 && data[13] == width / 256;
    assert data[14] == height % 256 && data[15] == height / 256;
    assert data[16] == 32 && data[17] == 0x20 && data[2] == imageType && data[0] == 0 && data[1] == 0;
  }

  /** Byte `i` of the pixel data: blue, green, red, alpha per pixel. */
  function PixelByte(c: Rgba, i: nat): Byte {
    if i % 4 == 0 then c.b else if i % 4 == 1 then c.g else if i % 4 == 2 then c.r else c.a
  }

  /** A type-2, 32-bit, top-origin file holding the image's pixels. */
  function Encode(img: Image): (data: seq<Byte>)
    requires Valid(img) && img.width < 0x1_0000 && img.height < 0x1_0000
    ensures |data| == HeaderSize + 4 * |img.pixels|
    ensures data[HeaderSize..] == PixelData(img.pixels)
  {
    HeaderBytes(2, img.width, img.height) + PixelData(img.pixels)
  }

  function PixelData(pixels: seq<Rgba>): (bytes: seq<Byte>)
    ensures |bytes| == 4 * |pixels|
    ensures forall m, c :: 0 <= m < |pixels| && 0 <= c < 4 ==> bytes[4 * m + c] == PixelByte(pixels[m], c)
  {
    if pixels == [] then []
    else [pixels[0].b, pixels[0].g, pixels[0].r, pixels[0].a] + PixelData(pixels[1..])
  }

  lemma EncodedPixel(img: Image, m: nat)
    requires Valid(img) && img.width < 0x1_0000 && img.height < 0x1_0000
    requires m < |img.pixels|
    ensures ReadPixel(Encode(img), HeaderSize + 4 * m, 4) == img.pixels[m]
  {
    var data := Encode(img);
    var pd := PixelData(img.pixels);
    var base := HeaderSize + 4 * m;
    var c := img.pixels[m];
    assert ByteAt(data, base) == pd[4 * m + 0] == PixelByte(c, 0) == c.b;
    assert ByteAt(data, base + 1) == pd[4 * m + 1] == PixelByte(c, 1) == c.g;
    assert ByteAt(data, base + 2) == pd[4 * m + 2] == PixelByte(c, 2) == c.r;
    assert ByteAt(data, base + 3) == pd[4 * m + 3] == PixelByte(c, 3) == c.a;
  }

  /** Reading raw 128-pixel chunks from data that holds `pixels` as
      consecutive 4-byte entries yields those pixels. */
  lemma {:induction false} RawChunks(data: seq<Byte>, base: nat, pixels: seq<Rgba>, k: nat)
    requires |data| == base + 4 * |pixels|
    requires forall m :: 0 <= m < |pixels| ==> ReadPixel(data, base + 4 * m, 4) == pixels[m]
    requires k <= |pixels|
    ensures Stream(data, base + 4 * k, |pixels| - k, false, 4) == pixels[k..]
    decreases |pixels| - k
  {
    var rem := |pixels| - k;
    if rem > 0 {
      var run := RawStep(data, base, pixels, k);
      var next := k + |run|;
      assert Stream(data, base + 4 * k, rem, false, 4) == run + Stream(data, base + 4 * next, |pixels| - next, false, 4) by {
        StreamStep(data, base + 4 * k, rem, run, base + 4 * next);
      }
      RawChunks(data, base, pixels, next);
      assert pixels[k..] == run + pixels[next..];
    }
  }

  /** Reading goes on with the packet after the first one. */
  lemma StreamStep(data: seq<Byte>, pos: nat, remaining: nat, run: seq<Rgba>, next: nat)
    requires pos < |data| && remaining > 0
    requires Packet(data, pos, remaining, false, 4) == (run, next)
    ensures Stream(data, pos, remaining, false, 4) == run + Stream(data, next, remaining - |run|, false, 4)
  {
  }

  /** One raw packet of 4-byte pixels read from entry `k` on holds the
      next entries and ends where the entry after them starts. */
  lemma RawStep(data: seq<Byte>, base: nat, pixels: seq<Rgba>, k: nat) returns (run: seq<Rgba>)
    requires forall m :: 0 <= m < |pixels| ==> ReadPixel(data, base + 4 * m, 4) == pixels[m]
    requires k < |pixels|
    ensures Packet(data, base + 4 * k, |pixels| - k, false, 4) == (run, base + 4 * (k + |run|))
    ensures 0 < |run| && k + |run| <= |pixels| && run == pixels[k..k + |run|]
  {
    var next;
    run, next := Packet(data, base + 4 * k, |pixels| - k, false, 4).0, Packet(data, base + 4 * k, |pixels| - k, false, 4).1;
    forall j | 0 <= j < |run|
      ensures run[j] == pixels[k + j]
    {
      assert base + 4 * k + j * 4 == base + 4 * (k + j);
    }
  }

  lemma EncodedHeader(img: Image)
    requires Valid(img) && img.width < 0x1_0000 && img.height < 0x1_0000
    ensures ParseHeader(Encode(img)) == Header(0, 0, 2, img.width, img.height, 32, 0x20)
  {
    HeaderRead(2, img.width, img.height, PixelData(img.pixels));
  }

  /** With rows stored top first and every pixel present, placement is the identity. */
  lemma PlaceComplete(width: nat, height: nat, stored: seq<Rgba>)
    requires |stored| == width * height
    ensures Place(width, height, true, stored).pixels == stored
  {
    var img := Place(width, height, true, stored);
    forall k | 0 <= k < |stored|
      ensures img.pixels[k] == stored[k]
    {
      var x, y := k % width, k / width;
      RowBelow(k, width, height);
      PlacePoint(width, height, true, stored, x, y);
      assert Offset(width, height, Point(x, y)) == k;
    }
  }

  /** Round trip: decoding what Encode writes gives the image back. */
  lemma DecodeEncode(img: Image)
    requires Valid(img) && img.width < 0x1_0000 && img.height < 0x1_0000
    requires img.overlay == []
    ensures Decode(Encode(img)) == img
  {
    var data := Encode(img);
    EncodedHeader(img);
    var hd := ParseHeader(data);
    assert Supported(hd) && TopOrigin(hd.descriptor);
    assert StoredPixels(data) == img.pixels by {
      forall m | 0 <= m < |img.pixels|
        ensures ReadPixel(data, HeaderSize + 4 * m, 4) == img.pixels[m]
      {
        EncodedPixel(img, m);
      }
      RawChunks(data, HeaderSize, img.pixels, 0);
    }
    PlaceComplete(img.width, img.height, img.pixels);
    DecodeSupported(data);
  }

  /** The number of equal pixels at the front, at most 128: the longest
      run one packet can hold. */
  function RunLength(pixels: seq<Rgba>): (n: nat)
    requires pixels != []
    ensures 1 <= n <= 128 && n <= |pixels|
    ensures forall k :: 0 <= k < n ==> pixels[k] == pixels[0]
    ensures n < 128 && n < |pixels| ==> pixels[n] != pixels[0]
  {
    RunFrom(pixels, 1)
  }

  function RunFrom(pixels: seq<Rgba>, n: nat): (m: nat)
    requires 1 <= n <= |pixels| && n <= 128
    requires forall k :: 0 <= k < n ==> pixels[k] == pixels[0]
    ensures n <= m <= 128 && m <= |pixels|
    ensures forall k :: 0 <= k < m ==> pixels[k] == pixels[0]
    ensures m < 128 && m < |pixels| ==> pixels[m] != pixels[0]
    decreases |pixels| - n
  {
    if n < 128 && n < |pixels| && pixels[n] == pixels[0] then RunFrom(pixels, n + 1) else n
  }

  /** The header byte of a packet for a run of `n` equal pixels: a run
      packet (0x80 | n - 1) for two or more, a raw packet of one (0) for a
      lone pixel. */
  function RleHeader(n: nat): Byte
    requires 1 <= n <= 128
  {
    if n == 1 then 0 else 128 + n - 1
  }

  /** A packet header followed by one 32-bit pixel. */
  function PixelPacket(h: Byte, c: Rgba): seq<Byte> {
    [h, c.b, c.g, c.r, c.a]
  }

  /** Run-length packets for the pixels, one per run of equal pixels. */
  function RlePackets(pixels: seq<Rgba>): (bytes: seq<Byte>)
    decreases |pixels|
  {
    if pixels == [] then []
    else
      var n := RunLength(pixels);
      PixelPacket(RleHeader(n), pixels[0]) + RlePackets(pixels[n..])
  }

  /** A type-10, 32-bit, top-origin file holding the image's pixels. */
  function EncodeRle(img: Image): (data: seq<Byte>)
    requires Valid(img) && img.width < 0x1_0000 && img.height < 0x1_0000
  {
    HeaderBytes(10, img.width, img.height) + RlePackets(img.pixels)
  }

  /** The packets written for `pixels`, read from where they start, give
      the pixels back. */
  lemma {:induction false} RleStream(data: seq<Byte>, prefix: seq<Byte>, pixels: seq<Rgba>)
    requires data == prefix + RlePackets(pixels)
    ensures Stream(data, |prefix|, |pixels|, true, 4) == pixels
    decreases |pixels|
  {
    if pixels != [] {
      var prefix', run, rest := RleFirstPacket(prefix, pixels);
      RleStreamStep(data, |prefix|, |pixels|, run, |prefix'|);
      RleStream(data, prefix', rest);
    }
  }

  /** Reading run-length data goes on with the packet after the first one. */
  lemma RleStreamStep(data: seq<Byte>, pos: nat, remaining: nat, run: seq<Rgba>, next: nat)
    requires pos < |data| && remaining > 0
    requires Packet(data, pos, remaining, true, 4) == (run, next)
    ensures Stream(data, pos, remaining, true, 4) == run + Stream(data, next, remaining - |run|, true, 4)
  {
  }

  /** A run packet: a header of 128 or more followed by one pixel yields
      that pixel `(header & 0x7F) + 1` times. */
  lemma RunPacket(data: seq<Byte>, pos: nat, remaining: nat, c: Rgba, n: nat)
    requires 2 <= n <= 128 && n <= remaining
    requires ByteAt(data, pos) == 128 + n - 1 && ReadPixel(data, pos + 1, 4) == c
    ensures Packet(data, pos, remaining, true, 4) == (Repeat(c, n), pos + 5)
  {
  }

  /** A raw packet with header 0 yields the one pixel stored after it. */
  lemma LonePacket(data: seq<Byte>, pos: nat, remaining: nat, c: Rgba)
    requires remaining > 0
    requires ByteAt(data, pos) == 0 && ReadPixel(data, pos + 1, 4) == c
    ensures Packet(data, pos, remaining, true, 4) == ([c], pos + 5)
  {
    assert RawRun(data, pos + 1, 1, 4) == [c];
  }

  /** The first packet written for `pixels` reads back as their first run
      and ends five bytes on, where the packets for the rest begin. */
  lemma RleFirstPacket(prefix: seq<Byte>, pixels: seq<Rgba>) returns (prefix': seq<Byte>, run: seq<Rgba>, rest: seq<Rgba>)
    requires pixels != []
    ensures pixels == run + rest && |rest| < |pixels| && |pixels| - |run| == |rest|
    ensures |prefix'| == |prefix| + 5 <= |prefix + RlePackets(pixels)|
    ensures prefix + RlePackets(pixels) == prefix' + RlePackets(rest)
    ensures Packet(prefix + RlePackets(pixels), |prefix|, |pixels|, true, 4) == (run, |prefix'|)
  {
    var n := RunLength(pixels);
    var c := pixels[0];
    run, rest := pixels[..n], pixels[n..];
    var data := prefix + RlePackets(pixels);
    prefix' := RleLayout(prefix, pixels);
    var pos := |prefix|;
    if n == 1 {
      LonePacket(data, pos, |pixels|, c);
      assert [c] == run;
    } else {
      RunPacket(data, pos, |pixels|, c, n);
      assert Repeat(c, n) == run;
    }
    assert pixels == run + rest;
  }

  /** The bytes of the first packet: its header and the pixel after it. */
  lemma RleLayout(prefix: seq<Byte>, pixels: seq<Rgba>) returns (prefix': seq<Byte>)
    requires pixels != []
    ensures var n := RunLength(pixels);
      var data := prefix + RlePackets(pixels);
      && |prefix'| == |prefix| + 5 <= |data|
      && data == prefix' + RlePackets(pixels[n..])
      && ByteAt(data, |prefix|) == RleHeader(n)
      && ReadPixel(data, |prefix| + 1, 4) == pixels[0]
  {
    var n := RunLength(pixels);
    var packet := PixelPacket(RleHeader(n), pixels[0]);
    prefix' := prefix + packet;
    var tail := RlePackets(pixels[n..]);
    assert prefix + RlePackets(pixels) == prefix' + tail;
    PacketBytes(prefix, RleHeader(n), pixels[0], tail);
  }

  /** Reading a packet header and its pixel back from where they were written. */
  lemma PacketBytes(prefix: seq<Byte>, h: Byte, c: Rgba, tail: seq<Byte>)
    ensures var data := prefix + PixelPacket(h, c) + tail;
      ByteAt(data, |prefix|) == h && ReadPixel(data, |prefix| + 1, 4) == c
  {
    var data := prefix + PixelPacket(h, c) + tail;
    var pos := |prefix|;
    assert data[pos] == h && data[pos + 1] == c.b && data[pos + 2] == c.g && data[pos + 3] == c.r && data[pos + 4] == c.a;
  }

  /** Round trip: decoding what EncodeRle writes gives the image back. */
  lemma DecodeEncodeRle(img: Image)
    requires Valid(img) && img.width < 0x1_0000 && img.height < 0x1_0000
    requires img.overlay == []
    ensures Decode(EncodeRle(img)) == img
  {
    var data := EncodeRle(img);
    var header := HeaderBytes(10, img.width, img.height);
    HeaderRead(10, img.width, img.height, RlePackets(img.pixels));
    var hd := ParseHeader(data);
    assert Supported(hd) && TopOrigin(hd.descriptor);
    assert StoredPixels(data) == img.pixels by {
      RleStream(data, header, img.pixels);
    }
    PlaceComplete(img.width, img.height, img.pixels);
    DecodeSupported(data);
  }
}
