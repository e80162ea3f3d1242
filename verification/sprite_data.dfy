/** The sprite archives: each sprite sits at an offset inside a numbered
    archive, behind a 28-octet header enciphered with a repeating key; its
    pixels are stored raw (type 1), run-length coded (type 2) or twice
    zlib-compressed (type 9), as indices into a palette chosen by name. */
module SpriteData {
  import opened Wrappers
  import opened Errors
  import opened Bytes
  import opened Arith
  import opened Pixels
  import opened Zlib
  import opened Rle
  import BestPalette
  import SpritePalette
  import SpriteId

  /** The repeating key of the sprite header cipher. */
  const KEY: seq<byte> := [
    0xAA, 0xAA, 0x58, 0x14,
    0x34, 0x12, 0x42, 0x62,
    0x55, 0x23, 0xC3, 0xF6,
    0xF3, 0xAA, 0xAA, 0xAA,
    0x21, 0x43, 0x34, 0x12,
    0xAA, 0xBB, 0xCC, 0xDD,
    0xDD, 0xCC, 0xBB, 0xAA]

  const HEADER_SIZE: nat := 28
  /** The archive's own header, skipped before every sprite offset. */
  const ARCHIVE_HEADER: nat := 4

  /** Octet `i` of the header exclusive-or'ed with octet `i` of the key. */
  function Decrypt(header: seq<byte>): (r: seq<byte>)
    requires |header| == HEADER_SIZE
    ensures |r| == HEADER_SIZE
  {
    seq(HEADER_SIZE, i requires 0 <= i < HEADER_SIZE => Xor(header[i], KEY[i]))
  }

  /** The header cipher is its own inverse. */
  lemma DecryptInvolution(header: seq<byte>)
    requires |header| == HEADER_SIZE
    ensures Decrypt(Decrypt(header)) == header
  {
    forall i | 0 <= i < HEADER_SIZE
      ensures Decrypt(Decrypt(header))[i] == header[i]
    {
      XorInvolution(header[i], KEY[i]);
    }
  }

  /** The deciphered header. `x`, `y`, `x2`, `y2` are the sprite's signed
      origin and extent; `unused` and `transColor` are read and not used. */
  datatype SpriteHeader = SpriteHeader(
    kind: nat, shadow: nat, width: nat, height: nat,
    x: int, y: int, x2: int, y2: int,
    unused: nat, transColor: nat, sizeOrig: nat, sizeComp: nat)

  /** Every field within the width of its slot. */
  predicate Storable(h: SpriteHeader) {
    && h.kind < 0x1_0000 && h.shadow < 0x1_0000 && h.width < 0x1_0000 && h.height < 0x1_0000
    && -0x8000 <= h.x < 0x8000 && -0x8000 <= h.y < 0x8000
    && -0x8000 <= h.x2 < 0x8000 && -0x8000 <= h.y2 < 0x8000
    && h.unused < 0x1_0000 && h.transColor < 0x1_0000
    && h.sizeOrig < 0x1_0000_0000 && h.sizeComp < 0x1_0000_0000
  }

  /** The fields of a deciphered header: u16 at 0, 2, 4, 6; i16 at 8, 10,
      12, 14; u16 at 16, 18; u32 at 20, 24. */
  function ParseHeader(b: seq<byte>): (h: SpriteHeader)
    requires |b| == HEADER_SIZE
    ensures Storable(h)
  {
    SpriteHeader(
      U16At(b, 0), U16At(b, 2), U16At(b, 4), U16At(b, 6),
      S16At(b, 8), S16At(b, 10), S16At(b, 12), S16At(b, 14),
      U16At(b, 16), U16At(b, 18), U32At(b, 20), U32At(b, 24))
  }

  function EncodeHeader(h: SpriteHeader): (b: seq<byte>)
    requires Storable(h)
    ensures |b| == HEADER_SIZE
  {
    Pow256Widths();
    LeBytes(h.kind, 2) + LeBytes(h.shadow, 2) + LeBytes(h.width, 2) + LeBytes(h.height, 2)
    + I16Bytes(h.x) + I16Bytes(h.y) + I16Bytes(h.x2) + I16Bytes(h.y2)
    + LeBytes(h.unused, 2) + LeBytes(h.transColor, 2) + LeBytes(h.sizeOrig, 4) + LeBytes(h.sizeComp, 4)
  }

  lemma ParseEncodeHeader(h: SpriteHeader)
    requires Storable(h)
    ensures ParseHeader(EncodeHeader(h)) == h
  {
    EncodedFront(h);
    EncodedBack(h);
  }

  /** The first six fields of an encoded header parse back. */
  lemma EncodedFront(h: SpriteHeader)
    requires Storable(h)
    ensures var p := ParseHeader(EncodeHeader(h));
      p.kind == h.kind && p.shadow == h.shadow && p.width == h.width
      && p.height == h.height && p.x == h.x && p.y == h.y
  {
    Pow256Widths();
    var b := EncodeHeader(h);
    var e1 := LeBytes(h.kind, 2);
    var e2 := e1 + LeBytes(h.shadow, 2);
    var e3 := e2 + LeBytes(h.width, 2);
    var e4 := e3 + LeBytes(h.height, 2);
    var e5 := e4 + I16Bytes(h.x);
    var e6 := e5 + I16Bytes(h.y);
    assert e6 <= b;
    Within(b, [], e1);
    Within(b, e1, LeBytes(h.shadow, 2));
    Within(b, e2, LeBytes(h.width, 2));
    Within(b, e3, LeBytes(h.height, 2));
    Within(b, e4, I16Bytes(h.x));
    Within(b, e5, I16Bytes(h.y));
  }

  /** The last six fields of an encoded header parse back. */
  lemma EncodedBack(h: SpriteHeader)
    requires Storable(h)
    ensures var p := ParseHeader(EncodeHeader(h));
      p.x2 == h.x2 && p.y2 == h.y2 && p.unused == h.unused
      && p.transColor == h.transColor && p.sizeOrig == h.sizeOrig && p.sizeComp == h.sizeComp
  {
    Pow256Widths();
    var b := EncodeHeader(h);
    var e6 := b[..12];
    var e7 := e6 + I16Bytes(h.x2);
    var e8 := e7 + I16Bytes(h.y2);
    var e9 := e8 + LeBytes(h.unused, 2);
    var e10 := e9 + LeBytes(h.transColor, 2);
    var e11 := e10 + LeBytes(h.sizeOrig, 4);
    assert b == e11 + LeBytes(h.sizeComp, 4);
    Within(b, e6, I16Bytes(h.x2));
    Within(b, e7, I16Bytes(h.y2));
    Within(b, e8, LeBytes(h.unused, 2));
    Within(b, e9, LeBytes(h.transColor, 2));
    Within(b, e10, LeBytes(h.sizeOrig, 4));
    Within(b, e11, LeBytes(h.sizeComp, 4));
  }

  /** Every 28-octet header is the encoding of the fields parsed from it. */
  lemma EncodeParseHeader(b: seq<byte>)
    requires |b| == HEADER_SIZE
    ensures EncodeHeader(ParseHeader(b)) == b
  {
    Pow256Widths();
    var p := ParseHeader(b);
    LeBytesOfValue(b[0..2]);
    var e := LeBytes(p.kind, 2);
    assert e == b[0..2];
    LeBytesOfValue(b[2..4]);
    Adjacent(b, 0, 2, 4);
    e := e + LeBytes(p.shadow, 2);
    assert e == b[0..4];
    LeBytesOfValue(b[4..6]);
    Adjacent(b, 0, 4, 6);
    e := e + LeBytes(p.width, 2);
    assert e == b[0..6];
    LeBytesOfValue(b[6..8]);
    Adjacent(b, 0, 6, 8);
    e := e + LeBytes(p.height, 2);
    assert e == b[0..8];
    I16OfBytes(b[8..10]);
    Adjacent(b, 0, 8, 10);
    e := e + I16Bytes(p.x);
    assert e == b[0..10];
    I16OfBytes(b[10..12]);
    Adjacent(b, 0, 10, 12);
    e := e + I16Bytes(p.y);
    assert e == b[0..12];
    I16OfBytes(b[12..14]);
    Adjacent(b, 0, 12, 14);
    e := e + I16Bytes(p.x2);
    assert e == b[0..14];
    I16OfBytes(b[14..16]);
    Adjacent(b, 0, 14, 16);
    e := e + I16Bytes(p.y2);
    assert e == b[0..16];
    LeBytesOfValue(b[16..18]);
    Adjacent(b, 0, 16, 18);
    e := e + LeBytes(p.unused, 2);
    assert e == b[0..18];
    LeBytesOfValue(b[18..20]);
    Adjacent(b, 0, 18, 20);
    e := e + LeBytes(p.transColor, 2);
    assert e == b[0..20];
    LeBytesOfValue(b[20..24]);
    Adjacent(b, 0, 20, 24);
    e := e + LeBytes(p.sizeOrig, 4);
    assert e == b[0..24];
    LeBytesOfValue(b[24..28]);
    Adjacent(b, 0, 24, 28);
    e := e + LeBytes(p.sizeComp, 4);
    assert e == b[0..28];
    assert EncodeHeader(p) == e;
    assert b[0..28] == b;
  }

  /** A sprite's header and the payload octets that follow it. */
  datatype Located = Located(header: SpriteHeader, payload: seq<byte>)

  /** Seek to `4 + offset`, read and decipher 28 header octets, then read
      `size_comp` payload octets. A short header makes the deciphering loop
      raise; a short payload is simply shorter, as a file read is. */
  function Locate(dda: seq<byte>, offset: nat): (r: Result<Located, Error>)
    ensures r.Success? <==> ARCHIVE_HEADER + offset + HEADER_SIZE <= |dda|
    ensures r.Failure? ==> r.error == ShortRead
    ensures r.Success? ==> var at := ARCHIVE_HEADER + offset;
      && r.value.header == ParseHeader(Decrypt(dda[at..at + HEADER_SIZE]))
      && r.value.payload == Read(dda, at + HEADER_SIZE, r.value.header.sizeComp)
  {
    var raw := Read(dda, ARCHIVE_HEADER + offset, HEADER_SIZE);
    if |raw| < HEADER_SIZE then Failure(ShortRead)
    else
      var h := ParseHeader(Decrypt(raw));
      Success(Located(h, Read(dda, ARCHIVE_HEADER + offset + HEADER_SIZE, h.sizeComp)))
  }

  /** An archive holding sprite `h` with `payload` at `offset`: anything in
      the `4 + offset` octets before it, anything after it. */
  function Archived(before: seq<byte>, h: SpriteHeader, payload: seq<byte>, after: seq<byte>): seq<byte>
    requires Storable(h)
  {
    before + Decrypt(EncodeHeader(h)) + payload + after
  }

  /** Locating a sprite recovers its header and its payload; a payload cut
      short by the end of the archive comes back as it is. */
  lemma LocateArchived(before: seq<byte>, h: SpriteHeader, payload: seq<byte>, after: seq<byte>, offset: nat)
    requires Storable(h) && |before| == ARCHIVE_HEADER + offset
    requires |payload| == h.sizeComp || (|payload| < h.sizeComp && after == [])
    ensures Locate(Archived(before, h, payload, after), offset) == Success(Located(h, payload))
  {
    var enc := Decrypt(EncodeHeader(h));
    var dda := Archived(before, h, payload, after);
    var at := ARCHIVE_HEADER + offset;
    assert dda == before + enc + (payload + after);
    Within(dda, before, enc);
    assert ParseHeader(Decrypt(enc)) == h by {
      DecryptInvolution(EncodeHeader(h));
      ParseEncodeHeader(h);
    }
    assert dda[at + HEADER_SIZE..] == payload + after;
    PayloadRead(dda, at + HEADER_SIZE, payload, after, h.sizeComp);
    var r := Locate(dda, offset);
    assert r.value.header == h;
  }

  /** Reading `n` octets where `payload` starts gives `payload`, when it holds
      `n` octets or the file ends with it. */
  lemma PayloadRead(dda: seq<byte>, at: nat, payload: seq<byte>, after: seq<byte>, n: nat)
    requires at <= |dda| && dda[at..] == payload + after
    requires |payload| == n || (|payload| < n && after == [])
    ensures Read(dda, at, n) == payload
  {
    if |payload| == n {
      assert dda[at..at + n] == dda[at..][..n];
    } else {
      assert |dda| == at + |payload|;
      if at < |dda| {
        assert dda[at..at + Min(n, |dda| - at)] == dda[at..];
      }
    }
  }

  /** The row-major image of `width x height` pixels whose pixel `(x, y)` is
      the colour named by octet `x + stride*y` of `buf`; `None` where the
      source's indexing raises. */
  function ImageOf(buf: seq<byte>, width: nat, height: nat, stride: nat, colors: seq<Rgb>): (r: Option<Image>)
    ensures r.Some? <==> Resolvable(buf, width, height, stride, colors)
    ensures r.Some? ==> r.value.width == width && r.value.height == height
    ensures r.Some? ==> |r.value.pixels| == width * height
    ensures r.Some? ==> forall x, y :: 0 <= x < width && 0 <= y < height ==>
      ShowsIndex(r.value.pixels, Cell(x, y, width), buf, Cell(x, y, stride), colors)
  {
    match Resolve(buf, width, height, stride, colors)
    case None => None
    case Some(pixels) => Some(Image(width, height, pixels))
  }

  /** `load_sprite_1`: the payload is the index plane itself. */
  function LoadSprite1(data: seq<byte>, width: nat, height: nat, colors: seq<Rgb>): (r: Option<Image>)
    ensures r.Some? <==> Resolvable(data, width, height, width, colors)
    ensures r.Some? ==> forall x, y :: 0 <= x < width && 0 <= y < height ==>
      ShowsIndex(r.value.pixels, Cell(x, y, width), data, Cell(x, y, width), colors)
  {
    ImageOf(data, width, height, width, colors)
  }

  /** Sprites wider or taller than 180 pixels carry a zlib layer around the
      run-length stream. */
  predicate Large(width: nat, height: nat) {
    width > 180 || height > 180
  }

  /** The index buffer of a type-2 sprite: padded rows, as the run-length
      decoder leaves them. */
  function RunLengthOctets(data: seq<byte>, width: nat, height: nat, inflate: Inflate): (r: Option<seq<byte>>)
    ensures r.Some? ==> |r.value| == Pad4(width) * height
  {
    var stream :- if Large(width, height) then inflate(data) else Some(data);
    RleDecode(stream, width, height)
  }

  /** `load_sprite_2` as written: the padded buffer is read with the
      unpadded width as its row stride. */
  function LoadSprite2AsWritten(data: seq<byte>, width: nat, height: nat, colors: seq<Rgb>, inflate: Inflate): (r: Option<Image>)
    ensures r.Some? <==> (RunLengthOctets(data, width, height, inflate).Some? &&
      Resolvable(RunLengthOctets(data, width, height, inflate).value, width, height, width, colors))
    ensures r.Some? ==> r.value.width == width && r.value.height == height && |r.value.pixels| == width * height
    ensures r.Some? ==> forall x, y :: 0 <= x < width && 0 <= y < height ==>
      ShowsIndex(r.value.pixels, Cell(x, y, width), RunLengthOctets(data, width, height, inflate).value,
        Cell(x, y, width), colors)
  {
    var buf :- RunLengthOctets(data, width, height, inflate);
    ImageOf(buf, width, height, width, colors)
  }

  /** `load_sprite_2` reading each row where the run-length decoder wrote
      it, `Pad4(width)` octets apart. */
  function LoadSprite2(data: seq<byte>, width: nat, height: nat, colors: seq<Rgb>, inflate: Inflate): (r: Option<Image>)
    ensures r.Some? <==> (RunLengthOctets(data, width, height, inflate).Some? &&
      Resolvable(RunLengthOctets(data, width, height, inflate).value, width, height, Pad4(width), colors))
    ensures r.Some? ==> r.value.width == width && r.value.height == height && |r.value.pixels| == width * height
    ensures r.Some? ==> forall x, y :: 0 <= x < width && 0 <= y < height ==>
      ShowsIndex(r.value.pixels, Cell(x, y, width), RunLengthOctets(data, width, height, inflate).value,
        Cell(x, y, Pad4(width)), colors)
  {
    var buf :- RunLengthOctets(data, width, height, inflate);
    ImageOf(buf, width, height, Pad4(width), colors)
  }

  /** The index buffer of a type-9 sprite: inflate the payload without its
      first four octets when both sizes agree, the whole payload otherwise;
      if that does not give `width*height` octets, inflate that output
      without its first four octets. */
  function DoubleZlibOctets(data: seq<byte>, width: nat, height: nat, sizeOrig: nat, sizeComp: nat, inflate: Inflate): (r: Option<seq<byte>>)
  {
    var first :- inflate(if sizeComp == sizeOrig then Tail(data, 4) else data);
    if |first| != width * height then inflate(Tail(first, 4)) else Some(first)
  }

  /** `load_sprite_9`. */
  function LoadSprite9(data: seq<byte>, width: nat, height: nat, sizeOrig: nat, sizeComp: nat,
                       colors: seq<Rgb>, inflate: Inflate): (r: Option<Image>)
    ensures r.Some? <==> (DoubleZlibOctets(data, width, height, sizeOrig, sizeComp, inflate).Some? &&
      Resolvable(DoubleZlibOctets(data, width, height, sizeOrig, sizeComp, inflate).value, width, height, width, colors))
    ensures r.Some? ==> r.value.width == width && r.value.height == height && |r.value.pixels| == width * height
    ensures r.Some? ==> forall x, y :: 0 <= x < width && 0 <= y < height ==>
      ShowsIndex(r.value.pixels, Cell(x, y, width), DoubleZlibOctets(data, width, height, sizeOrig, sizeComp, inflate).value,
        Cell(x, y, width), colors)
  {
    var buf :- DoubleZlibOctets(data, width, height, sizeOrig, sizeComp, inflate);
    ImageOf(buf, width, height, width, colors)
  }

  /** The pixel codecs, selected once from the header's type. Type 2 runs
      `load_sprite_2` as written, with the unpadded row stride. */
  datatype Kind = Raw | RunLength | DoubleZlib

  function KindOf(t: nat): Option<Kind> {
    if t == 1 then Some(Raw)
    else if t == 2 then Some(RunLength)
    else if t == 9 then Some(DoubleZlib)
    else None
  }

  function Codec(kind: Kind, s: Located, colors: seq<Rgb>, inflate: Inflate): (r: Option<Image>)
    ensures r.Some? ==> r.value.width == s.header.width && r.value.height == s.header.height
    ensures r.Some? ==> |r.value.pixels| == s.header.width * s.header.height
  {
    var h := s.header;
    match kind
    case Raw => LoadSprite1(s.payload, h.width, h.height, colors)
    case RunLength => LoadSprite2AsWritten(s.payload, h.width, h.height, colors, inflate)
    case DoubleZlib => LoadSprite9(s.payload, h.width, h.height, h.sizeOrig, h.sizeComp, colors, inflate)
  }

  /** `load_sprite`. Locating the sprite and choosing its palette happen
      outside the source's `try`, so their failures propagate; a codec
      failure, or a type other than 1, 2 and 9, gives no image. */
  function LoadSprite(name: string, dda: seq<byte>, offset: nat, palettes: seq<SpritePalette.Palette>,
                      inflate: Inflate): (r: Result<Option<Image>, Error>)
    ensures r.Failure? <==> Locate(dda, offset).Failure? || BestPalette.FindBestPalette(name, palettes).Failure?
    ensures r.Success? && r.value.Some? ==> var h := Locate(dda, offset).value.header;
      && KindOf(h.kind).Some?
      && r.value.value.width == h.width && r.value.value.height == h.height
      && |r.value.value.pixels| == h.width * h.height
  {
    var s :- Locate(dda, offset);
    var palette :- BestPalette.FindBestPalette(name, palettes);
    match KindOf(s.header.kind)
    case None => Success(None)
    case Some(kind) => Success(Codec(kind, s, palette.colors, inflate))
  }

  /** Every pixel of a `width x height` sprite lies inside the padded
      buffer, read with either row stride. */
  lemma InsidePadded(x: nat, y: nat, width: nat, height: nat)
    requires x < width && y < height
    ensures Cell(x, y, width) < Pad4(width) * height
    ensures Cell(x, y, Pad4(width)) < Pad4(width) * height
  {
    var p := Pad4(width);
    RowsFit(y, p, height);
    MulMono(y, height - 1, width);
    MulMono(width, p, height);
    assert width * (height - 1) + width == width * height;
    assert p * height == height * p;
  }

  /** With a full palette every index names a colour, so a padded buffer
      always resolves. */
  lemma FullPaletteResolves(buf: seq<byte>, width: nat, height: nat, colors: seq<Rgb>)
    requires |buf| == Pad4(width) * height && |colors| == SpritePalette.COLOR_COUNT
    ensures Resolvable(buf, width, height, width, colors)
    ensures Resolvable(buf, width, height, Pad4(width), colors)
  {
    forall x: int, y: int | 0 <= x < width && 0 <= y < height
      ensures CellResolves(buf, Cell(x, y, width), colors) && CellResolves(buf, Cell(x, y, Pad4(width)), colors)
    {
      InsidePadded(x, y, width, height);
    }
  }

  /** A type-2 sprite drawn with a full palette fails only where the zlib
      layer or the run-length stream does, with either row stride. */
  lemma RunLengthFullPalette(data: seq<byte>, width: nat, height: nat, colors: seq<Rgb>, inflate: Inflate)
    requires |colors| == SpritePalette.COLOR_COUNT
    ensures LoadSprite2(data, width, height, colors, inflate).Some? <==> RunLengthOctets(data, width, height, inflate).Some?
    ensures LoadSprite2AsWritten(data, width, height, colors, inflate).Some? <==> RunLengthOctets(data, width, height, inflate).Some?
  {
    var buf := RunLengthOctets(data, width, height, inflate);
    if buf.Some? {
      FullPaletteResolves(buf.value, width, height, colors);
    }
  }

  /** Sprites of at most 180 x 180 pixels never reach the zlib layer; larger
      ones depend on it only through the inflation of their payload. */
  lemma RunLengthInflates(data: seq<byte>, width: nat, height: nat, inflate: Inflate, other: Inflate)
    ensures !Large(width, height) ==> RunLengthOctets(data, width, height, inflate) == RleDecode(data, width, height)
    ensures inflate(data) == other(data) ==> RunLengthOctets(data, width, height, inflate) == RunLengthOctets(data, width, height, other)
    ensures Large(width, height) && inflate(data).None? ==> RunLengthOctets(data, width, height, inflate).None?
  {
  }

  /** Type 9 is type 1 drawn from an inflated plane. When the first
      inflation (of `data[4:]` if the header's sizes agree, of `data`
      otherwise) gives `width*height` octets, that output is the plane; when
      it gives any other length, the plane is the inflation of that output
      less its first four octets, whatever its length; when either
      inflation fails there is no image. */
  lemma {:induction false} DoubleZlibIsRaw(data: seq<byte>, width: nat, height: nat, sizeOrig: nat, sizeComp: nat,
                                           colors: seq<Rgb>, inflate: Inflate)
    ensures var first := inflate(if sizeComp == sizeOrig then data[Min(4, |data|)..] else data);
      var r := LoadSprite9(data, width, height, sizeOrig, sizeComp, colors, inflate);
      && (first.None? ==> r.None?)
      && (first.Some? && |first.value| == width * height ==> r == LoadSprite1(first.value, width, height, colors))
      && (first.Some? && |first.value| != width * height ==>
           var second := inflate(first.value[Min(4, |first.value|)..]);
           && (second.None? ==> r.None?)
           && (second.Some? ==> r == LoadSprite1(second.value, width, height, colors)))
  {
    TailIsSlice(data, 4);
    var first := inflate(if sizeComp == sizeOrig then Tail(data, 4) else data);
    if first.Some? {
      TailIsSlice(first.value, 4);
    }
  }

  /** A buffer of padded rows, run-length coded, comes back as the image
      whose pixel `(x, y)` is the colour of cell `x + Pad4(width)*y`. */
  lemma RunLengthRoundTrip(buf: seq<byte>, width: nat, height: nat, colors: seq<Rgb>, inflate: Inflate)
    requires !Large(width, height) && |buf| == Pad4(width) * height && |colors| == SpritePalette.COLOR_COUNT
    ensures var r := LoadSprite2(Encode(buf, Pad4(width), height), width, height, colors, inflate);
      && r.Some?
      && forall x, y :: 0 <= x < width && 0 <= y < height ==>
        ShowsIndex(r.value.pixels, Cell(x, y, width), buf, Cell(x, y, Pad4(width)), colors)
  {
    RleDecodeEncode(buf, width, height);
    RunLengthFullPalette(Encode(buf, Pad4(width), height), width, height, colors, inflate);
  }

  /** The run-length octets `[5, 0, 0, 0, 6, 0, 0, 0]`: a 1 x 2 sprite whose
      two rows, padded to four octets, hold indices 5 and 6. */
  const SHEAR_ROWS: seq<byte> := [5, 0, 0, 0, 6, 0, 0, 0]

  /** Read with the unpadded stride, the second row of a 1 x 2 sprite shows
      the padding of the first row (index 0) instead of the index 6 that the
      run-length decoder wrote; read with the padded stride it shows 6. */
  lemma Type2AsWrittenShears(colors: seq<Rgb>, inflate: Inflate)
    requires |colors| == SpritePalette.COLOR_COUNT
    ensures var data := Encode(SHEAR_ROWS, 4, 2);
      && LoadSprite2AsWritten(data, 1, 2, colors, inflate).Some?
      && LoadSprite2AsWritten(data, 1, 2, colors, inflate).value.pixels == [colors[5], colors[0]]
      && LoadSprite2(data, 1, 2, colors, inflate).Some?
      && LoadSprite2(data, 1, 2, colors, inflate).value.pixels == [colors[5], colors[6]]
  {
    var data := Encode(SHEAR_ROWS, 4, 2);
    ShearRowsDecode(inflate);
    ShearAsWritten(data, colors, inflate);
    ShearPadded(data, colors, inflate);
  }

  /** The run-length coding of `SHEAR_ROWS` decodes back to it. */
  lemma ShearRowsDecode(inflate: Inflate)
    ensures RunLengthOctets(Encode(SHEAR_ROWS, 4, 2), 1, 2, inflate) == Some(SHEAR_ROWS)
  {
    assert Pad4(1) == 4;
    RleDecodeEncode(SHEAR_ROWS, 1, 2);
  }

  lemma ShearAsWritten(data: seq<byte>, colors: seq<Rgb>, inflate: Inflate)
    requires |colors| == SpritePalette.COLOR_COUNT
    requires RunLengthOctets(data, 1, 2, inflate) == Some(SHEAR_ROWS)
    ensures LoadSprite2AsWritten(data, 1, 2, colors, inflate).Some?
    ensures LoadSprite2AsWritten(data, 1, 2, colors, inflate).value.pixels == [colors[5], colors[0]]
  {
    RunLengthFullPalette(data, 1, 2, colors, inflate);
    var bad := LoadSprite2AsWritten(data, 1, 2, colors, inflate).value.pixels;
    assert ShowsIndex(bad, Cell(0, 0, 1), SHEAR_ROWS, Cell(0, 0, 1), colors);
    assert ShowsIndex(bad, Cell(0, 1, 1), SHEAR_ROWS, Cell(0, 1, 1), colors);
  }

  lemma ShearPadded(data: seq<byte>, colors: seq<Rgb>, inflate: Inflate)
    requires |colors| == SpritePalette.COLOR_COUNT
    requires RunLengthOctets(data, 1, 2, inflate) == Some(SHEAR_ROWS)
    ensures LoadSprite2(data, 1, 2, colors, inflate).Some?
    ensures LoadSprite2(data, 1, 2, colors, inflate).value.pixels == [colors[5], colors[6]]
  {
    assert Pad4(1) == 4;
    RunLengthFullPalette(data, 1, 2, colors, inflate);
    var good := LoadSprite2(data, 1, 2, colors, inflate).value.pixels;
    assert ShowsIndex(good, Cell(0, 0, 1), SHEAR_ROWS, Cell(0, 0, 4), colors);
    assert ShowsIndex(good, Cell(0, 1, 1), SHEAR_ROWS, Cell(0, 1, 4), colors);
  }

  /** A located sprite of a type other than 1, 2 and 9 gives no image, and
      one of those types gives what its codec gives; type 2 is read with the
      unpadded row stride, as the source does. */
  lemma LoadSpriteDispatch(name: string, dda: seq<byte>, offset: nat, palettes: seq<SpritePalette.Palette>, inflate: Inflate)
    ensures Locate(dda, offset).Success? && BestPalette.FindBestPalette(name, palettes).Success? ==>
      var s := Locate(dda, offset).value;
      var colors := BestPalette.FindBestPalette(name, palettes).value.colors;
      var r := LoadSprite(name, dda, offset, palettes, inflate);
      && (s.header.kind == 1 ==> r == Success(LoadSprite1(s.payload, s.header.width, s.header.height, colors)))
      && (s.header.kind == 2 ==> r == Success(LoadSprite2AsWritten(s.payload, s.header.width, s.header.height, colors, inflate)))
      && (s.header.kind == 9 ==>
           r == Success(LoadSprite9(s.payload, s.header.width, s.header.height, s.header.sizeOrig, s.header.sizeComp, colors, inflate)))
      && (s.header.kind != 1 && s.header.kind != 2 && s.header.kind != 9 ==> r == Success(None))
  {
    if Locate(dda, offset).Success? && BestPalette.FindBestPalette(name, palettes).Success? {
      var s := Locate(dda, offset).value;
      var colors := BestPalette.FindBestPalette(name, palettes).value.colors;
      assert LoadSprite(name, dda, offset, palettes, inflate) ==
        match KindOf(s.header.kind)
        case None => Success(None)
        case Some(kind) => Success(Codec(kind, s, colors, inflate));
    }
  }

  /** One item of the batch: the sprite's image with its name and path. */
  datatype Extracted = Extracted(img: Image, name: string, path: string)

  /** What the `load_sprites` generator yields before it stops, and the
      error that stopped it early, if any. */
  datatype Batch = Batch(emitted: seq<Extracted>, halted: Option<Error>)

  /** The outcome of one sprite record: its archive must exist, and then
      `load_sprite` decides. */
  function Item(id: SpriteId.SpriteRecord, palettes: seq<SpritePalette.Palette>, ddas: seq<seq<byte>>,
                inflate: Inflate): (r: Result<Option<Extracted>, Error>)
    ensures id.dda >= |ddas| ==> r == Failure(NoSuchArchive)
    ensures r.Success? && r.value.Some? ==> r.value.value.name == id.name && r.value.value.path == id.path
  {
    if id.dda >= |ddas| then Failure(NoSuchArchive)
    else
      var img :- LoadSprite(id.name, ddas[id.dda], id.index, palettes, inflate);
      Success(if img.Some? then Some(Extracted(img.value, id.name, id.path)) else None)
  }

  /** The generator's loop over per-record outcomes: each image is yielded
      in turn, a record with no image is skipped, and the first error stops
      the loop. */
  function Collect(outcomes: seq<Result<Option<Extracted>, Error>>): (r: Batch)
    ensures |r.emitted| <= |outcomes|
    ensures r.halted.None? <==> forall k :: 0 <= k < |outcomes| ==> outcomes[k].Success?
    ensures r.halted.Some? ==> exists k :: 0 <= k < |outcomes| && outcomes[k] == Failure(r.halted.value)
    ensures forall e :: e in r.emitted ==> exists k :: 0 <= k < |outcomes| && outcomes[k] == Success(Some(e))
    decreases |outcomes|
  {
    if |outcomes| == 0 then Batch([], None)
    else
      var rest := Collect(outcomes[1..]);
      assert forall k :: 1 <= k < |outcomes| ==> outcomes[1..][k - 1] == outcomes[k];
      match outcomes[0]
      case Failure(e) => Batch([], Some(e))
      case Success(None) => rest
      case Success(Some(x)) => Batch([x] + rest.emitted, rest.halted)
  }

  /** Collecting `a + b` collects `a` and then, unless `a` stopped the loop,
      `b`. */
  lemma {:induction false} CollectAppend(a: seq<Result<Option<Extracted>, Error>>, b: seq<Result<Option<Extracted>, Error>>)
    ensures var ra, rb := Collect(a), Collect(b);
      Collect(a + b) == if ra.halted.Some? then ra else Batch(ra.emitted + rb.emitted, rb.halted)
    decreases |a|
  {
    if |a| == 0 {
      assert a + b == b;
    } else {
      assert (a + b)[0] == a[0];
      assert (a + b)[1..] == a[1..] + b;
      CollectAppend(a[1..], b);
      match a[0]
      case Failure(e) =>
      case Success(None) =>
      case Success(Some(x)) =>
        var tail, rb := Collect(a[1..]), Collect(b);
        assert [x] + (tail.emitted + rb.emitted) == ([x] + tail.emitted) + rb.emitted;
    }
  }

  /** The outcome of every record, in order. */
  function Outcomes(ids: seq<SpriteId.SpriteRecord>, palettes: seq<SpritePalette.Palette>, ddas: seq<seq<byte>>,
                    inflate: Inflate): (r: seq<Result<Option<Extracted>, Error>>)
    ensures |r| == |ids| && forall k :: 0 <= k < |ids| ==> r[k] == Item(ids[k], palettes, ddas, inflate)
  {
    seq(|ids|, k requires 0 <= k < |ids| => Item(ids[k], palettes, ddas, inflate))
  }

  /** `load_sprites`: the successful sprites in record order; an error from
      any record ends the batch there. */
  function LoadSprites(ids: seq<SpriteId.SpriteRecord>, palettes: seq<SpritePalette.Palette>, ddas: seq<seq<byte>>,
                       inflate: Inflate): (r: Batch)
    ensures |r.emitted| <= |ids|
    ensures r.halted.None? <==> forall k :: 0 <= k < |ids| ==> Item(ids[k], palettes, ddas, inflate).Success?
    ensures forall e :: e in r.emitted ==> exists k :: 0 <= k < |ids| && Item(ids[k], palettes, ddas, inflate) == Success(Some(e))
  {
    Collect(Outcomes(ids, palettes, ddas, inflate))
  }

  /** The batch of one record: its image if it has one, its error if it
      raises. */
  lemma LoadSpritesOne(id: SpriteId.SpriteRecord, palettes: seq<SpritePalette.Palette>, ddas: seq<seq<byte>>, inflate: Inflate)
    ensures LoadSprites([id], palettes, ddas, inflate) == match Item(id, palettes, ddas, inflate)
      case Failure(e) => Batch([], Some(e))
      case Success(None) => Batch([], None)
      case Success(Some(x)) => Batch([x], None)
  {
    var o := Outcomes([id], palettes, ddas, inflate);
    assert o[1..] == [];
  }

  /** The batch of `a + b` is the batch of `a` followed, unless `a` stopped
      it, by the batch of `b`: records are taken in order and each one's
      outcome is independent of the others. */
  lemma LoadSpritesAppend(a: seq<SpriteId.SpriteRecord>, b: seq<SpriteId.SpriteRecord>,
                          palettes: seq<SpritePalette.Palette>, ddas: seq<seq<byte>>, inflate: Inflate)
    ensures var ra := LoadSprites(a, palettes, ddas, inflate);
      var rb := LoadSprites(b, palettes, ddas, inflate);
      LoadSprites(a + b, palettes, ddas, inflate) == if ra.halted.Some? then ra else Batch(ra.emitted + rb.emitted, rb.halted)
  {
    OutcomesAppend(a, b, palettes, ddas, inflate);
    CollectAppend(Outcomes(a, palettes, ddas, inflate), Outcomes(b, palettes, ddas, inflate));
  }

  lemma OutcomesAppend(a: seq<SpriteId.SpriteRecord>, b: seq<SpriteId.SpriteRecord>,
                       palettes: seq<SpritePalette.Palette>, ddas: seq<seq<byte>>, inflate: Inflate)
    ensures Outcomes(a + b, palettes, ddas, inflate) == Outcomes(a, palettes, ddas, inflate) + Outcomes(b, palettes, ddas, inflate)
  {
    var all, oa, ob := Outcomes(a + b, palettes, ddas, inflate), Outcomes(a, palettes, ddas, inflate), Outcomes(b, palettes, ddas, inflate);
    forall k | 0 <= k < |all|
      ensures all[k] == (oa + ob)[k]
    {
      if k < |a| {
        assert (a + b)[k] == a[k];
      } else {
        assert (a + b)[k] == b[k - |a|];
      }
    }
  }
}
