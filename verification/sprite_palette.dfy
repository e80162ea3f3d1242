/** The sprite palette file: a checksummed container whose deciphered
    payload is a run of 832-octet palette records. */
module SpritePalette {
  import opened Wrappers
  import opened Errors
  import opened Bytes
  import Arith
  import opened Text
  import opened Pixels
  import opened Zlib
  import Container

  /** The palette file's single-octet cipher key. */
  const KEY: byte := 0x66

  const NAME_SIZE: nat := 64
  const COLOR_COUNT: nat := 256
  /** A name field followed by 256 (R, G, B) triples. */
  const RECORD_SIZE: nat := 64 + 256 * 3

  datatype Palette = Palette(name: string, colors: seq<Rgb>)

  /** One record: the name field stripped of NULs, then the colour table in
      order, entry `j` taken from the three octets at `64 + 3*j`. */
  function DecodePalette(b: seq<byte>): (p: Palette)
    requires |b| == RECORD_SIZE
    ensures Trimmed(p.name) && |p.name| <= NAME_SIZE
    ensures |p.colors| == COLOR_COUNT
    ensures forall j :: 0 <= j < COLOR_COUNT ==> p.colors[j] == Rgb(b[64 + 3 * j], b[65 + 3 * j], b[66 + 3 * j])
  {
    var colors := Triples(b[NAME_SIZE..]);
    Palette(StripNul(Decode(b[..NAME_SIZE])), colors.value)
  }

  /** The record loop `for i in range(0, len(data), 832)`. A trailing partial
      record makes `struct.unpack` raise, so the parse succeeds exactly on
      whole records, and then palette `k` is decoded from octets
      `832*k .. 832*k + 832`. */
  function ParsePalettes(data: seq<byte>): (r: Result<seq<Palette>, Error>)
    ensures r.Success? <==> |data| % RECORD_SIZE == 0
    ensures r.Success? ==> |r.value| == |data| / RECORD_SIZE
    ensures r.Success? ==> forall k :: 0 <= k < |r.value| ==>
      RECORD_SIZE * k + RECORD_SIZE <= |data| && r.value[k] == DecodePalette(Container.Record(data, RECORD_SIZE, k))
  {
    var records :- Container.Split(data, RECORD_SIZE).ToResult(Truncated);
    Success(seq(|records|, k requires 0 <= k < |records| => DecodePalette(records[k])))
  }

  /** `load_sprite_palettes`: `Success(None)` exactly on a checksum
      mismatch; a payload that is not a whole number of palettes raises; and
      the palettes it yields are those of the payload deciphered with 0x66. */
  function LoadSpritePalettes(file: seq<byte>, inflate: Inflate, md5: Container.Md5Hex): (r: Result<Option<seq<Palette>>, Error>)
    ensures r == Success(None) <==> (Container.ReadHeader(file).Success? &&
      var h := Container.ReadHeader(file).value;
      inflate(Container.Payload(file, h)).Some? && md5(inflate(Container.Payload(file, h)).value) != h.digest)
    ensures r.Success? && r.value.Some? ==>
      && Container.ReadHeader(file).Success?
      && inflate(Container.Payload(file, Container.ReadHeader(file).value)).Some?
      && var h := Container.ReadHeader(file).value;
         var data := inflate(Container.Payload(file, h)).value;
         && md5(data) == h.digest
         && |data| % RECORD_SIZE == 0
         && r.value.value == ParsePalettes(XorAll(data, KEY)).value
    ensures Container.ReadHeader(file).Success? ==>
      var h := Container.ReadHeader(file).value;
      var data := inflate(Container.Payload(file, h));
      data.Some? && md5(data.value) == h.digest && |data.value| % RECORD_SIZE != 0 ==> r == Failure(Truncated)
  {
    Container.Load(file, KEY, ParsePalettes, inflate, md5)
  }

  /** A palette that a record can hold and that decoding reproduces. */
  predicate Storable(p: Palette) {
    OctetText(p.name) && |p.name| <= NAME_SIZE && Trimmed(p.name) && |p.colors| == COLOR_COUNT
  }

  function EncodePalette(p: Palette): (b: seq<byte>)
    requires Storable(p)
    ensures |b| == RECORD_SIZE
  {
    Field(p.name, NAME_SIZE) + Flatten(p.colors)
  }

  lemma DecodeEncodePalette(p: Palette)
    requires Storable(p)
    ensures DecodePalette(EncodePalette(p)) == p
  {
    var b := EncodePalette(p);
    assert b[..NAME_SIZE] == Field(p.name, NAME_SIZE);
    assert b[NAME_SIZE..] == Flatten(p.colors);
    FieldRoundTrip(p.name, NAME_SIZE);
    TriplesOfFlatten(p.colors);
  }

  /** The deciphered payload holding `ps` in order. */
  function SerializePalettes(ps: seq<Palette>): (b: seq<byte>)
    requires forall k :: 0 <= k < |ps| ==> Storable(ps[k])
    ensures |b| == RECORD_SIZE * |ps|
  {
    if |ps| == 0 then [] else EncodePalette(ps[0]) + SerializePalettes(ps[1..])
  }

  lemma {:induction false} SerializedRecord(ps: seq<Palette>, k: nat)
    requires forall k :: 0 <= k < |ps| ==> Storable(ps[k])
    requires k < |ps|
    ensures RECORD_SIZE * k + RECORD_SIZE <= |SerializePalettes(ps)|
    ensures Container.Record(SerializePalettes(ps), RECORD_SIZE, k) == EncodePalette(ps[k])
  {
    var b := SerializePalettes(ps);
    if k == 0 {
      assert b[..RECORD_SIZE] == EncodePalette(ps[0]);
    } else {
      SerializedRecord(ps[1..], k - 1);
      assert b[RECORD_SIZE..] == SerializePalettes(ps[1..]);
      Container.RecordOfTail(b, RECORD_SIZE, k - 1);
    }
  }

  lemma SerializedParses(ps: seq<Palette>)
    requires forall k :: 0 <= k < |ps| ==> Storable(ps[k])
    ensures ParsePalettes(SerializePalettes(ps)).Success?
    ensures |ParsePalettes(SerializePalettes(ps)).value| == |ps|
  {
    Arith.DivModUnique(|SerializePalettes(ps)|, RECORD_SIZE, |ps|, 0);
  }

  /** Record `k` of serialised palettes decodes to item `k`. */
  lemma SerializedDecodesAt(ps: seq<Palette>, k: nat)
    requires forall k :: 0 <= k < |ps| ==> Storable(ps[k])
    requires k < |ps|
    ensures RECORD_SIZE * k + RECORD_SIZE <= |SerializePalettes(ps)|
    ensures DecodePalette(Container.Record(SerializePalettes(ps), RECORD_SIZE, k)) == ps[k]
  {
    SerializedRecord(ps, k);
    DecodeEncodePalette(ps[k]);
  }

  /** Serialising palettes into records and parsing them gives them back. */
  lemma ParseSerializedPalettes(ps: seq<Palette>)
    requires forall k :: 0 <= k < |ps| ==> Storable(ps[k])
    ensures ParsePalettes(SerializePalettes(ps)) == Success(ps)
  {
    SerializedParses(ps);
    var r := ParsePalettes(SerializePalettes(ps));
    forall k | 0 <= k < |ps|
      ensures r.value[k] == ps[k]
    {
      SerializedDecodesAt(ps, k);
    }
    assert r.value == ps;
    assert r == Success(r.value);
  }

  /** The palette file's result depends on neither `size_orig` nor the value
      of the trailing octet. */
  lemma PalettesIgnoreSizeOrigAndTrailer(f1: seq<byte>, f2: seq<byte>, inflate: Inflate, md5: Container.Md5Hex)
    requires Container.SameButSizeOrigAndTrailer(f1, f2)
    ensures LoadSpritePalettes(f1, inflate, md5) == LoadSpritePalettes(f2, inflate, md5)
  {
    Container.LoadIgnoresSizeOrigAndTrailer(f1, f2, KEY, ParsePalettes, inflate, md5);
  }

  /** A palette container whose stored digest is not the payload's yields
      no palettes at all; with a matching digest it yields the palettes of
      the deciphered payload. */
  lemma SealedPalettes(h: Container.Header, spare: byte, payload: seq<byte>, trailer: byte, rest: seq<byte>,
                       inflate: Inflate, md5: Container.Md5Hex)
    requires Container.Storable(h) && |payload| == h.sizeComp
    requires inflate(payload).Some?
    ensures var file := Container.Sealed(h, spare, payload, trailer, rest);
      var data := inflate(payload).value;
      && (md5(data) != h.digest ==> LoadSpritePalettes(file, inflate, md5) == Success(None))
      && (md5(data) == h.digest && |data| % RECORD_SIZE == 0 ==>
           LoadSpritePalettes(file, inflate, md5) == Success(Some(ParsePalettes(XorAll(data, KEY)).value)))
  {
    Container.LoadSealed(h, spare, payload, trailer, rest, KEY, ParsePalettes, inflate, md5);
  }
}
