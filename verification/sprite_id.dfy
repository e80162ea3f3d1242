/** The sprite-id file: a checksummed container whose deciphered payload is
    a run of 332-octet sprite records (name, path, archive offset, archive
    number). */
module SpriteId {
  import opened Wrappers
  import opened Errors
  import opened Bytes
  import Arith
  import opened Text
  import opened Zlib
  import Container

  /** The sprite-id file's single-octet cipher key. */
  const KEY: byte := 0x99

  const NAME_SIZE: nat := 64
  const PATH_SIZE: nat := 256
  /** Name, path, a 4-octet offset and an 8-octet archive number. */
  const RECORD_SIZE: nat := 64 + 256 + 4 + 8

  /** One sprite record. `index` is the sprite's offset inside its archive
      and `dda` the number of that archive, under the source's own keys. */
  datatype SpriteRecord = SpriteRecord(name: string, path: string, index: nat, dda: nat)

  /** One record: two NUL-stripped text fields, a little-endian u32 at 320
      and a little-endian u64 at 324. */
  function DecodeRecord(b: seq<byte>): (r: SpriteRecord)
    requires |b| == RECORD_SIZE
    ensures Trimmed(r.name) && |r.name| <= NAME_SIZE
    ensures Trimmed(r.path) && |r.path| <= PATH_SIZE
    ensures r.index < 0x1_0000_0000
    ensures r.dda < 0x1_0000_0000_0000_0000
  {
    Pow256Widths();
    SpriteRecord(
      StripNul(Decode(b[..64])),
      StripNul(Decode(b[64..320])),
      LeValue(b[320..324]),
      LeValue(b[324..332]))
  }

  /** The record loop `for i in range(0, len(data), 332)`: it succeeds
      exactly on whole records (a partial one makes `struct.unpack` raise),
      and record `k` is decoded from octets `332*k .. 332*k + 332`. */
  function ParseRecords(data: seq<byte>): (r: Result<seq<SpriteRecord>, Error>)
    ensures r.Success? <==> |data| % RECORD_SIZE == 0
    ensures r.Success? ==> |r.value| == |data| / RECORD_SIZE
    ensures r.Success? ==> forall k :: 0 <= k < |r.value| ==>
      RECORD_SIZE * k + RECORD_SIZE <= |data| && r.value[k] == DecodeRecord(Container.Record(data, RECORD_SIZE, k))
  {
    var records :- Container.Split(data, RECORD_SIZE).ToResult(Truncated);
    Success(seq(|records|, k requires 0 <= k < |records| => DecodeRecord(records[k])))
  }

  /** `load_sprite_ids`: `Success(None)` exactly on a checksum mismatch; a
      payload that is not a whole number of records raises; and the records
      it yields are those of the payload deciphered with 0x99. */
  function LoadSpriteIds(file: seq<byte>, inflate: Inflate, md5: Container.Md5Hex): (r: Result<Option<seq<SpriteRecord>>, Error>)
    ensures r == Success(None) <==> (Container.ReadHeader(file).Success? &&
      var h := Container.ReadHeader(file).value;
      inflate(Container.Payload(file, h)).Some? && md5(inflate(Container.Payload(file, h)).value) != h.digest)
    ensures r.Success? && r.value.Some? ==>
      && Container.ReadHeader(file).Success?
      && inflate(Container.Payload(file, Container.ReadHeader(file).value)).Some?
      && var h := Container.ReadHeader(file).value;
         var data := inflate(Container.Payload(file, h)).value;
         && md5(data) == h.digest
         && |data| % RECORD_SIZE == 0
         && r.value.value == ParseRecords(XorAll(data, KEY)).value
    ensures Container.ReadHeader(file).Success? ==>
      var h := Container.ReadHeader(file).value;
      var data := inflate(Container.Payload(file, h));
      data.Some? && md5(data.value) == h.digest && |data.value| % RECORD_SIZE != 0 ==> r == Failure(Truncated)
  {
    Container.Load(file, KEY, ParseRecords, inflate, md5)
  }

  /** A record whose fields fit their slots and survive NUL stripping. */
  predicate Storable(r: SpriteRecord) {
    && OctetText(r.name) && |r.name| <= NAME_SIZE && Trimmed(r.name)
    && OctetText(r.path) && |r.path| <= PATH_SIZE && Trimmed(r.path)
    && r.index < 0x1_0000_0000
    && r.dda < 0x1_0000_0000_0000_0000
  }

  function EncodeRecord(r: SpriteRecord): (b: seq<byte>)
    requires Storable(r)
    ensures |b| == RECORD_SIZE
  {
    Pow256Widths();
    Field(r.name, NAME_SIZE) + Field(r.path, PATH_SIZE) + LeBytes(r.index, 4) + LeBytes(r.dda, 8)
  }

  lemma DecodeEncodeRecord(r: SpriteRecord)
    requires Storable(r)
    ensures DecodeRecord(EncodeRecord(r)) == r
  {
    EncodedSlices(r);
    FieldRoundTrip(r.name, NAME_SIZE);
    FieldRoundTrip(r.path, PATH_SIZE);
  }

  /** The four slots of an encoded record hold the four encoded fields. */
  lemma EncodedSlices(r: SpriteRecord)
    requires Storable(r)
    ensures var b := EncodeRecord(r);
      && b[..64] == Field(r.name, NAME_SIZE) && b[64..320] == Field(r.path, PATH_SIZE)
      && LeValue(b[320..324]) == r.index && LeValue(b[324..332]) == r.dda
  {
    Pow256Widths();
    var b := EncodeRecord(r);
    var name, path := Field(r.name, NAME_SIZE), Field(r.path, PATH_SIZE);
    var index := LeBytes(r.index, 4);
    assert b == name + path + index + LeBytes(r.dda, 8);
    Within(b, [], name);
    Within(b, name, path);
    Within(b, name + path, index);
    Within(b, name + path + index, LeBytes(r.dda, 8));
    assert b[..64] == b[0..64];
  }

  /** The deciphered payload holding `rs` in order. */
  function SerializeRecords(rs: seq<SpriteRecord>): (b: seq<byte>)
    requires forall k :: 0 <= k < |rs| ==> Storable(rs[k])
    ensures |b| == RECORD_SIZE * |rs|
  {
    if |rs| == 0 then [] else EncodeRecord(rs[0]) + SerializeRecords(rs[1..])
  }

  lemma {:induction false} SerializedRecord(rs: seq<SpriteRecord>, k: nat)
    requires forall k :: 0 <= k < |rs| ==> Storable(rs[k])
    requires k < |rs|
    ensures RECORD_SIZE * k + RECORD_SIZE <= |SerializeRecords(rs)|
    ensures Container.Record(SerializeRecords(rs), RECORD_SIZE, k) == EncodeRecord(rs[k])
  {
    var b := SerializeRecords(rs);
    if k == 0 {
      assert b[..RECORD_SIZE] == EncodeRecord(rs[0]);
    } else {
      SerializedRecord(rs[1..], k - 1);
      assert b[RECORD_SIZE..] == SerializeRecords(rs[1..]);
      Container.RecordOfTail(b, RECORD_SIZE, k - 1);
    }
  }

  lemma SerializedParses(rs: seq<SpriteRecord>)
    requires forall k :: 0 <= k < |rs| ==> Storable(rs[k])
    ensures ParseRecords(SerializeRecords(rs)).Success?
    ensures |ParseRecords(SerializeRecords(rs)).value| == |rs|
  {
    Arith.DivModUnique(|SerializeRecords(rs)|, RECORD_SIZE, |rs|, 0);
  }

  /** Record `k` of serialised records decodes to item `k`. */
  lemma SerializedDecodesAt(rs: seq<SpriteRecord>, k: nat)
    requires forall k :: 0 <= k < |rs| ==> Storable(rs[k])
    requires k < |rs|
    ensures RECORD_SIZE * k + RECORD_SIZE <= |SerializeRecords(rs)|
    ensures DecodeRecord(Container.Record(SerializeRecords(rs), RECORD_SIZE, k)) == rs[k]
  {
    SerializedRecord(rs, k);
    DecodeEncodeRecord(rs[k]);
  }

  /** Serialising N records into 332-octet slots and parsing them yields the
      same N records. */
  lemma ParseSerializedRecords(rs: seq<SpriteRecord>)
    requires forall k :: 0 <= k < |rs| ==> Storable(rs[k])
    ensures ParseRecords(SerializeRecords(rs)) == Success(rs)
  {
    SerializedParses(rs);
    var r := ParseRecords(SerializeRecords(rs));
    forall k | 0 <= k < |rs|
      ensures r.value[k] == rs[k]
    {
      SerializedDecodesAt(rs, k);
    }
    assert r.value == rs;
    assert r == Success(r.value);
  }

  /** A sprite-id container whose stored digest is not the payload's yields
      no records at all; with a matching digest it yields the records of
      the deciphered payload. */
  lemma SealedSpriteIds(h: Container.Header, spare: byte, payload: seq<byte>, trailer: byte, rest: seq<byte>,
                        inflate: Inflate, md5: Container.Md5Hex)
    requires Container.Storable(h) && |payload| == h.sizeComp
    requires inflate(payload).Some?
    ensures var file := Container.Sealed(h, spare, payload, trailer, rest);
      var data := inflate(payload).value;
      && (md5(data) != h.digest ==> LoadSpriteIds(file, inflate, md5) == Success(None))
      && (md5(data) == h.digest && |data| % RECORD_SIZE == 0 ==>
           LoadSpriteIds(file, inflate, md5) == Success(Some(ParseRecords(XorAll(data, KEY)).value)))
  {
    Container.LoadSealed(h, spare, payload, trailer, rest, KEY, ParseRecords, inflate, md5);
  }

  /** The sprite-id file's result depends on neither `size_orig` nor the
      value of the trailing octet. */
  lemma SpriteIdsIgnoreSizeOrigAndTrailer(f1: seq<byte>, f2: seq<byte>, inflate: Inflate, md5: Container.Md5Hex)
    requires Container.SameButSizeOrigAndTrailer(f1, f2)
    ensures LoadSpriteIds(f1, inflate, md5) == LoadSpriteIds(f2, inflate, md5)
  {
    Container.LoadIgnoresSizeOrigAndTrailer(f1, f2, KEY, ParseRecords, inflate, md5);
  }
}
