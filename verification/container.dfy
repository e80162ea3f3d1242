/** The checksummed container shared by the palette file and the sprite-id
    file: a 41-octet preamble holding a split MD5 digest and two sizes, a
    zlib payload, then one trailing octet. The inflated payload is checked
    against the digest and then deciphered with a single-octet XOR key. */
module Container {
  import opened Wrappers
  import opened Errors
  import opened Bytes
  import opened Text
  import opened Zlib
  import opened Arith

  /** `hashlib.md5(data).hexdigest()`, left uninterpreted. */
  type Md5Hex = seq<byte> -> string

  /** Octets before the payload: 16 digest octets, `size_orig`, `size_comp`,
      16 more digest octets and one octet the digest drops. */
  const PREAMBLE: nat := 41

  datatype Header = Header(digest: string, sizeOrig: nat, sizeComp: nat)

  predicate IsAscii(bs: seq<byte>) {
    forall i :: 0 <= i < |bs| ==> bs[i] < 128
  }

  /** The 32 stored digest octets: the first 16 and the 16 after the sizes. */
  function DigestOctets(file: seq<byte>): (r: seq<byte>)
    requires |file| >= PREAMBLE
    ensures |r| == 32
  {
    file[..16] + file[24..40]
  }

  /** The preamble: each `read` must deliver every octet `struct.unpack`
      asks for, and the joined digest must decode as ASCII. */
  function ReadHeader(file: seq<byte>): (r: Result<Header, Error>)
    ensures r.Success? <==> |file| >= PREAMBLE && IsAscii(DigestOctets(file))
    ensures r.Success? ==> |r.value.digest| == 32
    ensures r.Success? ==> r.value.sizeOrig < 0x1_0000_0000 && r.value.sizeComp < 0x1_0000_0000
  {
    Pow256Widths();
    if |file| < PREAMBLE then Failure(ShortRead)
    else if !IsAscii(DigestOctets(file)) then Failure(NotAscii)
    else Success(Header(Decode(DigestOctets(file)), LeValue(file[16..20]), LeValue(file[20..24])))
  }

  /** A header the preamble can hold. */
  predicate Storable(h: Header) {
    && |h.digest| == 32
    && (forall i :: 0 <= i < 32 ==> h.digest[i] as int < 128)
    && h.sizeOrig < 0x1_0000_0000
    && h.sizeComp < 0x1_0000_0000
  }

  /** The 41 preamble octets that store `h`; `spare` fills the octet that
      the digest drops. */
  function Preamble(h: Header, spare: byte): (r: seq<byte>)
    requires Storable(h)
    ensures |r| == PREAMBLE
  {
    Pow256Widths();
    Encode(h.digest[..16]) + LeBytes(h.sizeOrig, 4) + LeBytes(h.sizeComp, 4) + Encode(h.digest[16..]) + [spare]
  }

  /** Reading a stored header gives it back, whatever follows the preamble. */
  lemma ReadPreamble(h: Header, spare: byte, rest: seq<byte>)
    requires Storable(h)
    ensures ReadHeader(Preamble(h, spare) + rest) == Success(h)
  {
    Pow256Widths();
    var lo, hi := Encode(h.digest[..16]), Encode(h.digest[16..]);
    var orig, comp := LeBytes(h.sizeOrig, 4), LeBytes(h.sizeComp, 4);
    var file := lo + (orig + (comp + (hi + ([spare] + rest))));
    assert Preamble(h, spare) + rest == file;
    assert file[..16] == lo;
    var f1 := orig + (comp + (hi + ([spare] + rest)));
    assert file[16..] == f1;
    assert f1[..4] == orig;
    var f2 := comp + (hi + ([spare] + rest));
    assert f1[4..] == f2;
    assert f2[..4] == comp;
    assert f2[4..][..16] == hi;
    assert file[16..20] == orig;
    assert file[20..24] == comp;
    assert file[24..40] == hi;
    assert DigestOctets(file) == lo + hi;
    DecodeAppend(lo, hi);
    assert Decode(lo) + Decode(hi) == h.digest[..16] + h.digest[16..] == h.digest;
  }

  /** The compressed octets: `size_comp` of them straight after the preamble,
      fewer if the file ends first. */
  function Payload(file: seq<byte>, h: Header): (r: seq<byte>)
    ensures |r| <= h.sizeComp
    ensures PREAMBLE + h.sizeComp <= |file| ==> r == file[PREAMBLE..PREAMBLE + h.sizeComp]
  {
    Read(file, PREAMBLE, h.sizeComp)
  }

  /** The deciphered payload, and the file position the payload read ended at. */
  datatype Opened = Opened(plain: seq<byte>, payloadEnd: nat)

  /** Header, payload, inflate, checksum gate and decipher. A digest that
      differs from the stored one, compared as exact text, makes the source
      return nothing: `Success(None)`. */
  function Open(file: seq<byte>, key: byte, inflate: Inflate, md5: Md5Hex): (r: Result<Option<Opened>, Error>)
    ensures r.Success? <==> ReadHeader(file).Success? && inflate(Payload(file, ReadHeader(file).value)).Some?
    ensures r.Success? ==>
      var data := inflate(Payload(file, ReadHeader(file).value)).value;
      (r.value.None? <==> md5(data) != ReadHeader(file).value.digest)
      && (r.value.Some? ==> XorAll(r.value.value.plain, key) == data)
  {
    var h :- ReadHeader(file);
    var data :- inflate(Payload(file, h)).ToResult(InflateFailed);
    if md5(data) != h.digest then Success(None)
    else
      XorAllInvolution(data, key);
      Success(Some(Opened(XorAll(data, key), Min(PREAMBLE + h.sizeComp, |file|))))
  }

  /** The whole loader: after a passing checksum the deciphered octets are
      cut into records by `parse`, and only then is the trailing octet read,
      which must exist though its value is never used. A failing preamble
      read, a failing inflate or a failing parse raises its own error; a
      digest mismatch yields nothing; and a file that ends with the payload
      raises for the missing trailer. */
  function Load<T>(file: seq<byte>, key: byte, parse: seq<byte> -> Result<T, Error>,
                   inflate: Inflate, md5: Md5Hex): (r: Result<Option<T>, Error>)
    ensures ReadHeader(file).Failure? ==> r == Failure(ReadHeader(file).error)
    ensures ReadHeader(file).Success? ==>
      var h := ReadHeader(file).value;
      var data := inflate(Payload(file, h));
      && (data.None? ==> r == Failure(InflateFailed))
      && (data.Some? && md5(data.value) != h.digest ==> r == Success(None))
      && (data.Some? && md5(data.value) == h.digest ==>
           match parse(XorAll(data.value, key))
           case Failure(e) => r == Failure(e)
           case Success(records) =>
             r == if PREAMBLE + h.sizeComp < |file| then Success(Some(records)) else Failure(MissingTrailer))
  {
    var unsealed :- Open(file, key, inflate, md5);
    if unsealed.None? then Success(None)
    else
      var records :- parse(unsealed.value.plain);
      if unsealed.value.payloadEnd >= |file| then Failure(MissingTrailer)
      else Success(Some(records))
  }

  /** The slice of record `k` in a stream of `size`-octet records. */
  function Record(data: seq<byte>, size: nat, k: nat): (r: seq<byte>)
    requires size * k + size <= |data|
    ensures |r| == size
  {
    data[size * k .. size * k + size]
  }

  lemma RecordOfTail(data: seq<byte>, size: nat, k: nat)
    requires size <= |data| && size * k + size <= |data| - size
    ensures size * (k + 1) + size <= |data|
    ensures Record(data[size..], size, k) == Record(data, size, k + 1)
  {
    MulSucc(size, k);
  }

  /** The source's `for i in range(0, len(data), size)` over fixed-width
      records, with a partial last record being an error: the split
      succeeds exactly on whole records and keeps them in order. */
  function Split(data: seq<byte>, size: nat): (r: Option<seq<seq<byte>>>)
    requires size > 0
    ensures r.Some? <==> |data| % size == 0
    ensures r.Some? ==> size * |r.value| == |data| && |r.value| == |data| / size
    ensures r.Some? ==> forall k :: 0 <= k < |r.value| ==>
      size * k + size <= |data| && r.value[k] == Record(data, size, k)
    decreases |data|
  {
    if |data| == 0 then Some([])
    else if |data| < size then
      DivModOfShort(|data|, size);
      None
    else
      var rest := Split(data[size..], size);
      DivModOfLonger(|data| - size, size);
      if rest.None? then None
      else
        SplitCons(data, size, rest.value);
        Some([data[..size]] + rest.value)
  }

  /** The records of `data` are its first record followed by the records
      of the rest. */
  lemma SplitCons(data: seq<byte>, size: nat, rest: seq<seq<byte>>)
    requires 0 < size <= |data|
    requires size * |rest| == |data| - size
    requires forall k :: 0 <= k < |rest| ==>
      size * k + size <= |data| - size && rest[k] == Record(data[size..], size, k)
    ensures var r := [data[..size]] + rest;
      && size * |r| == |data| && |r| == |data| / size && |data| % size == 0
      && forall k :: 0 <= k < |r| ==> size * k + size <= |data| && r[k] == Record(data, size, k)
  {
    var r := [data[..size]] + rest;
    MulSucc(size, |rest|);
    DivModUnique(|data|, size, |r|, 0);
    forall k | 1 <= k < |r|
      ensures size * k + size <= |data| && r[k] == Record(data, size, k)
    {
      RecordOfTail(data, size, k - 1);
    }
  }

  lemma DivModOfShort(n: nat, size: nat)
    requires 0 < n < size
    ensures n % size != 0
  {
  }

  lemma DivModOfLonger(n: nat, size: nat)
    requires size > 0
    ensures (n + size) % size == n % size
    ensures (n + size) / size == n / size + 1
  {
    var q, m := n / size, n % size;
    assert n + size == size * (q + 1) + m;
    DivModUnique(n + size, size, q + 1, m);
  }

  /** A well-formed container: preamble, a payload of exactly `size_comp`
      octets, the trailing octet, and anything after. */
  function Sealed(h: Header, spare: byte, payload: seq<byte>, trailer: byte, rest: seq<byte>): (r: seq<byte>)
    requires Storable(h) && |payload| == h.sizeComp
    ensures |r| == PREAMBLE + h.sizeComp + 1 + |rest|
  {
    Preamble(h, spare) + payload + [trailer] + rest
  }

  /** On a well-formed container the loader inflates exactly the payload,
      yields nothing when its digest is not the stored one, and otherwise
      parses the deciphered octets. */
  lemma LoadSealed<T>(h: Header, spare: byte, payload: seq<byte>, trailer: byte, rest: seq<byte>,
                      key: byte, parse: seq<byte> -> Result<T, Error>, inflate: Inflate, md5: Md5Hex)
    requires Storable(h) && |payload| == h.sizeComp
    ensures var file := Sealed(h, spare, payload, trailer, rest);
      Load(file, key, parse, inflate, md5) ==
        match inflate(payload)
        case None => Failure(InflateFailed)
        case Some(data) =>
          if md5(data) != h.digest then Success(None)
          else match parse(XorAll(data, key))
            case Failure(e) => Failure(e)
            case Success(records) => Success(Some(records))
  {
    var file := Sealed(h, spare, payload, trailer, rest);
    assert file == Preamble(h, spare) + (payload + [trailer] + rest);
    ReadPreamble(h, spare, payload + [trailer] + rest);
    assert Payload(file, h) == payload;
  }

  /** Files that differ only in the `size_orig` field and in the value of
      the trailing octet. */
  predicate SameButSizeOrigAndTrailer(f1: seq<byte>, f2: seq<byte>) {
    && |f1| == |f2|
    && |f1| >= 24
    && f1[20..24] == f2[20..24]
    && forall i :: 0 <= i < |f1| && !(16 <= i < 20) && i != PREAMBLE + LeValue(f1[20..24]) ==> f1[i] == f2[i]
  }

  /** The loader reads neither `size_orig` nor the trailing octet's value. */
  lemma LoadIgnoresSizeOrigAndTrailer<T>(f1: seq<byte>, f2: seq<byte>, key: byte,
                                         parse: seq<byte> -> Result<T, Error>, inflate: Inflate, md5: Md5Hex)
    requires SameButSizeOrigAndTrailer(f1, f2)
    ensures Load(f1, key, parse, inflate, md5) == Load(f2, key, parse, inflate, md5)
  {
    if |f1| >= PREAMBLE {
      assert DigestOctets(f1) == DigestOctets(f2);
      var h1, h2 := ReadHeader(f1), ReadHeader(f2);
      if h1.Success? {
        assert h1.value.sizeComp == h2.value.sizeComp;
        assert h1.value.digest == h2.value.digest;
        assert Payload(f1, h1.value) == Payload(f2, h2.value);
      }
    }
  }
}
