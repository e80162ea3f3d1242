/** The fixed-width, NUL-padded text fields of the record formats. */
module Text {
  import opened Bytes

  const NUL: char := '\0'

  /** Octets read one for one as characters; this agrees with the UTF-8
      decoding of the source on ASCII text. */
  function Decode(bs: seq<byte>): (r: string)
    ensures |r| == |bs|
  {
    seq(|bs|, i requires 0 <= i < |bs| => bs[i] as char)
  }

  /** Text that an octet field can hold. */
  predicate OctetText(s: string) {
    forall i :: 0 <= i < |s| ==> s[i] as int < 256
  }

  /** The octets of `s`, one per character. */
  function Encode(s: string): (r: seq<byte>)
    requires OctetText(s)
    ensures Decode(r) == s
  {
    seq(|s|, i requires 0 <= i < |s| => s[i] as int)
  }

  /** Decoding loses nothing: its characters are octet text, and encoding
      them gives back the octets. */
  lemma EncodeDecode(bs: seq<byte>)
    ensures OctetText(Decode(bs))
    ensures Encode(Decode(bs)) == bs
  {
  }

  lemma DecodeAppend(a: seq<byte>, b: seq<byte>)
    ensures Decode(a + b) == Decode(a) + Decode(b)
  {
  }

  /** `n` NUL characters. */
  function Nuls(n: nat): (r: string)
    ensures |r| == n
  {
    seq(n, _ => NUL)
  }

  lemma DecodeZeros(n: nat)
    ensures Decode(Zeros(n)) == Nuls(n)
  {
  }

  /** Neither end of `s` is a NUL. */
  predicate Trimmed(s: string) {
    |s| == 0 || (s[0] != NUL && s[|s| - 1] != NUL)
  }

  /** The number of NULs at the start of `s`. */
  function LeadingNuls(s: string): (n: nat)
    ensures n <= |s|
    ensures forall i :: 0 <= i < n ==> s[i] == NUL
    ensures n == |s| || s[n] != NUL
  {
    if |s| == 0 || s[0] != NUL then 0 else 1 + LeadingNuls(s[1..])
  }

  /** The number of NULs at the end of `s`. */
  function TrailingNuls(s: string): (n: nat)
    ensures n <= |s|
    ensures forall i :: |s| - n <= i < |s| ==> s[i] == NUL
    ensures n == |s| || s[|s| - n - 1] != NUL
  {
    if |s| == 0 || s[|s| - 1] != NUL then 0 else 1 + TrailingNuls(s[..|s| - 1])
  }

  /** Python's `s.strip('\x00')`: NULs removed from both ends. */
  function StripNul(s: string): (r: string)
    ensures Trimmed(r)
    ensures |r| <= |s|
    ensures Trimmed(s) ==> r == s
  {
    var t := s[LeadingNuls(s)..];
    t[..|t| - TrailingNuls(t)]
  }

  /** Stripping removes exactly a NUL frame around trimmed text. */
  lemma StripNulFrame(before: nat, s: string, after: nat)
    requires Trimmed(s)
    ensures StripNul(Nuls(before) + s + Nuls(after)) == s
  {
    var w := Nuls(before) + s + Nuls(after);
    var lead := LeadingNuls(w);
    if |s| > 0 {
      assert w[before] == s[0];
      assert lead == before;
      var t := w[lead..];
      assert t == s + Nuls(after);
      assert t[|s| - 1] == s[|s| - 1];
      assert TrailingNuls(t) == after;
      assert t[..|t| - after] == s;
    } else {
      assert w == Nuls(before + after);
      assert lead == |w|;
    }
  }

  /** A text field of `width` octets: the text, then NUL padding. */
  function Field(s: string, width: nat): (r: seq<byte>)
    requires OctetText(s) && |s| <= width
    ensures |r| == width
  {
    Encode(s) + Zeros(width - |s|)
  }

  /** Reading back a padded field gives the text it was built from. */
  lemma FieldRoundTrip(s: string, width: nat)
    requires OctetText(s) && |s| <= width && Trimmed(s)
    ensures StripNul(Decode(Field(s, width))) == s
  {
    DecodeAppend(Encode(s), Zeros(width - |s|));
    DecodeZeros(width - |s|);
    assert Decode(Field(s, width)) == Nuls(0) + s + Nuls(width - |s|);
    StripNulFrame(0, s, width - |s|);
  }
}
