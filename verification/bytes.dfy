/** Octets, little-endian integer fields, and the file-read and slicing
    conventions of the Python runtime the extractor runs on. */
module Bytes {
  import opened Arith

  /** One octet, as an item of a Python `bytes` object. */
  type byte = b: int | 0 <= b < 256

  function Pow2(n: nat): (r: nat)
    ensures r >= 1
  {
    if n == 0 then 1 else 2 * Pow2(n - 1)
  }

  /** Exclusive-or of the low `n` bits of `a` and `b`, bit by bit from the
      least significant one. */
  function BitXor(a: nat, b: nat, n: nat): (r: nat)
    ensures r < Pow2(n)
  {
    if n == 0 then 0 else (if a % 2 == b % 2 then 0 else 1) + 2 * BitXor(a / 2, b / 2, n - 1)
  }

  /** Exclusive-or with the same `b` twice restores any `n`-bit `a`. */
  lemma {:induction false} BitXorInvolution(a: nat, b: nat, n: nat)
    requires a < Pow2(n)
    ensures BitXor(BitXor(a, b, n), b, n) == a
  {
    if n > 0 {
      var bit := if a % 2 == b % 2 then 0 else 1;
      var low := BitXor(a / 2, b / 2, n - 1);
      var r := bit + 2 * low;
      assert BitXor(a, b, n) == r;
      DivModUnique(r, 2, low, bit);
      DivModUnique(a, 2, a / 2, a % 2);
      assert a / 2 < Pow2(n - 1);
      BitXorInvolution(a / 2, b / 2, n - 1);
      assert BitXor(r, b, n) == (if r % 2 == b % 2 then 0 else 1) + 2 * BitXor(low, b / 2, n - 1);
    }
  }

  lemma Pow2Eight()
    ensures Pow2(8) == 256
  {
    assert Pow2(4) == 16;
  }

  /** Bitwise exclusive-or of two octets (Python's `^` on octets). */
  function Xor(a: byte, b: byte): (r: byte)
    ensures r == BitXor(a, b, 8)
  {
    Pow2Eight();
    BitXor(a, b, 8)
  }

  lemma XorInvolution(a: byte, key: byte)
    ensures Xor(Xor(a, key), key) == a
  {
    Pow2Eight();
    BitXorInvolution(a, key, 8);
  }

  /** Every octet of `s` exclusive-or'ed with the single octet `key`:
      `bytes([d ^ key for d in s])`. */
  function XorAll(s: seq<byte>, key: byte): (r: seq<byte>)
    ensures |r| == |s|
  {
    seq(|s|, i requires 0 <= i < |s| => Xor(s[i], key))
  }

  /** The single-octet cipher is its own inverse. */
  lemma XorAllInvolution(s: seq<byte>, key: byte)
    ensures XorAll(XorAll(s, key), key) == s
  {
    forall i | 0 <= i < |s|
      ensures XorAll(XorAll(s, key), key)[i] == s[i]
    {
      XorInvolution(s[i], key);
    }
  }

  function Pow256(n: nat): (r: nat)
    ensures r >= 1
  {
    if n == 0 then 1 else 256 * Pow256(n - 1)
  }

  lemma Pow256Widths()
    ensures Pow256(2) == 0x1_0000
    ensures Pow256(4) == 0x1_0000_0000
    ensures Pow256(8) == 0x1_0000_0000_0000_0000
  {
    assert Pow256(1) == 0x100;
    assert Pow256(2) == 0x1_0000;
    assert Pow256(3) == 0x100_0000;
    assert Pow256(4) == 0x1_0000_0000;
    assert Pow256(5) == 0x100_0000_0000;
    assert Pow256(6) == 0x1_0000_0000_0000;
    assert Pow256(7) == 0x100_0000_0000_0000;
  }

  /** The unsigned little-endian value of `bs`: `struct.unpack` with `<H`,
      `<L` or `<Q` for two, four or eight octets. */
  function LeValue(bs: seq<byte>): (r: nat)
    ensures r < Pow256(|bs|)
  {
    if |bs| == 0 then 0 else bs[0] + 256 * LeValue(bs[1..])
  }

  /** The `n`-octet little-endian encoding of `v`. */
  function LeBytes(v: nat, n: nat): (r: seq<byte>)
    requires v < Pow256(n)
    ensures |r| == n
    ensures LeValue(r) == v
  {
    if n == 0 then [] else [v % 256] + LeBytes(v / 256, n - 1)
  }

  /** Encoding the value of a field reproduces the field. */
  lemma {:induction false} LeBytesOfValue(bs: seq<byte>)
    ensures LeBytes(LeValue(bs), |bs|) == bs
  {
    if |bs| > 0 {
      var v, rest := LeValue(bs), LeValue(bs[1..]);
      DivModUnique(v, 256, rest, bs[0]);
      LeBytesOfValue(bs[1..]);
      assert LeBytes(v, |bs|) == [bs[0]] + LeBytes(rest, |bs| - 1);
      assert [bs[0]] + bs[1..] == bs;
    }
  }

  /** `struct.unpack('<h', …)`: two octets as a two's-complement 16-bit value. */
  function I16(bs: seq<byte>): (r: int)
    requires |bs| == 2
    ensures -0x8000 <= r < 0x8000
    ensures (r + 0x1_0000) % 0x1_0000 == LeValue(bs)
  {
    Pow256Widths();
    var u := LeValue(bs);
    if u < 0x8000 then u else u - 0x1_0000
  }

  /** The two octets of the 16-bit two's-complement encoding of `v`. */
  function I16Bytes(v: int): (r: seq<byte>)
    requires -0x8000 <= v < 0x8000
    ensures |r| == 2
    ensures I16(r) == v
  {
    Pow256Widths();
    LeBytes(if v < 0 then v + 0x1_0000 else v, 2)
  }

  /** Re-encoding a signed field gives back its two octets. */
  lemma I16OfBytes(bs: seq<byte>)
    requires |bs| == 2
    ensures I16Bytes(I16(bs)) == bs
  {
    Pow256Widths();
    LeBytesOfValue(bs);
  }

  /** `struct.unpack('<H', …)` on the two octets at `at`. */
  function U16At(b: seq<byte>, at: nat): (r: nat)
    requires at + 2 <= |b|
    ensures r < 0x1_0000
  {
    Pow256Widths();
    LeValue(b[at..at + 2])
  }

  /** `struct.unpack('<h', …)` on the two octets at `at`. */
  function S16At(b: seq<byte>, at: nat): (r: int)
    requires at + 2 <= |b|
    ensures -0x8000 <= r < 0x8000
  {
    I16(b[at..at + 2])
  }

  /** `struct.unpack('<L', …)` on the four octets at `at`. */
  function U32At(b: seq<byte>, at: nat): (r: nat)
    requires at + 4 <= |b|
    ensures r < 0x1_0000_0000
  {
    Pow256Widths();
    LeValue(b[at..at + 4])
  }

  /** A field that follows `pre` at the start of `b` is the slice of `b`
      at offset `|pre|`. */
  lemma Within(b: seq<byte>, pre: seq<byte>, field: seq<byte>)
    requires pre + field <= b
    ensures |pre| + |field| <= |b| && b[|pre|..|pre| + |field|] == field
  {
    assert b[..|pre| + |field|] == pre + field;
    assert b[|pre|..|pre| + |field|] == (pre + field)[|pre|..];
  }

  /** Two adjacent slices join into one. */
  lemma Adjacent(b: seq<byte>, i: nat, j: nat, k: nat)
    requires i <= j <= k <= |b|
    ensures b[i..j] + b[j..k] == b[i..k]
  {
  }

  function Min(a: int, b: int): int {
    if a <= b then a else b
  }

  /** `f.seek(pos); f.read(n)` on a file holding `file`: the octets from
      `pos` on, at most `n` of them, fewer near the end, none past it. */
  function Read(file: seq<byte>, pos: nat, n: nat): (r: seq<byte>)
    ensures |r| == if pos >= |file| then 0 else Min(n, |file| - pos)
    ensures forall i :: 0 <= i < |r| ==> r[i] == file[pos + i]
    ensures pos + n <= |file| ==> r == file[pos..pos + n]
  {
    if pos >= |file| then [] else file[pos..pos + Min(n, |file| - pos)]
  }

  /** Python's `s[n:]`, which is empty rather than an error when `n > len(s)`. */
  function Tail(s: seq<byte>, n: nat): seq<byte> {
    if n <= |s| then s[n..] else []
  }

  /** `s[n:]` is the slice from `min(n, len(s))`: the suffix that follows
      the first `n` octets, or nothing when there are fewer. */
  lemma TailIsSlice(s: seq<byte>, n: nat)
    ensures Tail(s, n) == s[Min(n, |s|)..]
    ensures s == s[..Min(n, |s|)] + Tail(s, n)
    ensures |Tail(s, n)| == |s| - Min(n, |s|)
  {
  }

  /** `n` zero octets, like `[0] * n`. */
  function Zeros(n: nat): (r: seq<byte>)
    ensures |r| == n
  {
    seq(n, _ => 0)
  }
}
