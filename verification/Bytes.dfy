/** Little-endian numbers stored in byte sequences: the way a `uint32_t` or `int64_t` field
    of a struct placed over a raw buffer appears in that buffer. */
module Bytes {

  type byte = x: int | 0 <= x < 256

  const TWO_32 := 0x1_0000_0000
  const TWO_64 := 0x1_0000_0000_0000_0000

  function Pow256(n: nat): nat {
    if n == 0 then 1 else 256 * Pow256(n - 1)
  }

  /** The number whose little-endian digits are `b`. */
  function Decode(b: seq<byte>): nat {
    if |b| == 0 then 0 else b[0] + 256 * Decode(b[1..])
  }

  /** The `n` low little-endian digits of `v`. */
  function Encode(v: nat, n: nat): (b: seq<byte>)
    ensures |b| == n
  {
    if n == 0 then [] else [v % 256] + Encode(v / 256, n - 1)
  }

  lemma {:induction false} DecodeEncode(v: nat, n: nat)
    requires v < Pow256(n)
    ensures Decode(Encode(v, n)) == v
  {
    if n > 0 {
      DecodeEncode(v / 256, n - 1);
      assert Encode(v, n)[1..] == Encode(v / 256, n - 1);
    }
  }

  lemma {:induction false} DecodeBound(b: seq<byte>)
    ensures Decode(b) < Pow256(|b|)
  {
    if |b| > 0 {
      DecodeBound(b[1..]);
    }
  }

  lemma Pow4()
    ensures Pow256(4) == TWO_32 && Pow256(8) == TWO_64
  {
    assert Pow256(1) == 256;
    assert Pow256(2) == 0x1_0000;
    assert Pow256(3) == 0x100_0000;
    assert Pow256(4) == TWO_32;
    assert Pow256(5) == 0x100_0000_0000;
    assert Pow256(6) == 0x1_0000_0000_0000;
    assert Pow256(7) == 0x100_0000_0000_0000;
  }

  /** The 32-bit word at offset `o` of memory `m`. */
  function U32(m: seq<byte>, o: nat): (v: nat)
    requires o + 4 <= |m|
    ensures v < TWO_32
  {
    DecodeBound(m[o..o + 4]);
    Pow4();
    Decode(m[o..o + 4])
  }

  /** A 64-bit two's complement number as eight bytes, and back. */
  type int64 = x: int | -0x8000_0000_0000_0000 <= x < 0x8000_0000_0000_0000

  function EncodeInt64(v: int64): (b: seq<byte>)
    ensures |b| == 8
  {
    Encode(if v < 0 then v + TWO_64 else v, 8)
  }

  function DecodeInt64(b: seq<byte>): int64
    requires |b| == 8
  {
    DecodeBound(b);
    Pow4();
    var u := Decode(b);
    if u < 0x8000_0000_0000_0000 then u else u - TWO_64
  }

  lemma Int64RoundTrip(v: int64)
    ensures DecodeInt64(EncodeInt64(v)) == v
  {
    Pow4();
    DecodeEncode(if v < 0 then v + TWO_64 else v, 8);
  }

  /** `m` with the bytes from offset `o` on replaced by `b`. */
  function Splice(m: seq<byte>, o: nat, b: seq<byte>): (r: seq<byte>)
    requires o + |b| <= |m|
    ensures |r| == |m|
    ensures r[o..o + |b|] == b
    ensures forall i :: 0 <= i < |m| && !(o <= i < o + |b|) ==> r[i] == m[i]
  {
    m[..o] + b + m[o + |b|..]
  }

  lemma SpliceWord(m: seq<byte>, o: nat, v: nat)
    requires o + 4 <= |m| && v < TWO_32
    ensures U32(Splice(m, o, Encode(v, 4)), o) == v
  {
    Pow4();
    DecodeEncode(v, 4);
  }

  lemma {:induction false} EncodeDecode(b: seq<byte>)
    ensures Encode(Decode(b), |b|) == b
  {
    if |b| > 0 {
      EncodeDecode(b[1..]);
    }
  }

  /** Equal words are equal bytes. */
  lemma EqualWords(m: seq<byte>, n: seq<byte>, o: nat)
    requires o + 4 <= |m| && o + 4 <= |n| && U32(m, o) == U32(n, o)
    ensures forall i :: o <= i < o + 4 ==> m[i] == n[i]
  {
    EncodeDecode(m[o..o + 4]);
    EncodeDecode(n[o..o + 4]);
    assert m[o..o + 4] == n[o..o + 4];
    forall i | o <= i < o + 4 ensures m[i] == n[i] {
      assert m[i] == m[o..o + 4][i - o] && n[i] == n[o..o + 4][i - o];
    }
  }
}
