/** Decoding UTF-8 into UTF-16 code units, as `utf8ToJavaCharArray` does it. */
module Utf8 {

  const REPLACEMENT: bv16 := 0xFFFD

  // ---------- The decoder as a function ----------

  /** One turn of the decoding loop: the code units it appends and the bytes it uses up. */
  datatype Turn = Turn(units: seq<bv16>, used: nat)

  /** The number of continuation bytes that a lead byte announces; 0 for bytes that cannot start a sequence. */
  function TrailCount(b0: bv8): (n: nat)
    ensures n <= 5
  {
    if b0 & 0xE0 == 0xC0 then 1
    else if b0 & 0xF0 == 0xE0 then 2
    else if b0 & 0xF8 == 0xF0 then 3
    else if b0 & 0xFC == 0xF8 then 4
    else if b0 & 0xFE == 0xFC then 5
    else 0
  }

  predicate IsTrail(b: bv8) {
    b & 0xC0 == 0x80
  }

  /** How many of the first `n` bytes are continuation bytes before the first that is not. */
  function GoodTrails(d: seq<bv8>, n: nat): (k: nat)
    requires n <= |d|
    ensures k <= n && (forall i :: 0 <= i < k ==> IsTrail(d[i])) && (k < n ==> !IsTrail(d[k]))
  {
    if n == 0 || !IsTrail(d[0]) then 0 else 1 + GoodTrails(d[1..], n - 1)
  }

  /** The bits of the lead byte that belong to the code point: `b0 & (0x1F >> (n - 1))`. */
  function LeadBits(b0: bv8, n: nat): bv32
    requires 1 <= n <= 5
  {
    (b0 as bv32) & (match n case 1 => 0x1F case 2 => 0x0F case 3 => 0x07 case 4 => 0x03 case _ => 0x01)
  }

  function PushOne(val: bv32, b: bv8): bv32 {
    (val << 6) | ((b as bv32) & 0x3F)
  }

  /** `val` with the payload of continuation bytes pushed in from the right. */
  function Push(val: bv32, d: seq<bv8>): bv32 {
    if d == [] then val else PushOne(Push(val, d[..|d| - 1]), d[|d| - 1])
  }

  /** The code units for a collected value, which came with `n` continuation bytes. */
  function UnitsOf(val: bv32, n: nat): seq<bv16> {
    if n != 2 && 0xD800 <= val <= 0xDFFF then [REPLACEMENT]
    else if val > 0x10FFFF then [REPLACEMENT]
    else if val < 0x10000 then [(val & 0xFFFF) as bv16]
    else [HighUnit(val), LowUnit(val)]
  }

  function HighUnit(val: bv32): bv16 {
    var x := val & 0xFFFF;
    var u := (val >> 16) & 0x1F;
    var w := (u - 1) & 0xFFFF;
    ((0xD800 | (w << 6) | (x >> 10)) & 0xFFFF) as bv16
  }

  function LowUnit(val: bv32): bv16 {
    var x := val & 0xFFFF;
    (0xDC00 | (x & 0x3FF)) as bv16
  }

  function TakeTurn(d: seq<bv8>): (t: Turn)
    requires d != []
    ensures 1 <= t.used <= |d| && 1 <= |t.units| <= t.used
  {
    var n := TrailCount(d[0]);
    if d[0] & 0x80 == 0 then Turn([d[0] as bv16], 1)
    else if n == 0 || 1 + n > |d| then Turn([REPLACEMENT], 1)
    else
      var k := GoodTrails(d[1..], n);
      if k < n then Turn([REPLACEMENT], 1 + k)
      else Turn(UnitsOf(Push(LeadBits(d[0], n), d[1..1 + n]), n), 1 + n)
  }

  function Decode(d: seq<bv8>): (v: seq<bv16>)
    ensures |v| <= |d|
    decreases |d|
  {
    if d == [] then []
    else
      var t := TakeTurn(d);
      t.units + Decode(d[t.used..])
  }

  // ---------- The encodings it is for ----------

  predicate IsScalar(cp: bv32) {
    cp < 0xD800 || 0xE000 <= cp <= 0x10FFFF
  }

  function LeadByte(tag: bv32, bits: bv32): bv8 {
    ((tag | bits) & 0xFF) as bv8
  }

  function TrailByte(bits: bv32): bv8 {
    (0x80 | (bits & 0x3F)) as bv8
  }

  /** The UTF-8 form of a number, section 3 of RFC 3629. */
  function Utf8Char(cp: bv32): (d: seq<bv8>)
    requires cp <= 0x10FFFF
    ensures d != []
  {
    if cp < 0x80 then [cp as bv8]
    else if cp < 0x800 then [LeadByte(0xC0, cp >> 6), TrailByte(cp)]
    else if cp < 0x10000 then [LeadByte(0xE0, cp >> 12), TrailByte(cp >> 6), TrailByte(cp)]
    else [LeadByte(0xF0, cp >> 18), TrailByte(cp >> 12), TrailByte(cp >> 6), TrailByte(cp)]
  }

  /** The UTF-16 form of a code point, section 2.1 of RFC 2781. */
  function Utf16Char(cp: bv32): seq<bv16>
    requires cp <= 0x10FFFF
  {
    if cp < 0x10000 then [cp as bv16]
    else
      var v := cp - 0x10000;
      [(0xD800 + (v >> 10)) as bv16, (0xDC00 + (v & 0x3FF)) as bv16]
  }

  type Text = s: seq<bv32> | forall cp :: cp in s ==> IsScalar(cp)

  function Utf8Text(s: Text): seq<bv8> {
    if s == [] then [] else Utf8Char(s[0]) + Utf8Text(s[1..])
  }

  function Utf16Text(s: Text): seq<bv16> {
    if s == [] then [] else Utf16Char(s[0]) + Utf16Text(s[1..])
  }

  /** Each code unit on its own as if it were a code point: what a surrogate pair looks like
      when it was written as two three-byte sequences. */
  function UnitsText(u: seq<bv16>): seq<bv8> {
    if u == [] then [] else Utf8Char(u[0] as bv32) + UnitsText(u[1..])
  }

  // ---------- Decoding undoes encoding ----------

  lemma OneByte(cp: bv32, rest: seq<bv8>)
    requires cp < 0x80
    ensures TakeTurn(Utf8Char(cp) + rest) == Turn(Utf16Char(cp), 1)
  {
    var b := cp as bv8;
    assert (Utf8Char(cp) + rest)[0] == b;
    assert b & 0x80 == 0;
  }

  // The bits of two-, three- and four-byte forms, put together again.

  lemma Join2(cp: bv32)
    requires cp < 0x800
    ensures var l := LeadByte(0xC0, cp >> 6);
            && l & 0x80 != 0 && l & 0xE0 == 0xC0
            && PushOne((l as bv32) & 0x1F, TrailByte(cp)) == cp
  {
  }

  lemma Join3(cp: bv32)
    requires cp < 0x10000
    ensures var l := LeadByte(0xE0, cp >> 12);
            && l & 0x80 != 0 && l & 0xE0 != 0xC0 && l & 0xF0 == 0xE0
            && PushOne(PushOne((l as bv32) & 0x0F, TrailByte(cp >> 6)), TrailByte(cp)) == cp
  {
  }

  lemma Join4(cp: bv32)
    requires cp < 0x20_0000
    ensures var l := LeadByte(0xF0, cp >> 18);
            && l & 0x80 != 0 && l & 0xE0 != 0xC0 && l & 0xF0 != 0xE0 && l & 0xF8 == 0xF0
            && PushOne(PushOne(PushOne((l as bv32) & 0x07, TrailByte(cp >> 12)), TrailByte(cp >> 6)),
                 TrailByte(cp)) == cp
  {
  }

  lemma TrailsAreTrails(bits: bv32)
    ensures IsTrail(TrailByte(bits))
  {
  }

  lemma Trails(d: seq<bv8>, n: nat)
    requires n <= |d| && forall i :: 0 <= i < n ==> IsTrail(d[i])
    ensures GoodTrails(d, n) == n
  {
  }

  lemma PushLast(val: bv32, d: seq<bv8>, b: bv8)
    ensures Push(val, d + [b]) == PushOne(Push(val, d), b)
  {
    assert (d + [b])[..|d|] == d;
  }

  // One turn over a well-formed sequence, in terms of its bytes.

  lemma Turn2(l: bv8, a: bv8, rest: seq<bv8>)
    requires l & 0x80 != 0 && l & 0xE0 == 0xC0 && IsTrail(a)
    ensures TakeTurn([l, a] + rest) == Turn(UnitsOf(PushOne((l as bv32) & 0x1F, a), 1), 2)
  {
    hide PushOne, UnitsOf;
    var d := [l, a] + rest;
    Trails(d[1..], 1);
    PushLast(LeadBits(l, 1), [], a);
    assert d[1..2] == [] + [a];
  }

  lemma Turn3(l: bv8, a: bv8, b: bv8, rest: seq<bv8>)
    requires l & 0x80 != 0 && l & 0xE0 != 0xC0 && l & 0xF0 == 0xE0 && IsTrail(a) && IsTrail(b)
    ensures TakeTurn([l, a, b] + rest) == Turn(UnitsOf(PushOne(PushOne((l as bv32) & 0x0F, a), b), 2), 3)
  {
    hide PushOne, UnitsOf;
    var d := [l, a, b] + rest;
    Trails(d[1..], 2);
    PushLast(LeadBits(l, 2), [], a);
    PushLast(LeadBits(l, 2), [] + [a], b);
    assert d[1..3] == [] + [a] + [b];
  }

  lemma Turn4(l: bv8, a: bv8, b: bv8, c: bv8, rest: seq<bv8>)
    requires l & 0x80 != 0 && l & 0xE0 != 0xC0 && l & 0xF0 != 0xE0 && l & 0xF8 == 0xF0
    requires IsTrail(a) && IsTrail(b) && IsTrail(c)
    ensures TakeTurn([l, a, b, c] + rest)
            == Turn(UnitsOf(PushOne(PushOne(PushOne((l as bv32) & 0x07, a), b), c), 3), 4)
  {
    hide PushOne, UnitsOf;
    var d := [l, a, b, c] + rest;
    Trails(d[1..], 3);
    PushLast(LeadBits(l, 3), [], a);
    PushLast(LeadBits(l, 3), [] + [a], b);
    PushLast(LeadBits(l, 3), [] + [a] + [b], c);
    assert d[1..4] == [] + [a] + [b] + [c];
  }

  lemma TwoBytes(cp: bv32, rest: seq<bv8>)
    requires 0x80 <= cp < 0x800
    ensures TakeTurn(Utf8Char(cp) + rest) == Turn(Utf16Char(cp), 2)
  {
    hide PushOne, TakeTurn, IsTrail, TrailByte, LeadByte, Utf16Char;
    Join2(cp);
    TrailsAreTrails(cp);
    Turn2(LeadByte(0xC0, cp >> 6), TrailByte(cp), rest);
    SmallUnits(cp, 1);
  }

  lemma ThreeBytes(cp: bv32, rest: seq<bv8>)
    requires 0x800 <= cp < 0x10000
    ensures TakeTurn(Utf8Char(cp) + rest) == Turn(Utf16Char(cp), 3)
  {
    hide PushOne, TakeTurn, IsTrail, TrailByte, LeadByte, Utf16Char;
    Join3(cp);
    TrailsAreTrails(cp >> 6);
    TrailsAreTrails(cp);
    Turn3(LeadByte(0xE0, cp >> 12), TrailByte(cp >> 6), TrailByte(cp), rest);
    SmallUnits(cp, 2);
  }

  lemma FourBytes(cp: bv32, rest: seq<bv8>)
    requires 0x10000 <= cp <= 0x10FFFF
    ensures TakeTurn(Utf8Char(cp) + rest) == Turn(Utf16Char(cp), 4)
  {
    hide PushOne, TakeTurn, IsTrail, TrailByte, LeadByte, Utf16Char;
    Join4(cp);
    TrailsAreTrails(cp >> 12);
    TrailsAreTrails(cp >> 6);
    TrailsAreTrails(cp);
    Turn4(LeadByte(0xF0, cp >> 18), TrailByte(cp >> 12), TrailByte(cp >> 6), TrailByte(cp), rest);
    Surrogates(cp);
  }

  lemma SmallUnits(cp: bv32, n: nat)
    requires cp < 0x10000 && (n == 2 || cp < 0xD800)
    ensures UnitsOf(cp, n) == Utf16Char(cp)
  {
  }

  /** The code's way to split a supplementary code point is the standard's. */
  lemma Surrogates(cp: bv32)
    requires 0x10000 <= cp <= 0x10FFFF
    ensures UnitsOf(cp, 3) == Utf16Char(cp)
  {
  }

  /** A code point, or a surrogate written on its own, takes one turn, whatever follows. */
  lemma CharTurn(cp: bv32, rest: seq<bv8>)
    requires cp <= 0x10FFFF
    ensures Decode(Utf8Char(cp) + rest) == Utf16Char(cp) + Decode(rest)
  {
    hide Utf8Char, Utf16Char, TakeTurn;
    if cp < 0x80 { OneByte(cp, rest); }
    else if cp < 0x800 { TwoBytes(cp, rest); }
    else if cp < 0x10000 { ThreeBytes(cp, rest); }
    else { FourBytes(cp, rest); }
    CharLength(cp);
    assert (Utf8Char(cp) + rest)[|Utf8Char(cp)|..] == rest;
  }

  lemma CharLength(cp: bv32)
    requires cp <= 0x10FFFF
    ensures |Utf8Char(cp)| == if cp < 0x80 then 1 else if cp < 0x800 then 2 else if cp < 0x10000 then 3 else 4
  {
  }

  /** Valid text decodes to its UTF-16 form, whatever bytes come after it. */
  lemma {:induction false} DecodeText(s: Text, rest: seq<bv8>)
    ensures Decode(Utf8Text(s) + rest) == Utf16Text(s) + Decode(rest)
  {
    hide Utf8Char, Utf16Char, Decode;
    if s == [] {
      assert Utf8Text(s) + rest == rest;
      assert Utf16Text(s) + Decode(rest) == Decode(rest);
    } else {
      CharTurn(s[0], Utf8Text(s[1..]) + rest);
      DecodeText(s[1..], rest);
      assert Utf8Text(s) + rest == Utf8Char(s[0]) + (Utf8Text(s[1..]) + rest);
    }
  }

  /** In particular decoding is the inverse of encoding, and nothing valid depends on what follows. */
  lemma DecodeEncode(s: Text, rest: seq<bv8>)
    ensures Decode(Utf8Text(s)) == Utf16Text(s)
    ensures Decode(Utf8Text(s) + rest) == Decode(Utf8Text(s)) + Decode(rest)
  {
    DecodeText(s, []);
    DecodeText(s, rest);
    assert Utf8Text(s) + [] == Utf8Text(s);
  }

  /** Surrogates given as three-byte sequences are accepted: any code units survive. */
  lemma {:induction false} DecodeUnits(u: seq<bv16>)
    ensures Decode(UnitsText(u)) == u
  {
    if u != [] {
      CharTurn(u[0] as bv32, UnitsText(u[1..]));
      DecodeUnits(u[1..]);
    }
  }

  // ---------- The decoder as it is written ----------

  lemma PushNone(val: bv32, d: seq<bv8>)
    requires d == []
    ensures Push(val, d) == val
  {
  }

  lemma PushNext(val: bv32, d: seq<bv8>, from: nat, to: nat)
    requires from <= to < |d|
    ensures Push(val, d[from..to + 1]) == PushOne(Push(val, d[from..to]), d[to])
  {
    assert d[from..to + 1] == d[from..to] + [d[to]];
    PushLast(val, d[from..to], d[to]);
  }

  lemma GoodNext(d: seq<bv8>, idx: nat, n: nat)
    requires 0 < n && idx + n <= |d|
    ensures GoodTrails(d[idx..], n) == if d[idx] & 0xC0 == 0x80 then 1 + GoodTrails(d[idx + 1..], n - 1) else 0
  {
    assert d[idx..][1..] == d[idx + 1..];
  }

  /** Pushes up to `n` continuation bytes from `idx0` on; stops at the first byte that is none, putting it back. */
  method TakeTrails(d: seq<bv8>, idx0: nat, n: nat, lead: bv32) returns (val: bv32, idx: nat, broken: bool)
    requires idx0 + n <= |d|
    ensures idx == idx0 + GoodTrails(d[idx0..], n)
    ensures broken <==> GoodTrails(d[idx0..], n) < n
    ensures !broken ==> val == Push(lead, d[idx0..idx0 + n])
  {
    hide PushOne, Push, GoodTrails;
    assert Push(lead, d[idx0..idx0]) == lead by { PushNone(lead, d[idx0..idx0]); }
    val, idx, broken := lead, idx0, false;
    var i := 0;
    while i < n
      invariant i <= n && idx == idx0 + i
      invariant val == Push(lead, d[idx0..idx])
      invariant i + GoodTrails(d[idx..], n - i) == GoodTrails(d[idx0..], n)
    {
      var b := d[idx];
      GoodNext(d, idx, n - i);
      PushNext(lead, d, idx0, idx);
      idx := idx + 1;
      if b & 0xC0 != 0x80 {
        idx := idx - 1;
        broken := true;
        return;
      }
      val := PushOne(val, b);
      i := i + 1;
    }
  }

  /** Stores the code units for a collected value. */
  method StoreValue(v: array<bv16>, s0: nat, val: bv32, utfCount: nat) returns (s: nat)
    requires s0 + 2 <= v.Length
    modifies v
    ensures s == s0 + |UnitsOf(val, utfCount)| <= s0 + 2
    ensures v[..s] == old(v[..s0]) + UnitsOf(val, utfCount)
    ensures forall i :: s <= i < v.Length ==> v[i] == old(v[i])
  {
    hide HighUnit, LowUnit;
    s := s0;
    if utfCount != 2 && val >= 0xD800 && val <= 0xDFFF {
      v[s] := REPLACEMENT;
      s := s + 1;
    } else if val > 0x10FFFF {
      v[s] := REPLACEMENT;
      s := s + 1;
    } else if val < 0x10000 {
      v[s] := (val & 0xFFFF) as bv16;
      s := s + 1;
    } else {
      v[s] := HighUnit(val);
      s := s + 1;
      v[s] := LowUnit(val);
      s := s + 1;
    }
  }

  /** One turn of the loop, at byte `idx0` with `s0` code units stored. */
  method StoreTurn(d: seq<bv8>, v: array<bv16>, idx0: nat, s0: nat) returns (idx: nat, s: nat)
    requires s0 <= idx0 < |d| <= v.Length
    modifies v
    ensures var t := TakeTurn(d[idx0..]);
            idx == idx0 + t.used && s == s0 + |t.units| && v[..s] == old(v[..s0]) + t.units
    ensures forall i :: s <= i < v.Length ==> v[i] == old(v[i])
  {
    hide PushOne, LeadBits, Push, UnitsOf;
    ghost var rest := d[idx0..];
    s := s0;
    var b0 := d[idx0];
    idx := idx0 + 1;
    if b0 & 0x80 == 0 {
      v[s] := b0 as bv16;
      s := s + 1;
      return;
    }
    var utfCount := TrailCount(b0);
    if utfCount == 0 || idx + utfCount > |d| {
      v[s] := REPLACEMENT;
      s := s + 1;
      return;
    }
    assert rest[1..] == d[idx..] && rest[1..1 + utfCount] == d[idx..idx + utfCount];
    var val, broken;
    val, idx, broken := TakeTrails(d, idx, utfCount, LeadBits(b0, utfCount));
    if broken {
      v[s] := REPLACEMENT;
      s := s + 1;
    } else {
      s := StoreValue(v, s, val, utfCount);
    }
  }

  /** Fills `v` with the code units for `d` and returns how many there are: never more than there are bytes. */
  method Utf8ToJavaCharArray(d: seq<bv8>, v: array<bv16>) returns (s: nat)
    requires v.Length >= |d|
    modifies v
    ensures s == |Decode(d)| <= |d| && v[..s] == Decode(d)
    ensures forall i :: s <= i < v.Length ==> v[i] == old(v[i])
  {
    hide TakeTurn;
    var idx := 0;
    s := 0;
    while idx < |d|
      invariant s <= idx <= |d|
      invariant v[..s] + Decode(d[idx..]) == Decode(d)
      invariant forall i :: s <= i < v.Length ==> v[i] == old(v[i])
    {
      ghost var rest := d[idx..];
      ghost var turn := TakeTurn(rest);
      idx, s := StoreTurn(d, v, idx, s);
      assert rest[turn.used..] == d[idx..];
    }
  }
}
