/** Base64 as curl encodes and decodes it; section 4 of RFC 4648. */
module Base64 {

  type u8 = x: int | 0 <= x < 0x100

  datatype Result<+T> = Ok(value: T) | BadContentEncoding

  /** The alphabet: A to Z, a to z, 0 to 9 and the two characters `plus` and `slash`. */
  function CharOf(i: nat, plus: char, slash: char): char
    requires i < 64
  {
    if i < 26 then 'A' + i as char
    else if i < 52 then 'a' + (i - 26) as char
    else if i < 62 then '0' + (i - 52) as char
    else if i == 62 then plus
    else slash
  }

  function MakeTable(plus: char, slash: char): (t: string)
    ensures |t| == 64 && forall i :: 0 <= i < 64 ==> t[i] == CharOf(i, plus, slash)
  {
    seq(64, (i: nat) requires i < 64 => CharOf(i, plus, slash))
  }

  const TABLE := MakeTable('+', '/')
  const TABLE_URL := MakeTable('-', '_')

  const LETTERS := "ABCDEFGHIJKLMNOPQRSTUVWXYZ"
  const SMALL_LETTERS := "abcdefghijklmnopqrstuvwxyz"
  const DIGITS := "0123456789"

  /** The two alphabets of sections 4 and 5 of RFC 4648. */
  lemma Alphabets()
    ensures TABLE == LETTERS + SMALL_LETTERS + DIGITS + "+/"
    ensures TABLE_URL == LETTERS + SMALL_LETTERS + DIGITS + "-_"
  {
    Literal('+', '/', "+/");
    Literal('-', '_', "-_");
  }

  lemma Literal(plus: char, slash: char, end: string)
    requires end == [plus, slash]
    ensures MakeTable(plus, slash) == LETTERS + SMALL_LETTERS + DIGITS + end
  {
    assert forall i :: 0 <= i < 26 ==> LETTERS[i] == 'A' + i as char;
    assert forall i :: 0 <= i < 26 ==> SMALL_LETTERS[i] == 'a' + i as char;
    assert forall i :: 0 <= i < 10 ==> DIGITS[i] == '0' + i as char;
  }

  /** A table of 64 different characters, none of which is the padding or the terminator. */
  ghost predicate IsTable(table: string) {
    && |table| == 64 && '=' !in table && '\0' !in table
    && forall i, j :: 0 <= i < j < 64 ==> table[i] != table[j]
  }

  // ---------- Encoding ----------

  /** The four characters for one to three bytes: `(b0 & 0xFC) >> 2`, `(b0 & 3) << 4 | (b1 & 0xF0) >> 4`, and so on. */
  function Quantum(table: string, d: seq<u8>): (q: string)
    requires |table| == 64 && 1 <= |d| <= 3
    ensures |q| == 4
  {
    var b1 := if |d| > 1 then d[1] else 0;
    var b2 := if |d| > 2 then d[2] else 0;
    [table[d[0] / 4], table[d[0] % 4 * 16 + b1 / 16],
     if |d| > 1 then table[b1 % 16 * 4 + b2 / 64] else '=',
     if |d| > 2 then table[b2 % 64] else '=']
  }

  function Encode(table: string, d: seq<u8>): (t: string)
    requires |table| == 64
    ensures |t| == (|d| + 2) / 3 * 4
  {
    if d == [] then []
    else if |d| <= 3 then Quantum(table, d)
    else Quantum(table, d[..3]) + Encode(table, d[3..])
  }

  /** The number that up to three bytes are, missing ones as zeros. */
  function BytesValue(d: seq<u8>): int
    requires 1 <= |d| <= 3
  {
    0x10000 * (d[0] as int) + (if |d| > 1 then 0x100 * (d[1] as int) else 0) + (if |d| > 2 then d[2] as int else 0)
  }

  /** The place of a character in the alphabet, with the padding counted as zero. */
  function Place(table: string, c: char): nat {
    if c == '=' then 0 else IndexIn(table, c)
  }

  /** The four characters' places in the alphabet are the digits to base 64 of the bytes' number; one character is
      padding for each byte that is missing. */
  lemma QuantumValue(table: string, d: seq<u8>)
    requires IsTable(table) && 1 <= |d| <= 3
    ensures var q := Quantum(table, d);
            && 0x40000 * Place(table, q[0]) + 0x1000 * Place(table, q[1])
               + 0x40 * Place(table, q[2]) + Place(table, q[3]) == BytesValue(d)
            && (forall i :: 0 <= i < 4 ==> (q[i] == '=' <==> i > |d|))
  {
    hide IndexIn;
    var b1: int, b2: int := if |d| > 1 then d[1] else 0, if |d| > 2 then d[2] else 0;
    PlaceAt(table, d[0] / 4);
    PlaceAt(table, d[0] % 4 * 16 + b1 / 16);
    PlaceAt(table, b1 % 16 * 4 + b2 / 64);
    PlaceAt(table, b2 % 64);
  }

  lemma PlaceAt(table: string, i: nat)
    requires IsTable(table) && i < 64
    ensures table[i] != '=' && Place(table, table[i]) == i
  {
    IndexAt(table, i);
  }

  // ---------- Decoding ----------

  /** The place of a character in the alphabet, or 64. */
  function IndexIn(table: string, c: char): (i: nat)
    ensures i <= |table| && (i < |table| ==> table[i] == c) && forall j :: 0 <= j < i ==> table[j] != c
  {
    if table == [] || table[0] == c then 0 else 1 + IndexIn(table[1..], c)
  }

  function Index(c: char): (i: nat)
    ensures i <= 64 && (i < 64 ==> TABLE[i] == c)
  {
    IndexIn(TABLE, c)
  }

  /** The six bits a character adds; padding adds zeros. */
  function Bits(c: char): nat {
    if c == '=' then 0 else Index(c)
  }

  function Padding(q: string): nat {
    if q == [] then 0 else (if q[0] == '=' then 1 else 0) + Padding(q[1..])
  }

  predicate InAlphabet(c: char) {
    c == '=' || Index(c) < 64
  }

  /** The 24 bits of one group of four characters. */
  function Word(q: string): nat
    requires |q| == 4
  {
    0x4_0000 * Bits(q[0]) + 0x1000 * Bits(q[1]) + 64 * Bits(q[2]) + Bits(q[3])
  }

  function WordBytes(x: nat): (b: seq<u8>)
    ensures |b| == 3
  {
    [x / 0x1_0000 % 0x100, x / 0x100 % 0x100, x % 0x100]
  }

  predicate AllInAlphabet(t: string) {
    forall i :: 0 <= i < |t| ==> InAlphabet(t[i])
  }

  /** The bytes of one group of four characters. */
  function QuantumBytes(q: string): Result<seq<u8>>
    requires |q| == 4
  {
    if !AllInAlphabet(q) || Padding(q) >= 3 then BadContentEncoding
    else Ok(WordBytes(Word(q))[..3 - Padding(q)])
  }

  function DecodeQuantums(t: string): Result<seq<u8>>
    requires |t| % 4 == 0
  {
    if t == [] then Ok([])
    else
      match QuantumBytes(t[..4])
      case BadContentEncoding => BadContentEncoding
      case Ok(head) =>
        match DecodeQuantums(t[4..])
        case BadContentEncoding => BadContentEncoding
        case Ok(rest) => Ok(head + rest)
  }

  /** Where the padding starts. */
  function PadStart(t: string): (n: nat)
    ensures n <= |t| && (n < |t| ==> t[n] == '=') && forall i :: 0 <= i < n ==> t[i] != '='
  {
    if t == [] || t[0] == '=' then 0 else 1 + PadStart(t[1..])
  }

  /** How many padding characters are looked at: at most two. */
  function PadCount(t: string): (n: nat)
    ensures n <= 2
  {
    var n := PadStart(t);
    if n == |t| then 0 else if n + 1 < |t| && t[n + 1] == '=' then 2 else 1
  }

  function Decode(t: string): Result<seq<u8>> {
    if t == [] || |t| % 4 != 0 || PadStart(t) + PadCount(t) != |t| then BadContentEncoding
    else DecodeQuantums(t)
  }

  // ---------- The round trip ----------

  lemma {:induction false} IndexAt(table: string, i: nat)
    requires i < |table| && forall j, k :: 0 <= j < k < |table| ==> table[j] != table[k]
    ensures IndexIn(table, table[i]) == i
  {
    var r := IndexIn(table, table[i]);
    assert r <= i;
  }

  /** No character occurs twice in either alphabet. */
  lemma Tables()
    ensures IsTable(TABLE) && IsTable(TABLE_URL)
    ensures forall i :: 0 <= i < 64 ==> Index(TABLE[i]) == i && TABLE[i] != '='
  {
    forall i | 0 <= i < 64 ensures Index(TABLE[i]) == i {
      IndexAt(TABLE, i);
    }
  }

  // One to three bytes and back.

  lemma PaddingOf(q: string)
    requires |q| == 4
    ensures Padding(q) == (if q[0] == '=' then 1 else 0) + (if q[1] == '=' then 1 else 0)
                          + (if q[2] == '=' then 1 else 0) + (if q[3] == '=' then 1 else 0)
  {
    assert q[1..][1..] == q[2..] && q[2..][1..] == q[3..] && q[3..][1..] == [];
    assert Padding(q[3..]) == if q[3] == '=' then 1 else 0;
    assert Padding(q[2..]) == (if q[2] == '=' then 1 else 0) + Padding(q[3..]);
    assert Padding(q[1..]) == (if q[1] == '=' then 1 else 0) + Padding(q[2..]);
  }

  lemma WordOfQuantum(d: seq<u8>)
    requires 1 <= |d| <= 3
    ensures QuantumBytes(Quantum(TABLE, d)) == Ok(d)
  {
    hide WordBytes, Index, CharOf;
    Tables();
    var q := Quantum(TABLE, d);
    var b1 := if |d| > 1 then d[1] else 0;
    var b2 := if |d| > 2 then d[2] else 0;
    PaddingOf(q);
    hide Padding;
    assert Bits(q[0]) == d[0] / 4 && Bits(q[1]) == d[0] % 4 * 16 + b1 / 16;
    assert Bits(q[2]) == b1 % 16 * 4 + b2 / 64 && Bits(q[3]) == b2 % 64;
    Regroup(d[0], b1, b2);
    assert [d[0], b1, b2][..|d|] == d;
  }

  /** The six-bit groups put together again. */
  lemma Regroup(b0: u8, b1: u8, b2: u8)
    ensures WordBytes(0x4_0000 * (b0 / 4) + 0x1000 * (b0 % 4 * 16 + b1 / 16) + 64 * (b1 % 16 * 4 + b2 / 64) + b2 % 64)
            == [b0, b1, b2]
  {
    var a, r, c, s, e, f := b0 / 4, b0 % 4, b1 / 16, b1 % 16, b2 / 64, b2 % 64;
    assert b0 == 4 * a + r && b1 == 16 * c + s && b2 == 64 * e + f;
    SplitWord(b0, b1, b2);
  }

  lemma SplitWord(b0: u8, b1: u8, b2: u8)
    ensures WordBytes(0x1_0000 * b0 + 0x100 * b1 + b2) == [b0, b1, b2]
  {
    var x: nat := 0x1_0000 * b0 + 0x100 * b1 + b2;
    assert x / 0x1_0000 == b0 && x / 0x100 == 0x100 * b0 + b1;
  }

  lemma {:induction false} DecodeAll(d: seq<u8>)
    ensures DecodeQuantums(Encode(TABLE, d)) == Ok(d)
  {
    hide QuantumBytes, Quantum;
    var t := Encode(TABLE, d);
    if d == [] {
    } else if |d| <= 3 {
      WordOfQuantum(d);
      assert t[..4] == t && t[4..] == [];
      assert d + [] == d;
    } else {
      WordOfQuantum(d[..3]);
      DecodeAll(d[3..]);
      assert t[..4] == Quantum(TABLE, d[..3]) && t[4..] == Encode(TABLE, d[3..]);
      assert d[..3] + d[3..] == d;
    }
  }

  function PadFor(n: nat): nat {
    if n % 3 == 0 then 0 else 3 - n % 3
  }

  lemma QuantumPadding(d: seq<u8>)
    requires 1 <= |d| <= 3
    ensures var q := Quantum(TABLE, d); forall i :: 0 <= i < 4 ==> (q[i] == '=' <==> i > |d|)
  {
    Tables();
  }

  /** The padding of `t` is its last `k` characters. */
  ghost predicate PaddedBy(t: string, k: nat) {
    k <= |t| && forall i :: 0 <= i < |t| ==> (t[i] == '=' <==> i >= |t| - k)
  }

  /** An encoded text ends in exactly the padding its length calls for. */
  lemma {:induction false} EncodedPadding(d: seq<u8>)
    requires d != []
    ensures PaddedBy(Encode(TABLE, d), PadFor(|d|))
  {
    hide Quantum;
    if |d| <= 3 {
      QuantumPadding(d);
    } else {
      QuantumPadding(d[..3]);
      EncodedPadding(d[3..]);
    }
  }

  lemma PadStartIs(t: string, k: nat)
    requires PaddedBy(t, k) && k <= 2
    ensures PadStart(t) == |t| - k && PadCount(t) == k
  {
    var r := PadStart(t);
  }

  /** Decoding what was encoded gives the bytes back. */
  lemma RoundTrip(d: seq<u8>)
    requires d != []
    ensures Decode(Encode(TABLE, d)) == Ok(d)
  {
    hide Encode, DecodeQuantums, PadStart, PadCount, PaddedBy;
    var t := Encode(TABLE, d);
    EncodedPadding(d);
    PadStartIs(t, PadFor(|d|));
    DecodeAll(d);
    assert |t| > 0 && |t| % 4 == 0;
  }

  /** The output with its terminator fits the allocated `insize * 4 / 3 + 4` bytes, with none to spare
      exactly when one byte is left over. */
  lemma BufferExact(n: nat)
    ensures (n + 2) / 3 * 4 + 1 <= n * 4 / 3 + 4
    ensures (n + 2) / 3 * 4 + 1 == n * 4 / 3 + 4 <==> n % 3 == 1
  {
  }

  // ---------- The other direction ----------

  /** The bits of the last character that no byte uses are zero. */
  predicate Canonical(t: string) {
    var n := |t|;
    if n < 4 || PadCount(t) == 0 then true
    else if PadCount(t) == 1 then Bits(t[n - 2]) % 4 == 0
    else Bits(t[n - 3]) % 16 == 0
  }

  lemma CharBack(c: char)
    requires InAlphabet(c) && c != '='
    ensures Bits(c) < 64 && TABLE[Bits(c)] == c
  {
  }

  lemma SameChar(i: nat, j: nat)
    requires i < 64 && j < 64
    ensures TABLE[i] == TABLE[j] <==> i == j
  {
    Tables();
  }

  /** The bytes of a word, and the six-bit groups of those bytes. */
  lemma Ungroup(a: nat, b: nat, c: nat, d: nat)
    requires a < 64 && b < 64 && c < 64 && d < 64
    ensures var w := WordBytes(0x4_0000 * a + 0x1000 * b + 64 * c + d);
            && w[0] / 4 == a && w[0] % 4 * 16 + w[1] / 16 == b
            && w[1] % 16 * 4 + w[2] / 64 == c && w[2] % 64 == d
            && w[1] % 16 * 4 == c / 4 * 4 && w[0] % 4 * 16 == b / 16 * 16
  {
    var r, s, e, f := b / 16, b % 16, c / 4, c % 4;
    assert b == 16 * r + s && c == 4 * e + f;
    SplitWord(4 * a + r, 16 * s + e, 64 * f + d);
  }

  lemma QuantumForms(w: seq<u8>)
    requires |w| == 3
    ensures Quantum(TABLE, [w[0]]) == [TABLE[w[0] / 4], TABLE[w[0] % 4 * 16], '=', '=']
    ensures Quantum(TABLE, [w[0], w[1]])
            == [TABLE[w[0] / 4], TABLE[w[0] % 4 * 16 + w[1] / 16], TABLE[w[1] % 16 * 4], '=']
    ensures Quantum(TABLE, w) == [TABLE[w[0] / 4], TABLE[w[0] % 4 * 16 + w[1] / 16],
                                  TABLE[w[1] % 16 * 4 + w[2] / 64], TABLE[w[2] % 64]]
  {
  }

  lemma UngroupWord(q: string)
    requires |q| == 4 && Bits(q[0]) < 64 && Bits(q[1]) < 64 && Bits(q[2]) < 64 && Bits(q[3]) < 64
    ensures var w := WordBytes(Word(q));
            && w[0] / 4 == Bits(q[0]) && w[0] % 4 * 16 + w[1] / 16 == Bits(q[1])
            && w[1] % 16 * 4 + w[2] / 64 == Bits(q[2]) && w[2] % 64 == Bits(q[3])
            && w[1] % 16 * 4 == Bits(q[2]) / 4 * 4 && w[0] % 4 * 16 == Bits(q[1]) / 16 * 16
  {
    hide WordBytes, Bits;
    Ungroup(Bits(q[0]), Bits(q[1]), Bits(q[2]), Bits(q[3]));
  }

  /** The characters of a group that is encoded from the bytes of a group `q`: only the last one before
      the padding may differ, by its unused bits. */
  lemma Reencoded(q: string)
    requires |q| == 4 && AllInAlphabet(q) && q[0] != '=' && q[1] != '=' && (q[3] != '=' ==> q[2] != '=')
    ensures var w := WordBytes(Word(q));
            && Bits(q[1]) < 64 && Bits(q[2]) < 64
            && Quantum(TABLE, [w[0]]) == [q[0], TABLE[Bits(q[1]) / 16 * 16], '=', '=']
            && (q[2] != '=' ==> Quantum(TABLE, [w[0], w[1]]) == [q[0], q[1], TABLE[Bits(q[2]) / 4 * 4], '='])
            && (q[3] != '=' ==> Quantum(TABLE, w) == q)
  {
    CharBack(q[0]);
    CharBack(q[1]);
    if q[2] != '=' { CharBack(q[2]); }
    if q[3] != '=' { CharBack(q[3]); }
    assert Bits('=') == 0;
    UngroupWord(q);
    hide Word, WordBytes, Bits, Index;
    var w := WordBytes(Word(q));
    QuantumForms(w);
    hide Quantum;
    if q[3] != '=' { SameText(q[0], q[1], q[2], q[3], q); }
  }

  /** Encoding the bytes of one group gives the group back if and only if its unused bits are zero. */
  lemma GroupBack(q: string)
    requires |q| == 4 && AllInAlphabet(q) && q[0] != '=' && q[1] != '=' && (q[3] != '=' ==> q[2] != '=')
    ensures QuantumBytes(q).Ok? && |QuantumBytes(q).value| == 3 - Padding(q) && Padding(q) <= 2
    ensures Quantum(TABLE, QuantumBytes(q).value) == q <==>
              (if q[2] == '=' then Bits(q[1]) % 16 == 0 else if q[3] == '=' then Bits(q[2]) % 4 == 0 else true)
  {
    GroupValue(q);
    Reencoded(q);
    hide Padding, Index, WordBytes, Bits, Quantum, Word, InAlphabet, AllInAlphabet, QuantumBytes;
    CharBack(q[1]);
    if q[2] != '=' { CharBack(q[2]); }
    var b1, b2 := Bits(q[1]), Bits(q[2]);
    SameChar(b1 / 16 * 16, b1);
    SameChar(b2 / 4 * 4, b2);
    if q[2] == '=' {
      SameText(q[0], TABLE[b1 / 16 * 16], '=', '=', q);
    } else if q[3] == '=' {
      SameText(q[0], q[1], TABLE[b2 / 4 * 4], '=', q);
    }
  }

  /** The bytes of a group: as many of its three as are not padding. */
  lemma GroupValue(q: string)
    requires |q| == 4 && AllInAlphabet(q) && q[0] != '=' && q[1] != '=' && (q[3] != '=' ==> q[2] != '=')
    ensures var w := WordBytes(Word(q));
            && Padding(q) <= 2 && |w| == 3
            && QuantumBytes(q) == Ok(if q[2] == '=' then [w[0]] else if q[3] == '=' then [w[0], w[1]] else w)
            && Padding(q) == if q[2] == '=' then 2 else if q[3] == '=' then 1 else 0
  {
    PaddingOf(q);
    hide Padding, Index, WordBytes, Bits, Quantum, Word;
    var w := WordBytes(Word(q));
    assert w[..1] == [w[0]] && w[..2] == [w[0], w[1]] && w[..3] == w;
  }

  lemma SameText(a: char, b: char, c: char, d: char, q: string)
    requires |q| == 4
    ensures [a, b, c, d] == q <==> a == q[0] && b == q[1] && c == q[2] && d == q[3]
  {
  }

  /** A text that decodes, split after its first group. */
  lemma {:induction false} DecodedBack(t: string, k: nat)
    requires |t| > 0 && |t| % 4 == 0 && PaddedBy(t, k) && k <= 2 && DecodeQuantums(t).Ok?
    ensures DecodeQuantums(t).value != []
    ensures Encode(TABLE, DecodeQuantums(t).value) == t <==>
              (if k == 0 then true else if k == 1 then Bits(t[|t| - 2]) % 4 == 0 else Bits(t[|t| - 3]) % 16 == 0)
  {
    hide QuantumBytes, Bits, Quantum;
    var q, rest := t[..4], t[4..];
    assert t == q + rest;
    GroupIsValid(q);
    GroupBack(q);
    PaddingOf(q);
    var head := QuantumBytes(q).value;
    if rest == [] {
      assert q == t && DecodeQuantums(t).value == head + [] == head;
    } else {
      DecodedBack(rest, k);
      var tail := DecodeQuantums(rest).value;
      assert (head + tail)[..3] == head && (head + tail)[3..] == tail;
      SplitEqual(Quantum(TABLE, head), Encode(TABLE, tail), q, rest);
    }
  }

  lemma GroupIsValid(q: string)
    requires |q| == 4 && QuantumBytes(q).Ok?
    ensures AllInAlphabet(q) && Padding(q) <= 2
  {
  }

  lemma SplitEqual(a: string, b: string, c: string, d: string)
    requires |a| == |c|
    ensures a + b == c + d <==> a == c && b == d
  {
    if a + b == c + d {
      assert a == (a + b)[..|a|] && b == (a + b)[|a|..];
      assert c == (c + d)[..|c|] && d == (c + d)[|c|..];
    }
  }

  /** Encoding what was decoded gives the text back if and only if the text is canonical:
      the unused bits of its last character are zero. */
  lemma Reencode(t: string)
    requires Decode(t).Ok?
    ensures Encode(TABLE, Decode(t).value) == t <==> Canonical(t)
  {
    hide Encode, DecodeQuantums, Bits, PadStart, PadCount, PaddedBy;
    PadAfterStart(t);
    DecodedBack(t, PadCount(t));
  }

  lemma PadAfterStart(t: string)
    requires PadStart(t) + PadCount(t) == |t|
    ensures PaddedBy(t, PadCount(t))
  {
  }

  /** A text is Base64: groups of four characters of the alphabet, the last one or two of which may be padding. */
  ghost predicate IsBase64(t: string, k: nat) {
    && t != [] && |t| % 4 == 0 && k <= 2 && PaddedBy(t, k)
    && forall i :: 0 <= i < |t| - k ==> t[i] in TABLE
  }

  /** Exactly the Base64 texts decode, each to three bytes a group less one for every padding character. */
  lemma DecodesExactly(t: string)
    ensures Decode(t).Ok? <==> exists k :: IsBase64(t, k)
    ensures forall k :: IsBase64(t, k) ==> Decode(t).Ok? && |Decode(t).value| == |t| / 4 * 3 - k
  {
    hide DecodeQuantums, PadStart, PadCount, PaddedBy, Index, TABLE;
    forall k | IsBase64(t, k) ensures Decode(t).Ok? && |Decode(t).value| == |t| / 4 * 3 - k {
      PadStartIs(t, k);
      BaseIsAlphabet(t, k);
      DecodesAlphabet(t, k);
    }
    if Decode(t).Ok? {
      PadAfterStart(t);
      DecodesAlphabet(t, PadCount(t));
      BaseIsAlphabet(t, PadCount(t));
      assert IsBase64(t, PadCount(t));
    }
  }

  lemma BaseIsAlphabet(t: string, k: nat)
    requires PaddedBy(t, k)
    ensures AllInAlphabet(t) <==> forall i :: 0 <= i < |t| - k ==> t[i] in TABLE
  {
    forall c: char | c != '=' ensures InAlphabet(c) <==> c in TABLE {
      if InAlphabet(c) {
        assert TABLE[Index(c)] == c;
      } else {
        assert forall j :: 0 <= j < 64 ==> TABLE[j] != c;
      }
    }
  }

  lemma {:induction false} DecodesAlphabet(t: string, k: nat)
    requires |t| % 4 == 0 && PaddedBy(t, k) && k <= 2 && (t == [] ==> k == 0)
    ensures DecodeQuantums(t).Ok? <==> AllInAlphabet(t)
    ensures DecodeQuantums(t).Ok? ==> |DecodeQuantums(t).value| == |t| / 4 * 3 - k
  {
    if t != [] {
      hide QuantumBytes, Padding, InAlphabet;
      var q, rest := t[..4], t[4..];
      assert t == q + rest;
      PaddingOf(q);
      FewPadded(q);
      assert AllInAlphabet(t) <==> AllInAlphabet(q) && AllInAlphabet(rest);
      if rest != [] {
        DecodesAlphabet(rest, k);
      }
    }
  }

  lemma FewPadded(q: string)
    requires |q| == 4
    ensures Padding(q) <= 2 ==> (QuantumBytes(q).Ok? <==> AllInAlphabet(q))
    ensures QuantumBytes(q).Ok? ==> |QuantumBytes(q).value| == 3 - Padding(q)
  {
  }

  /** "QR==" decodes to the letter 'A', which is encoded as "QQ==". */
  lemma UnusedBits()
    ensures Decode("QR==") == Ok([65]) && Encode(TABLE, [65]) == "QQ=="
  {
    hide QuantumBytes, Quantum, PadStart, Padding;
    var t := "QR==";
    PadStartIs(t, 2);
    LetterA();
    assert t[..4] == t && t[4..] == [];
    assert DecodeQuantums([]) == Ok([]);
    assert [65] + [] == [65];
  }

  lemma LetterA()
    ensures QuantumBytes("QR==") == Ok([65]) && Quantum(TABLE, [65]) == "QQ=="
  {
    hide Word, WordBytes, Padding, QuantumBytes, Quantum;
    var t := "QR==";
    LetterBits();
    hide Index, Bits, TABLE;
    WordOfA(t);
    assert AllInAlphabet(t);
    GroupValue(t);
  }

  lemma LetterBits()
    ensures Bits('Q') == 16 && Bits('R') == 17 && Bits('=') == 0
    ensures InAlphabet('Q') && InAlphabet('R') && InAlphabet('=') && Quantum(TABLE, [65]) == "QQ=="
  {
    Tables();
    assert TABLE[16] == 'Q' && TABLE[17] == 'R';
    hide Index;
  }

  lemma WordOfA(q: string)
    requires |q| == 4 && Bits(q[0]) == 16 && Bits(q[1]) == 17 && Bits(q[2]) == 0 && Bits(q[3]) == 0
    ensures WordBytes(Word(q)) == [65, 16, 0]
  {
    hide Bits;
    assert Word(q) == 4263936;
  }

  // ---------- The code as it is written ----------

  /** `strlen`. */
  function StringLength(d: seq<u8>): nat
    requires 0 in d
  {
    if d[0] == 0 then 0 else 1 + StringLength(d[1..])
  }

  lemma {:induction false} StringLengthFits(d: seq<u8>)
    requires 0 in d
    ensures StringLength(d) < |d|
  {
    if d[0] != 0 { StringLengthFits(d[1..]); }
  }

  /** Encodes `insize` bytes; a size of 0 stands for a terminated string. */
  method Base64Encode(table: string, inputbuff: seq<u8>, insize0: nat) returns (base64data: array<char>, outlen: nat)
    requires IsTable(table)
    requires if insize0 == 0 then 0 in inputbuff else insize0 <= |inputbuff|
    ensures var n := if insize0 == 0 then StringLength(inputbuff) else insize0;
            && n <= |inputbuff| && fresh(base64data) && base64data.Length == n * 4 / 3 + 4
            && outlen == |Encode(table, inputbuff[..n])| < base64data.Length
            && base64data[..outlen] == Encode(table, inputbuff[..n]) && base64data[outlen] == '\0'
  {
    var insize := insize0;
    if insize == 0 {
      insize := StringLength(inputbuff);
      StringLengthFits(inputbuff);
    }
    BufferExact(insize);
    base64data := new char[insize * 4 / 3 + 4];
    outlen := EncodeInto(table, inputbuff[..insize], base64data);
  }

  /** The next group's characters go behind what is done. */
  lemma GroupMoves(table: string, done: string, rest: seq<u8>, k: nat)
    requires |table| == 64 && rest != [] && k == if |rest| < 3 then |rest| else 3
    ensures done + Encode(table, rest) == (done + Quantum(table, rest[..k])) + Encode(table, rest[k..])
  {
    hide Quantum;
    NextGroup(table, rest);
  }

  /** The encoding loop, three bytes a turn. */
  method EncodeInto(table: string, d: seq<u8>, base64data: array<char>) returns (output: nat)
    requires |table| == 64 && (|d| + 2) / 3 * 4 < base64data.Length
    modifies base64data
    ensures output == |Encode(table, d)| < base64data.Length
    ensures base64data[..output] == Encode(table, d) && base64data[output] == '\0'
  {
    hide Encode, Quantum;
    var indata: nat := 0;
    output := 0;
    assert d[0..] == d && base64data[..0] == [];
    while indata < |d|
      invariant indata <= |d| && output <= |Encode(table, d)|
      invariant base64data[..output] + Encode(table, d[indata..]) == Encode(table, d)
    {
      var inputparts := if |d| - indata < 3 then |d| - indata else 3;
      var chunk := d[indata..indata + inputparts];
      GroupMoves(table, base64data[..output], d[indata..], inputparts);
      assert chunk == d[indata..][..inputparts] && d[indata..][inputparts..] == d[indata + inputparts..];
      indata := indata + inputparts;
      ghost var done := base64data[..output];
      StoreQuantum(base64data, output, Quantum(table, chunk));
      output := output + 4;
      assert base64data[..output] == done + Quantum(table, chunk);
    }
    assert d[indata..] == [] && Encode(table, d[indata..]) == [];
    base64data[output] := '\0';
  }

  lemma NextGroup(table: string, d: seq<u8>)
    requires |table| == 64 && d != []
    ensures var k := if |d| < 3 then |d| else 3;
            Encode(table, d) == Quantum(table, d[..k]) + Encode(table, d[k..])
  {
    if |d| <= 3 { assert d[..|d|] == d; }
  }

  /** `snprintf` of four characters and a terminator. */
  method StoreQuantum(output: array<char>, at: nat, q: string)
    requires |q| == 4 && at + 5 <= output.Length
    modifies output
    ensures output[..at] == old(output[..at]) && output[at..at + 4] == q
  {
    output[at], output[at + 1], output[at + 2], output[at + 3], output[at + 4] := q[0], q[1], q[2], q[3], '\0';
  }

  /** Decodes one group into at most three bytes at `at`; 0 means that it is invalid. Nothing else is written. */
  method DecodeQuantum(dest: array<u8>, at: nat, q: string) returns (n: nat)
    requires |q| == 4 && Padding(q) <= 2 && at + 3 - Padding(q) <= dest.Length
    modifies dest
    ensures QuantumBytes(q) == BadContentEncoding ==> n == 0
    ensures QuantumBytes(q).Ok? ==>
              n == |QuantumBytes(q).value| == 3 - Padding(q) && dest[at..at + n] == QuantumBytes(q).value
    ensures forall i :: 0 <= i < dest.Length && !(at <= i < at + n) ==> dest[i] == old(dest[i])
  {
    var padding, x := 0, 0;
    for i := 0 to 4
      invariant AllInAlphabet(q[..i])
      invariant padding + Padding(q[i..]) == Padding(q) && x == PrefixWord(q, i)
    {
      assert q[i..][1..] == q[i + 1..];
      if q[i] == '=' {
        x := 64 * x;
        padding := padding + 1;
      } else {
        var v := Index(q[i]);
        if v == 64 {
          assert !InAlphabet(q[i]);
          return 0;
        }
        x := 64 * x + v;
      }
      assert q[..i + 1] == q[..i] + [q[i]];
    }
    assert q[..4] == q && q[4..] == [];
    WholeWord(q);
    ghost var before := dest[..];
    if padding < 1 {
      dest[at + 2] := x % 0x100;
    }
    if padding < 2 {
      dest[at + 1] := x / 0x100 % 0x100;
    }
    dest[at] := x / 0x1_0000 % 0x100;
    n := 3 - padding;
    hide Word, Padding;
    assert dest[at..at + n] == WordBytes(x)[..n];
  }

  lemma WholeWord(q: string)
    requires |q| == 4
    ensures PrefixWord(q, 4) == Word(q)
  {
    assert PrefixWord(q, 1) == Bits(q[0]);
    assert PrefixWord(q, 2) == 64 * PrefixWord(q, 1) + Bits(q[1]);
    assert PrefixWord(q, 3) == 64 * PrefixWord(q, 2) + Bits(q[2]);
  }

  function PrefixWord(q: string, i: nat): nat
    requires i <= |q|
  {
    if i == 0 then 0 else 64 * PrefixWord(q, i - 1) + Bits(q[i - 1])
  }

  /** Decodes a string. On success exactly the decoded bytes and a terminator are in the new buffer. */
  method Base64Decode(src: string) returns (ok: bool, outptr: array?<u8>, outlen: nat)
    ensures ok <==> Decode(src).Ok?
    ensures ok <==> exists k :: IsBase64(src, k)
    ensures ok ==>
              && outptr != null && fresh(outptr) && outptr.Length == outlen + 1
              && outptr[..outlen] == Decode(src).value && outptr[outlen] == 0
    ensures !ok ==> outptr == null && outlen == 0
  {
    DecodesExactly(src);
    hide QuantumBytes, Encode, DecodeQuantums, Padding, PaddedBy, Prefixed, IsBase64;
    ok, outptr, outlen := false, null, 0;
    var srclen := |src|;
    if srclen == 0 || srclen % 4 != 0 {
      return;
    }
    var length, padding := PadStart(src), 0;
    if length < srclen {
      padding := 1;
      if length + 1 < srclen && src[length + 1] == '=' {
        padding := 2;
      }
    }
    if length + padding != srclen {
      return;
    }
    PadAfterStart(src);
    var numQuantums := srclen / 4;
    var rawlen := numQuantums * 3 - padding;
    var newstr := new u8[rawlen + 1];
    var done := DecodeInto(newstr, src, padding);
    if done {
      newstr[rawlen] := 0;
      ok, outptr, outlen := true, newstr, rawlen;
    }
  }

  /** The loop over the groups of four characters: fills the block up to its last place. */
  method DecodeInto(newstr: array<u8>, src: string, padding: nat) returns (ok: bool)
    requires |src| % 4 == 0 && |src| > 0 && PaddedBy(src, padding) && padding <= 2
    requires newstr.Length == |src| / 4 * 3 - padding + 1
    modifies newstr
    ensures ok <==> DecodeQuantums(src).Ok?
    ensures ok ==> newstr[..newstr.Length - 1] == DecodeQuantums(src).value
  {
    hide QuantumBytes, Encode, DecodeQuantums, Padding, PaddedBy, Prefixed, IsBase64;
    var numQuantums, pos := |src| / 4, 0;
    PrefixedNothing(DecodeQuantums(src));
    assert src[4 * 0..] == src && newstr[..pos] == [];
    for i := 0 to numQuantums
      invariant pos == (if i < numQuantums then 3 * i else newstr.Length - 1) < newstr.Length
      invariant Prefixed(newstr[..pos], DecodeQuantums(src[4 * i..])) == DecodeQuantums(src)
    {
      ghost var rest, done := src[4 * i..], newstr[..pos];
      var q := src[4 * i..4 * i + 4];
      assert q == rest[..4] && rest[4..] == src[4 * (i + 1)..];
      GroupPadding(src, padding, i);
      PrefixedStep(done, rest);
      var result := DecodeQuantum(newstr, pos, q);
      if result == 0 {
        GroupFails(q);
        return false;
      }
      assert newstr[..pos + result] == done + newstr[pos..pos + result];
      pos := pos + result;
    }
    assert src[4 * numQuantums..] == [];
    PrefixedStep(newstr[..pos], []);
    return true;
  }

  /** A result with `head` put in front. */
  ghost function Prefixed(head: seq<u8>, r: Result<seq<u8>>): Result<seq<u8>> {
    match r
    case Ok(tail) => Ok(head + tail)
    case BadContentEncoding => BadContentEncoding
  }

  lemma PrefixedStep(head: seq<u8>, t: string)
    requires |t| % 4 == 0
    ensures t == [] ==> Prefixed(head, DecodeQuantums(t)) == Ok(head)
    ensures t != [] ==>
              Prefixed(head, DecodeQuantums(t)) == match QuantumBytes(t[..4])
                                                   case Ok(b) => Prefixed(head + b, DecodeQuantums(t[4..]))
                                                   case BadContentEncoding => BadContentEncoding
  {
    hide QuantumBytes;
    if t == [] { assert head + [] == head; }
    if t != [] && QuantumBytes(t[..4]).Ok? && DecodeQuantums(t[4..]).Ok? {
      var b, c := QuantumBytes(t[..4]).value, DecodeQuantums(t[4..]).value;
      assert head + (b + c) == head + b + c;
    }
  }

  lemma PrefixedNothing(r: Result<seq<u8>>)
    ensures Prefixed([], r) == r
  {
    if r.Ok? { assert [] + r.value == r.value; }
  }

  lemma GroupFails(q: string)
    requires |q| == 4 && Padding(q) <= 2
    ensures QuantumBytes(q).Ok? ==> |QuantumBytes(q).value| > 0
  {
  }

  /** Only the last group has padding. */
  lemma GroupPadding(t: string, k: nat, i: nat)
    requires |t| % 4 == 0 && i < |t| / 4 && PaddedBy(t, k) && k <= 2
    ensures Padding(t[4 * i..4 * i + 4]) == if i == |t| / 4 - 1 then k else 0
  {
    PaddingOf(t[4 * i..4 * i + 4]);
  }
}
