/** Internet addresses as text: the hand-written printers and parsers for IPv4 and IPv6.
    An IPv6 address is given as its eight groups, an IPv4 address as its four bytes. */
module InetText {

  type u8 = x: int | 0 <= x < 0x100
  type u16 = x: int | 0 <= x < 0x1_0000

  type Address4 = b: seq<u8> | |b| == 4 witness [0, 0, 0, 0]
  type Address6 = g: seq<u16> | |g| == 8 witness [0, 0, 0, 0, 0, 0, 0, 0]

  /** `Outside` stands for a text that makes the parser's write position leave the address. */
  datatype Parsed<+T> = Ok(address: T) | Invalid | Outside

  // ---------- Digits ----------

  const DIGITS := "0123456789abcdef"

  function Digit(d: nat): (c: char)
    requires d < 16
    ensures '0' <= c <= '9' || 'a' <= c <= 'f'
  {
    DIGITS[d]
  }

  predicate IsHex(c: char) {
    '0' <= c <= '9' || 'a' <= c <= 'f' || 'A' <= c <= 'F'
  }

  function HexValue(c: char): (d: nat)
    requires IsHex(c)
    ensures d < 16
  {
    if c <= '9' then (c - '0') as nat
    else if c <= 'F' then (c - 'A') as nat + 10
    else (c - 'a') as nat + 10
  }

  predicate IsDecimal(c: char) {
    '0' <= c <= '9'
  }

  /** What "%x" prints. */
  function Hex(v: nat): (t: string)
    ensures t != []
  {
    if v < 16 then [Digit(v)] else Hex(v / 16) + [Digit(v % 16)]
  }

  function HexNumber(t: string): nat
    requires forall c :: c in t ==> IsHex(c)
  {
    if t == [] then 0 else 16 * HexNumber(t[..|t| - 1]) + HexValue(t[|t| - 1])
  }

  /** How many hexadecimal digits `t` starts with. */
  function HexRun(t: string): (n: nat)
    ensures n <= |t| && forall i :: 0 <= i < n ==> IsHex(t[i])
    ensures n < |t| ==> !IsHex(t[n])
  {
    if t == [] || !IsHex(t[0]) then 0 else 1 + HexRun(t[1..])
  }

  lemma {:induction false} HexRoundTrip(v: nat)
    ensures forall c :: c in Hex(v) ==> IsHex(c) && c != 'x' && c != '.' && c != ':'
    ensures HexNumber(Hex(v)) == v
    ensures v > 0 ==> Hex(v)[0] != '0'
  {
    hide Digit, HexValue, IsHex;
    DigitBack(v % 16);
    if v >= 16 {
      HexRoundTrip(v / 16);
      assert Hex(v)[..|Hex(v)| - 1] == Hex(v / 16);
    } else {
      assert Hex(v)[..0] == [];
    }
  }

  /** Capital digits have the values of the small ones. */
  lemma CapitalDigits(d: nat)
    requires d < 6
    ensures HexValue('A' + d as char) == HexValue('a' + d as char) == 10 + d
  {
  }

  lemma DigitBack(d: nat)
    requires d < 16
    ensures IsHex(Digit(d)) && HexValue(Digit(d)) == d && (d > 0 ==> Digit(d) != '0')
    ensures Digit(d) != 'x' && Digit(d) != '.' && Digit(d) != ':'
  {
  }

  lemma HexLength(v: u16)
    ensures |Hex(v)| <= 4
  {
    assert v / 16 / 16 / 16 < 16;
    assert |Hex(v / 16 / 16 / 16)| == 1;
    assert |Hex(v / 16 / 16)| <= 2;
    assert |Hex(v / 16)| <= 3;
  }

  // ---------- IPv4 ----------

  /** One byte in decimal, without leading zeros. */
  function Dec(n: u8): string {
    (if n / 100 > 0 then [Digit(n / 100)] else [])
    + (if n / 100 > 0 || n / 10 > 0 then [Digit(n / 10 % 10)] else [])
    + [Digit(n % 10)]
  }

  /** Bytes are printed without leading zeros. */
  lemma DecIsShort(n: u8)
    ensures |Dec(n)| == if n < 10 then 1 else if n < 100 then 2 else 3
    ensures n >= 10 ==> Dec(n)[0] != '0'
  {
  }

  function Ntop4(b: Address4): string {
    Dec(b[0]) + "." + Dec(b[1]) + "." + Dec(b[2]) + "." + Dec(b[3])
  }

  /** The parser's state: the bytes begun so far, the last of them being read; how many had a digit;
      whether the last one had. */
  datatype State4 = State4(tmp: seq<u8>, octets: nat, sawDigit: bool)

  function Step4(s: State4, c: char): Parsed<State4>
    requires s.tmp != []
  {
    if IsDecimal(c) then
      var newNum := s.tmp[|s.tmp| - 1] * 10 + HexValue(c);
      if newNum > 255 then Invalid
      else
        var tmp := s.tmp[|s.tmp| - 1 := newNum];
        if s.sawDigit then Ok(State4(tmp, s.octets, true))
        else if s.octets + 1 > 4 then Invalid
        else Ok(State4(tmp, s.octets + 1, true))
    else if c == '.' && s.sawDigit then
      if s.octets == 4 then Invalid else Ok(State4(s.tmp + [0], s.octets, false))
    else Invalid
  }

  predicate Valid4(s: State4) {
    && s.tmp != [] && s.octets <= 4 && (s.octets == 4 ==> s.sawDigit)
    && |s.tmp| == (if s.sawDigit then s.octets else s.octets + 1)
  }

  function Run4(s: State4, t: string): Parsed<Address4>
    requires Valid4(s)
    decreases t
  {
    if t == [] then
      if s.octets < 4 then Invalid else Ok(s.tmp)
    else
      match Step4(s, t[0])
      case Ok(next) => Run4(next, t[1..])
      case _ => Invalid
  }

  const Start4 := State4([0], 0, false)

  function Pton4(t: string): Parsed<Address4> {
    Run4(Start4, t)
  }

  lemma Run4Step(s: State4, c: char, t: string)
    requires Valid4(s) && Step4(s, c).Ok?
    ensures Valid4(Step4(s, c).address) && Run4(s, [c] + t) == Run4(Step4(s, c).address, t)
  {
    assert ([c] + t)[1..] == t;
  }

  /** Reading one decimal digit into the last byte. */
  lemma ReadDigit(tmp: seq<u8>, octets: nat, saw: bool, last: u8, d: nat, t: string)
    requires |tmp| == octets + 1 <= 4 && tmp[octets] == last && (!saw ==> last == 0) && d < 10
    requires 10 * last + d <= 255
    ensures Run4(State4(tmp, if saw then octets + 1 else octets, saw), [Digit(d)] + t)
            == Run4(State4(tmp[octets := 10 * last + d], octets + 1, true), t)
  {
    Run4Step(State4(tmp, if saw then octets + 1 else octets, saw), Digit(d), t);
  }

  /** Reading the decimal digits of one byte. */
  lemma ReadByte(tmp: seq<u8>, octets: nat, n: u8, t: string)
    requires |tmp| == octets + 1 <= 4 && tmp[octets] == 0
    ensures Run4(State4(tmp, octets, false), Dec(n) + t) == Run4(State4(tmp[octets := n], octets + 1, true), t)
  {
    hide Run4, Digit;
    var lead, c := n / 10, n % 10;
    if lead == 0 {
      ReadDigit(tmp, octets, false, 0, c, t);
      assert Dec(n) + t == [Digit(c)] + t;
    } else {
      ReadLead(tmp, octets, n, [Digit(c)] + t);
      var digits := Dec(n)[..|Dec(n)| - 1];
      assert Dec(n) + t == digits + ([Digit(c)] + t);
      hide Dec;
      ReadDigit(tmp[octets := lead], octets, true, lead, c, t);
      assert tmp[octets := lead][octets := n] == tmp[octets := n];
    }
  }

  /** Reading the digits in front of the last one. */
  lemma ReadLead(tmp: seq<u8>, octets: nat, n: u8, t: string)
    requires |tmp| == octets + 1 <= 4 && tmp[octets] == 0 && n >= 10
    ensures var digits := Dec(n)[..|Dec(n)| - 1];
            && Dec(n) == digits + [Digit(n % 10)]
            && Run4(State4(tmp, octets, false), digits + t) == Run4(State4(tmp[octets := n / 10], octets + 1, true), t)
  {
    hide Run4, Digit;
    var lead := n / 10;
    var a, b := lead / 10, lead % 10;
    assert Dec(n)[..|Dec(n)| - 1] == if a == 0 then [Digit(b)] else [Digit(a), Digit(b)];
    if a == 0 {
      ReadDigit(tmp, octets, false, 0, b, t);
    } else {
      ReadDigit(tmp, octets, false, 0, a, [Digit(b)] + t);
      ReadDigit(tmp[octets := a], octets, true, a, b, t);
      assert [Digit(a), Digit(b)] + t == [Digit(a)] + ([Digit(b)] + t);
      assert tmp[octets := a][octets := lead] == tmp[octets := lead];
    }
  }

  lemma ReadDot(tmp: seq<u8>, octets: nat, t: string)
    requires |tmp| == octets < 4 && octets > 0
    ensures Run4(State4(tmp, octets, true), "." + t) == Run4(State4(tmp + [0], octets, false), t)
  {
    Run4Step(State4(tmp, octets, true), '.', t);
  }

  /** What is printed is read back. */
  lemma RoundTrip4(b: Address4)
    ensures Pton4(Ntop4(b)) == Ok(b)
  {
    hide Run4, Dec;
    var t3 := Dec(b[3]);
    var t2 := Dec(b[2]) + ("." + t3);
    var t1 := Dec(b[1]) + ("." + t2);
    assert Ntop4(b) == Dec(b[0]) + ("." + t1);
    assert b[..1] == [0][0 := b[0]] && b[..1] + [0] == [b[0], 0];
    assert b[..2] == [b[0], 0][1 := b[1]] && b[..2] + [0] == [b[0], b[1], 0];
    assert b[..3] == [b[0], b[1], 0][2 := b[2]] && b[..3] + [0] == [b[0], b[1], b[2], 0];
    assert b == [b[0], b[1], b[2], 0][3 := b[3]] && t3 + [] == t3;
    ReadByte([0], 0, b[0], "." + t1);
    ReadDot(b[..1], 1, t1);
    ReadByte([b[0], 0], 1, b[1], "." + t2);
    ReadDot(b[..2], 2, t2);
    ReadByte([b[0], b[1], 0], 2, b[2], "." + t3);
    ReadDot(b[..3], 3, t3);
    ReadByte([b[0], b[1], b[2], 0], 3, b[3], []);
    Read4All(b);
  }

  lemma Read4All(b: Address4)
    ensures Run4(State4(b, 4, true), []) == Ok(b)
  {
  }

  // ---------- IPv6: the parser ----------

  function At(t: string, i: nat): char {
    if i < |t| then t[i] else '\0'
  }

  predicate IsSpace(c: char) {
    c == ' ' || '\t' <= c <= '\r'
  }

  function SpaceRun(t: string): (n: nat)
    ensures n <= |t|
  {
    if t == [] || !IsSpace(t[0]) then 0 else 1 + SpaceRun(t[1..])
  }

  datatype Scan = NoMatch | Match(word: u16, used: nat)

  /** Digits from position `start` on, at least one. */
  function ScanAt(t: string, start: nat, negative: bool): (r: Scan)
    requires start <= |t|
    ensures r.Match? ==> start < r.used <= |t|
  {
    var n := HexRun(t[start..]);
    if n == 0 then NoMatch
    else
      var v: int := HexNumber(t[start..start + n]);
      Match((if negative then -v else v) % 0x1_0000, start + n)
  }

  /** `sscanf(t, "%hx%n", ...)`: white space, a sign, a prefix, then at least one hexadecimal digit. */
  function ScanWord(t: string): (r: Scan)
    ensures r.Match? ==> 1 <= r.used <= |t|
  {
    var space := SpaceRun(t);
    var sign := if At(t, space) == '+' || At(t, space) == '-' then 1 else 0;
    var start := space + sign;
    var prefix := if At(t, start) == '0' && (At(t, start + 1) == 'x' || At(t, start + 1) == 'X') then 2 else 0;
    ScanAt(t, start + prefix, At(t, space) == '-')
  }

  function ColonCount(t: string): nat {
    if t == [] then 0 else (if t[0] == ':' then 1 else 0) + ColonCount(t[1..])
  }

  /** The main loop of the parser on the rest `t` of the text, about to write group `k`. */
  function Loop(t: string, k: int, g: Address6, seen: bool): Parsed<Address6>
    requires k <= 8
    decreases |t|
  {
    if t == [] || k == 8 then
      if t == [] && k == 8 then Ok(g) else Invalid
    else if t[0] == ':' then
      if At(t, 1) == ':' then
        if seen then Invalid
        else if |t| == 2 then Loop([], 8, g, false)
        else Loop(t[2..], 8 - (ColonCount(t[2..]) + 1), g, true)
      else Loop(t[1..], k, g, seen)
    else
      match ScanWord(t)
      case NoMatch => Invalid
      case Match(word, used) =>
        if k < 0 then Outside
        else if At(t, used) != ':' && At(t, used) != '\0' then Invalid
        else Loop(t[used..], k + 1, g[k := word], seen)
  }

  const ZERO6: Address6 := [0, 0, 0, 0, 0, 0, 0, 0]

  /** The first position of `c`. */
  function Find(t: string, c: char): (r: nat)
    ensures r <= |t| && (r < |t| ==> t[r] == c) && forall i :: 0 <= i < r ==> t[i] != c
  {
    if t == [] || t[0] == c then 0 else 1 + Find(t[1..], c)
  }

  function Group(hi: int, lo: int): u16
    requires 0 <= hi < 256 && 0 <= lo < 256
  {
    hi * 256 + lo
  }

  /** An address whose last four bytes are `b`. */
  function WithV4(fifth: u16, b: Address4): Address6 {
    [0, 0, 0, 0, 0, fifth, Group(b[0], b[1]), Group(b[2], b[3])]
  }

  /** The form with a dotted tail: `t` is what follows the leading "::". */
  function DottedTail(t: string): Parsed<Address6> {
    var colon := Find(t, ':');
    if colon < |t| then
      if ScanWord(t) != Match(0xFFFF, 4) then Invalid
      else
        match Pton4(t[colon + 1..])
        case Ok(b) => Ok(WithV4(0xFFFF, b))
        case _ => Invalid
    else
      match Pton4(t)
      case Ok(b) => Ok(WithV4(0, b))
      case _ => Invalid
  }

  function Pton6(t: string): Parsed<Address6> {
    if 'x' in t then Invalid
    else if At(t, 0) == ':' && At(t, 1) == ':' && |t| > 2 && '.' in t[2..] then DottedTail(t[2..])
    else Loop(t, 0, ZERO6, false)
  }

  // ---------- IPv6: the printer ----------

  /** The state after scanning the first `i` groups for zero runs, as the printer keeps it:
      position in its run for every zero group, -1 for the others; the next position in the current run;
      the longest run seen of length over 1 and where it ends. */
  datatype Runs = Runs(runpos: seq<int>, current: nat, max: nat, maxpos: int)

  function ScanRuns(g: Address6, i: nat): (r: Runs)
    requires i <= 8
    ensures |r.runpos| == i
  {
    if i == 0 then Runs([], 1, 1, -1)
    else
      var r := ScanRuns(g, i - 1);
      if g[i - 1] == 0 then
        var longer := r.current > r.max;
        Runs(r.runpos + [r.current], r.current + 1, if longer then r.current else r.max,
             if longer then i - 1 else r.maxpos)
      else Runs(r.runpos + [-1], 1, r.max, r.maxpos)
  }

  /** With a run of at least two, every other mark is erased. */
  function Marks(g: Address6): (m: seq<int>)
    ensures |m| == 8
  {
    var r := ScanRuns(g, 8);
    if r.max > 1 then seq(8, (i: nat) requires i < 8 => if r.maxpos - r.max < i <= r.maxpos then r.runpos[i] else -1)
    else r.runpos
  }

  /** The text from group `i` on. */
  function PrintFrom(g: Address6, m: seq<int>, max: nat, i: nat): string
    requires |m| == 8 && max > 0
    decreases 8 - i
  {
    if i >= 8 then []
    else if m[i] == -1 then
      Hex(g[i]) + (if i != 7 && m[i + 1] != 1 then ":" else []) + PrintFrom(g, m, max, i + 1)
    else if m[i] == 1 then "::" + PrintFrom(g, m, max, i + max)
    else PrintFrom(g, m, max, i + 1)
  }

  function TailOf(g: Address6): Address4 {
    [g[6] / 256, g[6] % 256, g[7] / 256, g[7] % 256]
  }

  predicate IsDotted(g: Address6) {
    var r := ScanRuns(g, 8);
    Marks(g)[0] == 1 && (r.maxpos == 5 || (r.maxpos == 4 && g[5] == 0xFFFF))
  }

  function Ntop6(g: Address6): string {
    var r := ScanRuns(g, 8);
    RunsPositive(g, 8);
    if IsDotted(g) then "::" + (if r.maxpos == 4 then "ffff:" else []) + Ntop4(TailOf(g))
    else PrintFrom(g, Marks(g), r.max, 0)
  }

  lemma {:induction false} RunsPositive(g: Address6, i: nat)
    requires i <= 8
    ensures ScanRuns(g, i).max > 0 && ScanRuns(g, i).current > 0
  {
    if i > 0 { RunsPositive(g, i - 1); }
  }

  // ---------- IPv6: what the scan for runs finds ----------

  /** Groups `a` up to `b` are zero. */
  ghost predicate ZeroRun(g: Address6, a: int, b: int) {
    0 <= a < b <= 8 && forall i :: a <= i < b ==> g[i] == 0
  }

  ghost predicate HasRun(g: Address6) {
    exists i :: 0 <= i < 7 && AdjacentZeros(g, i)
  }

  predicate AdjacentZeros(g: Address6, i: nat)
    requires i < 7
  {
    g[i] == 0 && g[i + 1] == 0
  }

  /** What the mark of group `j` says. */
  ghost predicate MarkOf(g: Address6, runpos: seq<int>, max: nat, j: int)
    requires 0 <= j < |runpos| <= 8
  {
    if g[j] == 0 then
      && 1 <= runpos[j] <= max
      && runpos[j] == if j > 0 && g[j - 1] == 0 then runpos[j - 1] + 1 else 1
    else runpos[j] == -1
  }

  lemma {:induction false} RunsMeaning(g: Address6, i: nat)
    requires i <= 8
    ensures var r := ScanRuns(g, i);
            && r.max >= 1 && r.current >= 1
            && (r.max == 1 <==> r.maxpos == -1)
            && (r.max > 1 ==> 0 <= r.maxpos < i && r.runpos[r.maxpos] == r.max)
            && (r.current == if i > 0 && g[i - 1] == 0 then r.runpos[i - 1] + 1 else 1)
            && forall j :: 0 <= j < i ==> MarkOf(g, r.runpos, r.max, j)
  {
    if i > 0 {
      RunsMeaning(g, i - 1);
      var r, s := ScanRuns(g, i), ScanRuns(g, i - 1);
      forall j | 0 <= j < i ensures MarkOf(g, r.runpos, r.max, j) {
        if j < i - 1 { assert MarkOf(g, s.runpos, s.max, j); }
      }
    }
  }

  /** The groups before position `j` of a run, counted by its mark, are the run. */
  lemma {:induction false} RunBefore(g: Address6, j: nat, n: nat)
    requires j < 8 && g[j] == 0 && n < ScanRuns(g, 8).runpos[j]
    ensures j - n >= 0 && g[j - n] == 0 && ScanRuns(g, 8).runpos[j - n] == ScanRuns(g, 8).runpos[j] - n
  {
    if n > 0 {
      RunBefore(g, j, n - 1);
      RunsMeaning(g, 8);
      assert MarkOf(g, ScanRuns(g, 8).runpos, ScanRuns(g, 8).max, j - n + 1);
    }
  }

  /** The marks of an address with a run of at least two: one run, counted from 1, and nothing else. */
  lemma LongRun(g: Address6)
    requires ScanRuns(g, 8).max > 1
    ensures var r := ScanRuns(g, 8);
            var start := r.maxpos - r.max + 1;
            && ZeroRun(g, start, start + r.max)
            && forall i :: 0 <= i < 8 ==>
                 Marks(g)[i] == if start <= i < start + r.max then i - start + 1 else -1
  {
    var r := ScanRuns(g, 8);
    RunsMeaning(g, 8);
    assert MarkOf(g, r.runpos, r.max, r.maxpos);
    hide ScanRuns, MarkOf;
    forall i | r.maxpos - r.max < i <= r.maxpos
      ensures 0 <= i && g[i] == 0 && r.runpos[i] == r.max - (r.maxpos - i)
    {
      RunBefore(g, r.maxpos, r.maxpos - i);
    }
    RunBefore(g, r.maxpos, r.max - 1);
  }

  /** Without adjacent zero groups every zero group is marked 1. */
  lemma ShortRuns(g: Address6)
    requires ScanRuns(g, 8).max == 1
    ensures !HasRun(g) && forall i :: 0 <= i < 8 ==> Marks(g)[i] == if g[i] == 0 then 1 else -1
  {
    var r := ScanRuns(g, 8);
    RunsMeaning(g, 8);
    hide ScanRuns;
    forall i: nat | i < 7 ensures !AdjacentZeros(g, i) {
      assert MarkOf(g, r.runpos, r.max, i) && MarkOf(g, r.runpos, r.max, i + 1);
    }
    forall i | 0 <= i < 8 ensures Marks(g)[i] == if g[i] == 0 then 1 else -1 {
      assert MarkOf(g, r.runpos, r.max, i);
    }
  }

  // ---------- IPv6: the shape of the text ----------

  /** Groups `lo` up to `hi` in hexadecimal, separated by colons. */
  function Hexes(g: Address6, lo: nat, hi: nat): string
    requires lo <= hi <= 8
    decreases hi - lo
  {
    if lo == hi then []
    else if lo + 1 == hi then Hex(g[lo])
    else Hex(g[lo]) + ":" + Hexes(g, lo + 1, hi)
  }

  /** Unmarked groups up to the end or the next mark print as a colon-separated list. */
  lemma {:induction false} PrintPlain(g: Address6, m: seq<int>, max: nat, lo: nat, hi: nat)
    requires |m| == 8 && max > 0 && lo <= hi <= 8
    requires forall i :: lo <= i < hi ==> m[i] == -1
    requires hi < 8 ==> m[hi] == 1
    ensures PrintFrom(g, m, max, lo) == Hexes(g, lo, hi) + PrintFrom(g, m, max, hi)
    decreases hi - lo
  {
    if lo < hi {
      PrintPlain(g, m, max, lo + 1, hi);
    }
  }

  /** With one marked run the text is the groups before it, "::", and the groups after it. */
  lemma PrintOneRun(g: Address6, m: seq<int>, start: nat, len: nat)
    requires |m| == 8 && len > 0 && start + len <= 8
    requires forall i :: 0 <= i < 8 ==> m[i] == if start <= i < start + len then i - start + 1 else -1
    ensures PrintFrom(g, m, len, 0) == Hexes(g, 0, start) + "::" + Hexes(g, start + len, 8)
  {
    PrintPlain(g, m, len, 0, start);
    PrintPlain(g, m, len, start + len, 8);
    assert PrintFrom(g, m, len, 8) == [];
    assert Hexes(g, start + len, 8) + [] == Hexes(g, start + len, 8);
  }

  lemma PrintNoRun(g: Address6, m: seq<int>, max: nat)
    requires |m| == 8 && max > 0 && forall i :: 0 <= i < 8 ==> m[i] == -1
    ensures PrintFrom(g, m, max, 0) == Hexes(g, 0, 8)
  {
    PrintPlain(g, m, max, 0, 8);
    assert Hexes(g, 0, 8) + [] == Hexes(g, 0, 8);
  }

  predicate PlainChar(c: char) {
    IsHex(c) || c == ':'
  }

  predicate Plain(t: string) {
    forall i :: 0 <= i < |t| ==> PlainChar(t[i])
  }

  lemma {:induction false} PrintIsPlain(g: Address6, m: seq<int>, max: nat, i: nat)
    requires |m| == 8 && max > 0
    ensures Plain(PrintFrom(g, m, max, i))
    ensures i <= 8 ==> |PrintFrom(g, m, max, i)| <= 5 * (8 - i)
    decreases 8 - i
  {
    if i < 8 {
      HexRoundTrip(g[i]);
      HexLength(g[i]);
      if m[i] == -1 {
        PrintIsPlain(g, m, max, i + 1);
      } else if m[i] == 1 {
        PrintIsPlain(g, m, max, i + max);
        if i + max > 8 { assert PrintFrom(g, m, max, i + max) == []; }
      } else {
        PrintIsPlain(g, m, max, i + 1);
      }
    }
  }

  // ---------- IPv6: reading the text back ----------

  lemma {:induction false} HexRunOf(t: string, rest: string)
    requires forall c :: c in t ==> IsHex(c)
    requires rest == [] || !IsHex(rest[0])
    ensures HexRun(t + rest) == |t|
  {
    if t == [] {
      assert t + rest == rest;
    } else {
      assert t[0] in t;
      assert (t + rest)[1..] == t[1..] + rest;
      HexRunOf(t[1..], rest);
    }
  }

  lemma ScanDigits(h: string, rest: string)
    requires h != [] && forall c :: c in h ==> IsHex(c) && c != 'x'
    requires |h| > 1 ==> h[0] != '0'
    requires HexNumber(h) < 0x1_0000 && (rest == [] || rest[0] == ':')
    ensures ScanWord(h + rest) == Match(HexNumber(h), |h|)
  {
    hide HexNumber, HexRun, ScanWord;
    var t := h + rest;
    assert t[0] == h[0] && h[0] in h;
    assert t[0] == '0' ==> At(t, 1) == At(rest, 0);
    ScanStarts(t);
    HexRunOf(h, rest);
    assert t[0..] == t && t[0..0 + |h|] == h;
  }

  /** A text that starts with a digit, and not with "0x", is scanned as plain digits. */
  lemma ScanStarts(t: string)
    requires t != [] && IsHex(t[0])
    requires t[0] == '0' ==> At(t, 1) != 'x' && At(t, 1) != 'X'
    ensures ScanWord(t) == ScanAt(t, 0, false)
  {
    hide ScanAt;
    assert SpaceRun(t) == 0;
  }

  /** Scanning a printed group gives the group and uses exactly its digits. */
  lemma ScanHex(v: u16, rest: string)
    requires rest == [] || rest[0] == ':'
    ensures ScanWord(Hex(v) + rest) == Match(v, |Hex(v)|)
  {
    HexRoundTrip(v);
    ScanDigits(Hex(v), rest);
  }

  lemma ReadWord(v: u16, rest: string, k: nat, g: Address6, seen: bool)
    requires k < 8 && (rest == [] || rest[0] == ':')
    ensures Loop(Hex(v) + rest, k, g, seen) == Loop(rest, k + 1, g[k := v], seen)
  {
    ScanHex(v, rest);
    HexRoundTrip(v);
    assert Hex(v)[0] in Hex(v);
    assert (Hex(v) + rest)[|Hex(v)|..] == rest;
  }

  lemma ReadColon(rest: string, k: int, g: Address6, seen: bool)
    requires k < 8 && At(rest, 0) != ':'
    ensures Loop(":" + rest, k, g, seen) == Loop(rest, k, g, seen)
  {
    assert (":" + rest)[1..] == rest;
    if rest != [] { assert (":" + rest)[1] == rest[0]; }
  }

  /** `g` with groups `lo` up to `hi` taken from `a`. */
  function Filled(g: Address6, a: Address6, lo: nat, hi: nat): Address6
    requires lo <= hi <= 8
  {
    g[..lo] + a[lo..hi] + g[hi..]
  }

  lemma {:induction false} ReadHexes(a: Address6, lo: nat, hi: nat, rest: string, g: Address6, seen: bool)
    requires lo < hi <= 8 && (rest == [] || rest[0] == ':')
    ensures Loop(Hexes(a, lo, hi) + rest, lo, g, seen) == Loop(rest, hi, Filled(g, a, lo, hi), seen)
    decreases hi - lo
  {
    hide Loop;
    if lo + 1 == hi {
      ReadWord(a[lo], rest, lo, g, seen);
      FilledStep(g, a, lo, hi);
    } else {
      var tail := Hexes(a, lo + 1, hi) + rest;
      HexesSplit(a, lo, hi, rest);
      ReadWord(a[lo], ":" + tail, lo, g, seen);
      HexesStart(a, lo + 1, hi);
      ReadColon(tail, lo + 1, g[lo := a[lo]], seen);
      ReadHexes(a, lo + 1, hi, rest, g[lo := a[lo]], seen);
      FilledStep(g, a, lo, hi);
    }
  }

  lemma HexesSplit(a: Address6, lo: nat, hi: nat, rest: string)
    requires lo + 1 < hi <= 8
    ensures Hexes(a, lo, hi) + rest == Hex(a[lo]) + (":" + (Hexes(a, lo + 1, hi) + rest))
  {
  }

  lemma FilledStep(g: Address6, a: Address6, lo: nat, hi: nat)
    requires lo < hi <= 8
    ensures Filled(g[lo := a[lo]], a, lo + 1, hi) == Filled(g, a, lo, hi)
    ensures lo + 1 == hi ==> g[lo := a[lo]] == Filled(g, a, lo, hi)
  {
  }

  lemma HexesStart(a: Address6, lo: nat, hi: nat)
    requires lo < hi <= 8
    ensures Hexes(a, lo, hi) != [] && Hexes(a, lo, hi)[0] != ':'
  {
    HexRoundTrip(a[lo]);
    assert Hex(a[lo])[0] in Hex(a[lo]);
    assert Hexes(a, lo, hi)[0] == Hex(a[lo])[0];
  }

  lemma {:induction false} ColonsOf(t: string, rest: string)
    ensures ColonCount(t + rest) == ColonCount(t) + ColonCount(rest)
  {
    if t == [] {
      assert t + rest == rest;
    } else {
      assert (t + rest)[1..] == t[1..] + rest;
      ColonsOf(t[1..], rest);
    }
  }

  lemma {:induction false} NoColons(t: string)
    requires forall c :: c in t ==> c != ':'
    ensures ColonCount(t) == 0
  {
    if t != [] {
      assert t[0] in t && forall c :: c in t[1..] ==> c in t;
      NoColons(t[1..]);
    }
  }

  lemma {:induction false} HexesColons(a: Address6, lo: nat, hi: nat)
    requires lo < hi <= 8
    ensures ColonCount(Hexes(a, lo, hi)) == hi - lo - 1
    decreases hi - lo
  {
    HexRoundTrip(a[lo]);
    NoColons(Hex(a[lo]));
    if lo + 1 < hi {
      HexesColons(a, lo + 1, hi);
      ColonsOf(Hex(a[lo]), ":" + Hexes(a, lo + 1, hi));
      ColonsOf(":", Hexes(a, lo + 1, hi));
      assert Hex(a[lo]) + (":" + Hexes(a, lo + 1, hi)) == Hexes(a, lo, hi);
    }
  }

  lemma PlainIsLoop(t: string)
    requires Plain(t)
    ensures Pton6(t) == Loop(t, 0, ZERO6, false)
  {
    forall c | c in t ensures c != 'x' && c != '.' {
      var i :| 0 <= i < |t| && t[i] == c;
      assert PlainChar(t[i]);
    }
    if |t| > 2 {
      assert forall c :: c in t[2..] ==> c in t;
    }
  }

  /** Reading the first "::". */
  lemma ReadDouble(rest: string, k: int, g: Address6)
    requires k < 8
    ensures Loop("::" + rest, k, g, false)
            == if rest == [] then Ok(g) else Loop(rest, 7 - ColonCount(rest), g, true)
  {
    var t := "::" + rest;
    assert t[2..] == rest && At(t, 1) == ':';
  }

  /** The rest of the text after the run. */
  lemma ReadAfterRun(a: Address6, start: nat, end: nat, g: Address6)
    requires ZeroRun(a, start, end)
    requires forall i :: 0 <= i < 8 ==> g[i] == if i < start then a[i] else 0
    ensures Loop("::" + Hexes(a, end, 8), start, g, false) == Ok(a)
  {
    hide Loop;
    var rest := Hexes(a, end, 8);
    ReadDouble(rest, start, g);
    if end == 8 {
      assert g == a;
    } else {
      HexesStart(a, end, 8);
      HexesColons(a, end, 8);
      ReadHexes(a, end, 8, [], g, true);
      assert rest + [] == rest;
      assert Filled(g, a, end, 8) == a;
      LoopEnd(a, true);
    }
  }

  lemma LoopEnd(g: Address6, seen: bool)
    ensures Loop([], 8, g, seen) == Ok(g)
  {
  }

  /** Reading the groups before the first "::". */
  lemma ReadPrefix(a: Address6, start: nat, tail: string)
    requires start <= 8 && tail != [] && tail[0] == ':'
    ensures Loop(Hexes(a, 0, start) + tail, 0, ZERO6, false)
            == Loop(tail, start, Filled(ZERO6, a, 0, start), false)
  {
    hide Loop;
    if start > 0 {
      ReadHexes(a, 0, start, tail, ZERO6, false);
    } else {
      assert Hexes(a, 0, 0) + tail == tail;
      assert Filled(ZERO6, a, 0, 0) == ZERO6;
    }
  }

  /** The text with "::" in place of one run of zeros is read back. */
  lemma ReadOneRun(a: Address6, start: nat, end: nat)
    requires ZeroRun(a, start, end)
    ensures Loop(Hexes(a, 0, start) + "::" + Hexes(a, end, 8), 0, ZERO6, false) == Ok(a)
  {
    hide Loop, Hexes;
    var tail := "::" + Hexes(a, end, 8);
    assert Hexes(a, 0, start) + "::" + Hexes(a, end, 8) == Hexes(a, 0, start) + tail;
    ReadPrefix(a, start, tail);
    ReadAfterRun(a, start, end, Filled(ZERO6, a, 0, start));
  }

  /** After one "::", another one that is reached makes the text invalid. */
  lemma {:induction false} SecondDouble(a: Address6, lo: nat, hi: nat, rest: string, k: nat, g: Address6)
    requires lo < hi <= 8 && k + (hi - lo) < 8
    ensures Loop(Hexes(a, lo, hi) + ("::" + rest), k, g, true) == Invalid
    decreases hi - lo
  {
    hide Loop;
    if lo + 1 == hi {
      ReadWord(a[lo], "::" + rest, k, g, true);
      RefuseDouble(rest, k + 1, g[k := a[lo]]);
    } else {
      var tail := Hexes(a, lo + 1, hi) + ("::" + rest);
      HexesSplit(a, lo, hi, "::" + rest);
      ReadWord(a[lo], ":" + tail, k, g, true);
      HexesStart(a, lo + 1, hi);
      ReadColon(tail, k + 1, g[k := a[lo]], true);
      SecondDouble(a, lo + 1, hi, rest, k + 1, g[k := a[lo]]);
    }
  }

  lemma RefuseDouble(rest: string, k: nat, g: Address6)
    requires k < 8
    ensures Loop("::" + rest, k, g, true) == Invalid
  {
    assert At("::" + rest, 1) == ':';
  }

  // ---------- IPv6: the round trip ----------

  ghost predicate AtMostOneZero(g: Address6) {
    forall i, j :: 0 <= i < j < 8 ==> g[i] != 0 || g[j] != 0
  }

  lemma RoundTripOneRun(g: Address6, start: nat, len: nat)
    requires ZeroRun(g, start, start + len) && len == ScanRuns(g, 8).max && !IsDotted(g)
    requires forall i :: 0 <= i < 8 ==> Marks(g)[i] == if start <= i < start + len then i - start + 1 else -1
    ensures Pton6(Ntop6(g)) == Ok(g)
  {
    hide Loop, Marks, ScanRuns, IsDotted, Pton6;
    PrintOneRun(g, Marks(g), start, len);
    PrintIsPlain(g, Marks(g), len, 0);
    PlainIsLoop(Ntop6(g));
    ReadOneRun(g, start, start + len);
  }

  lemma RoundTripNoZero(g: Address6)
    requires forall i :: 0 <= i < 8 ==> Marks(g)[i] == -1
    ensures Pton6(Ntop6(g)) == Ok(g)
  {
    hide Loop, Marks, ScanRuns, Pton6;
    var max := ScanRuns(g, 8).max;
    RunsPositive(g, 8);
    PrintNoRun(g, Marks(g), max);
    PrintIsPlain(g, Marks(g), max, 0);
    PlainIsLoop(Ntop6(g));
    ReadHexes(g, 0, 8, [], ZERO6, false);
    assert Hexes(g, 0, 8) + [] == Hexes(g, 0, 8);
    AllFilled(g);
    LoopEnd(g, false);
  }

  lemma AllFilled(g: Address6)
    ensures Filled(ZERO6, g, 0, 8) == g
  {
  }

  /** Two zero groups with no zero group between or beside them print as two "::". */
  lemma TwoZerosFail(g: Address6, i: nat, j: nat)
    requires ScanRuns(g, 8).max == 1 && i + 1 < j < 8
    requires forall k :: 0 <= k < 8 ==> Marks(g)[k] == if g[k] == 0 then 1 else -1
    requires g[i] == 0 && g[j] == 0 && (forall k :: 0 <= k < i ==> g[k] != 0) && (forall k :: i < k < j ==> g[k] != 0)
    ensures Pton6(Ntop6(g)) == Invalid
  {
    hide Loop, ScanRuns, Pton6, Marks, Hexes;
    var m := Marks(g);
    RunsMeaning(g, 8);
    PrintIsPlain(g, m, 1, 0);
    PlainIsLoop(Ntop6(g));
    assert !IsDotted(g);
    PrintTwoRuns(g, m, i, j);
    ShortRuns(g);
    forall k | 0 <= k < 7 && m[k] == 1 ensures m[k + 1] == -1 {
      assert !AdjacentZeros(g, k);
    }
    TwoRunsColons(g, m, i, j);
    ReadTwoRuns(g, i, j, PrintFrom(g, m, 1, j + 1));
  }

  /** What follows the first of two isolated zero groups has too few colons to lead out of the address. */
  lemma TwoRunsColons(g: Address6, m: seq<int>, i: nat, j: nat)
    requires |m| == 8 && i + 1 < j < 8 && m[j] == 1 && m[i + 1] == -1
    requires (forall k :: 0 <= k < 8 ==> m[k] == 1 || m[k] == -1) && (forall k :: i < k < j ==> m[k] == -1)
    requires forall k :: 0 <= k < 7 && m[k] == 1 ==> m[k + 1] == -1
    ensures ColonCount(Hexes(g, i + 1, j) + ("::" + PrintFrom(g, m, 1, j + 1))) <= 7 - i
  {
    FewColons(g, m, i + 1);
    PrintPlain(g, m, 1, i + 1, j);
    assert PrintFrom(g, m, 1, j) == "::" + PrintFrom(g, m, 1, j + 1);
  }

  /** Isolated zero groups print with no more colons than there are groups left, and one more at a zero group. */
  lemma {:induction false} FewColons(g: Address6, m: seq<int>, lo: nat)
    requires |m| == 8 && lo <= 8 && (forall k :: 0 <= k < 8 ==> m[k] == 1 || m[k] == -1)
    requires forall k :: 0 <= k < 7 && m[k] == 1 ==> m[k + 1] == -1
    ensures ColonCount(PrintFrom(g, m, 1, lo)) <= 8 - lo + if lo < 8 && m[lo] == 1 then 1 else 0
    decreases 8 - lo
  {
    hide Hex;
    if lo < 8 {
      FewColons(g, m, lo + 1);
      var rest := PrintFrom(g, m, 1, lo + 1);
      if m[lo] == 1 {
        TwoColons(rest);
      } else {
        HexRoundTrip(g[lo]);
        NoColons(Hex(g[lo]));
        var sep := if lo != 7 && m[lo + 1] != 1 then ":" else [];
        assert PrintFrom(g, m, 1, lo) == Hex(g[lo]) + (sep + rest);
        ColonsOf(Hex(g[lo]), sep + rest);
        ColonsOf(sep, rest);
        assert ColonCount(":") == 1 && ColonCount("") == 0;
        assert lo == 7 ==> rest == [];
      }
    }
  }

  lemma PrintTwoRuns(g: Address6, m: seq<int>, i: nat, j: nat)
    requires |m| == 8 && i + 1 < j < 8 && m[i] == 1 && m[j] == 1
    requires (forall k :: 0 <= k < i ==> m[k] == -1) && (forall k :: i < k < j ==> m[k] == -1)
    ensures PrintFrom(g, m, 1, 0)
            == Hexes(g, 0, i) + ("::" + (Hexes(g, i + 1, j) + ("::" + PrintFrom(g, m, 1, j + 1))))
  {
    hide Hexes;
    PrintPlain(g, m, 1, 0, i);
    PrintPlain(g, m, 1, i + 1, j);
    assert PrintFrom(g, m, 1, i) == "::" + PrintFrom(g, m, 1, i + 1);
    assert PrintFrom(g, m, 1, j) == "::" + PrintFrom(g, m, 1, j + 1);
  }

  lemma ReadTwoRuns(g: Address6, i: nat, j: nat, rest: string)
    requires i + 1 < j < 8 && ColonCount(Hexes(g, i + 1, j) + ("::" + rest)) <= 7 - i
    ensures Loop(Hexes(g, 0, i) + ("::" + (Hexes(g, i + 1, j) + ("::" + rest))), 0, ZERO6, false) == Invalid
  {
    hide Loop, Hexes;
    var tail := Hexes(g, i + 1, j) + ("::" + rest);
    ReadPrefix(g, i, "::" + tail);
    FailSecond(g, i, j, rest, Filled(ZERO6, g, 0, i));
  }

  lemma FailSecond(g: Address6, i: nat, j: nat, rest: string, a: Address6)
    requires i + 1 < j < 8 && ColonCount(Hexes(g, i + 1, j) + ("::" + rest)) <= 7 - i
    ensures Loop("::" + (Hexes(g, i + 1, j) + ("::" + rest)), i, a, false) == Invalid
  {
    hide Loop, Hexes;
    var tail := Hexes(g, i + 1, j) + ("::" + rest);
    ReadDouble(tail, i, a);
    HexesColons(g, i + 1, j);
    ColonsOf(Hexes(g, i + 1, j), "::" + rest);
    TwoColons(rest);
    SecondDouble(g, i + 1, j, rest, 7 - ColonCount(tail), a);
  }

  lemma TwoColons(rest: string)
    ensures ColonCount("::" + rest) == 2 + ColonCount(rest)
  {
    var t := "::" + rest;
    assert t[1..] == ":" + rest && t[1..][1..] == rest;
  }

  predicate DottedChar(c: char) {
    IsDecimal(c) || c == '.'
  }

  lemma Ntop4Chars(b: Address4)
    ensures forall c :: c in Ntop4(b) ==> DottedChar(c)
    ensures '.' in Ntop4(b) && |Ntop4(b)| <= 15
  {
    DecChars(b[0]);
    DecChars(b[1]);
    DecChars(b[2]);
    DecChars(b[3]);
    hide Dec;
    assert Ntop4(b)[|Dec(b[0])|] == '.';
  }

  lemma DecChars(n: u8)
    ensures forall c :: c in Dec(n) ==> IsDecimal(c)
    ensures 1 <= |Dec(n)| <= 3
  {
  }

  lemma {:induction false} FindNone(t: string, c: char)
    requires c !in t
    ensures Find(t, c) == |t|
  {
    if t != [] {
      assert t[0] in t && forall d :: d in t[1..] ==> d in t;
      FindNone(t[1..], c);
    }
  }

  /** The forms "::a.b.c.d" and "::ffff:a.b.c.d". */
  lemma ReadDotted(fifth: u16, b: Address4)
    requires fifth == 0 || fifth == 0xFFFF
    ensures var t := (if fifth == 0xFFFF then "ffff:" else []) + Ntop4(b);
            Pton6("::" + t) == Ok(WithV4(fifth, b))
  {
    if fifth == 0xFFFF {
      ReadMapped(b);
    } else {
      ReadCompatible(b);
      assert [] + Ntop4(b) == Ntop4(b);
    }
  }

  lemma ReadMapped(b: Address4)
    ensures Pton6("::" + ("ffff:" + Ntop4(b))) == Ok(WithV4(0xFFFF, b))
  {
    hide Ntop4, Loop, DottedTail, WithV4;
    var v4 := Ntop4(b);
    var t := "ffff:" + v4;
    Ntop4Chars(b);
    assert forall c :: c in "::" + t ==> c == ':' || c == 'f' || c in v4;
    assert ("::" + t)[2..] == t && At("::" + t, 0) == ':' && At("::" + t, 1) == ':' && t != [];
    MappedTail(b);
  }

  lemma MappedTail(b: Address4)
    ensures DottedTail("ffff:" + Ntop4(b)) == Ok(WithV4(0xFFFF, b))
  {
    hide Ntop4, Pton4, ScanWord, Find, WithV4;
    var v4 := Ntop4(b);
    var t := "ffff:" + v4;
    Ntop4Chars(b);
    RoundTrip4(b);
    assert t == "ffff" + (":" + v4);
    FourFs();
    ScanDigits("ffff", ":" + v4);
    FindColon(v4);
    assert t[5..] == v4;
  }

  lemma ReadCompatible(b: Address4)
    ensures Pton6("::" + Ntop4(b)) == Ok(WithV4(0, b))
  {
    hide Ntop4, Pton4, ScanWord, Loop, Find, WithV4;
    var t := Ntop4(b);
    Ntop4Chars(b);
    RoundTrip4(b);
    assert forall c :: c in "::" + t ==> c == ':' || c in t;
    assert ("::" + t)[2..] == t && At("::" + t, 0) == ':' && At("::" + t, 1) == ':' && t != [];
    FindNone(t, ':');
  }

  lemma FourFs()
    ensures HexNumber("ffff") == 0xFFFF
  {
    assert "ffff"[..3] == "fff" && "fff"[..2] == "ff" && "ff"[..1] == "f" && "f"[..0] == "";
    assert HexNumber("f") == 15;
    assert HexNumber("ff") == 255;
    assert HexNumber("fff") == 4095;
  }

  lemma FindColon(rest: string)
    ensures Find("ffff:" + rest, ':') == 4
  {
    var t := "ffff:" + rest;
    var r := Find(t, ':');
    assert t[4] == ':' && t[0] == 'f' && t[1] == 'f' && t[2] == 'f' && t[3] == 'f';
  }

  /** The fifth group of an address that prints with a dotted tail. */
  ghost function Fifth(g: Address6): u16 {
    if ScanRuns(g, 8).maxpos == 4 then 0xFFFF else 0
  }

  lemma DottedAddress(g: Address6)
    requires IsDotted(g)
    ensures WithV4(Fifth(g), TailOf(g)) == g
  {
    RunsMeaning(g, 8);
    LongRun(g);
    hide ScanRuns, Marks;
    forall i | 0 <= i < 8 ensures WithV4(Fifth(g), TailOf(g))[i] == g[i] {
    }
  }

  lemma DottedText(g: Address6)
    requires IsDotted(g)
    ensures Ntop6(g) == "::" + ((if Fifth(g) == 0xFFFF then "ffff:" else []) + Ntop4(TailOf(g)))
  {
    hide ScanRuns, Ntop4, TailOf;
  }

  /** An IPv4-mapped address, or an IPv4-compatible one with its first 16 bits not zero. */
  predicate EmbedsV4(g: Address6) {
    g[0] == g[1] == g[2] == g[3] == g[4] == 0 && (g[5] == 0xFFFF || (g[5] == 0 && g[6] != 0))
  }

  lemma DottedExactly(g: Address6)
    ensures IsDotted(g) <==> EmbedsV4(g)
  {
    var r := ScanRuns(g, 8);
    RunsMeaning(g, 8);
    hide ScanRuns;
    assert forall j :: 0 <= j < 8 ==> MarkOf(g, r.runpos, r.max, j);
    if r.max > 1 {
      LongRun(g);
      hide Marks;
      if IsDotted(g) && g[5] == 0 {
        assert MarkOf(g, r.runpos, r.max, 6);
      }
      if EmbedsV4(g) {
        RunFromZero(g, r.runpos, r.max, if g[5] == 0 then 5 else 4);
      }
    } else if EmbedsV4(g) {
      RunFromZero(g, r.runpos, r.max, 4);
    }
  }

  lemma {:induction false} RunFromZero(g: Address6, runpos: seq<int>, max: nat, k: nat)
    requires k < 8 == |runpos| && forall j :: 0 <= j < 8 ==> MarkOf(g, runpos, max, j)
    requires forall j :: 0 <= j <= k ==> g[j] == 0
    ensures runpos[k] == k + 1 <= max
  {
    assert MarkOf(g, runpos, max, k);
    if k > 0 { RunFromZero(g, runpos, max, k - 1); }
  }

  lemma {:induction false} NoDots(g: Address6, m: seq<int>, max: nat, i: nat)
    requires |m| == 8 && max > 0
    ensures '.' !in PrintFrom(g, m, max, i)
    decreases 8 - i
  {
    if i < 8 {
      hide Hex;
      if m[i] == -1 {
        HexRoundTrip(g[i]);
        NoDots(g, m, max, i + 1);
      } else {
        NoDots(g, m, max, if m[i] == 1 then i + max else i + 1);
      }
    }
  }

  /** Exactly the addresses that embed an IPv4 address are printed with dots: "::" or "::ffff:" and that address. */
  lemma PrintsDotted(g: Address6)
    ensures '.' in Ntop6(g) <==> EmbedsV4(g)
    ensures EmbedsV4(g) ==> Ntop6(g) == "::" + ((if g[5] == 0xFFFF then "ffff:" else []) + Ntop4(TailOf(g)))
  {
    DottedExactly(g);
    RunsPositive(g, 8);
    if IsDotted(g) {
      DottedText(g);
      DottedAddress(g);
      HasDot(TailOf(g));
    } else {
      NoDots(g, Marks(g), ScanRuns(g, 8).max, 0);
    }
  }

  lemma HasDot(b: Address4)
    ensures '.' in Ntop4(b)
  {
    hide Dec;
    var d := Dec(b[0]);
    assert Ntop4(b)[|d|] == '.';
  }

  lemma RoundTripDotted(g: Address6)
    requires IsDotted(g)
    ensures Pton6(Ntop6(g)) == Ok(g)
  {
    hide Pton6, Ntop6, Ntop4, IsDotted, WithV4, TailOf;
    DottedAddress(g);
    DottedText(g);
    assert Fifth(g) == 0 || Fifth(g) == 0xFFFF;
    hide Fifth;
    ReadDotted(Fifth(g), TailOf(g));
  }

  /** The printed text is read back as the address exactly when the address has two adjacent zero groups
      or at most one zero group. Otherwise it is refused: no printed text makes the parser leave the address. */
  lemma RoundTrip6(g: Address6)
    ensures Pton6(Ntop6(g)) == if HasRun(g) || AtMostOneZero(g) then Ok(g) else Invalid
  {
    hide Pton6, Ntop6, ScanRuns, Marks, IsDotted;
    var r := ScanRuns(g, 8);
    RunsMeaning(g, 8);
    if IsDotted(g) {
      RoundTripDotted(g);
      DottedHasRun(g);
    } else if r.max > 1 {
      LongRun(g);
      var start := r.maxpos - r.max + 1;
      assert AdjacentZeros(g, start);
      RoundTripOneRun(g, start, r.max);
    } else {
      ShortRuns(g);
      RoundTripShort(g);
    }
  }

  lemma DottedHasRun(g: Address6)
    requires IsDotted(g)
    ensures HasRun(g)
  {
    RunsMeaning(g, 8);
    LongRun(g);
    hide ScanRuns;
    assert AdjacentZeros(g, 0);
  }

  lemma RoundTripShort(g: Address6)
    requires ScanRuns(g, 8).max == 1 && !IsDotted(g) && !HasRun(g)
    requires forall i :: 0 <= i < 8 ==> Marks(g)[i] == if g[i] == 0 then 1 else -1
    ensures Pton6(Ntop6(g)) == if AtMostOneZero(g) then Ok(g) else Invalid
  {
    hide Pton6, Ntop6, ScanRuns, Marks, IsDotted;
    var i := FirstZero(g, 0);
    if i == 8 {
      RoundTripNoZero(g);
    } else {
      assert i < 7 ==> !AdjacentZeros(g, i);
      var j := FirstZero(g, i + 1);
      if j == 8 {
        RoundTripOneRun(g, i, 1);
      } else {
        TwoZerosFail(g, i, j);
      }
    }
  }

  function FirstZero(g: Address6, lo: nat): (r: nat)
    requires lo <= 8
    ensures lo <= r <= 8 && (r < 8 ==> g[r] == 0) && forall i :: lo <= i < r ==> g[i] != 0
    decreases 8 - lo
  {
    if lo == 8 || g[lo] == 0 then lo else FirstZero(g, lo + 1)
  }

  /** The text and its terminator fit the 46 characters of INET6_ADDRSTRLEN. */
  lemma Ntop6Fits(g: Address6)
    ensures |Ntop6(g)| <= 45
  {
    RunsPositive(g, 8);
    Ntop4Chars(TailOf(g));
    PrintIsPlain(g, Marks(g), ScanRuns(g, 8).max, 0);
  }

  // ---------- IPv6: texts that end in "::" ----------

  /** How many zero groups in a row end at group `j`. */
  function ZerosUpTo(g: Address6, j: nat): nat
    requires j < 8
  {
    if g[j] != 0 then 0 else 1 + if j == 0 then 0 else ZerosUpTo(g, j - 1)
  }

  /** The address ends in a zero group, and either no two zero groups are adjacent or the run at the end is longer than
      every run before it. */
  ghost predicate TrailingRun(g: Address6) {
    g[7] == 0 && (HasRun(g) ==> forall j: nat :: j < 7 ==> ZerosUpTo(g, j) < ZerosUpTo(g, 7))
  }

  predicate EndsInDouble(t: string) {
    |t| >= 2 && t[|t| - 2] == ':' && t[|t| - 1] == ':'
  }

  lemma {:induction false} MarkIsCount(g: Address6, j: nat)
    requires j < 8 && g[j] == 0
    ensures ScanRuns(g, 8).runpos[j] == ZerosUpTo(g, j)
  {
    RunsMeaning(g, 8);
    assert MarkOf(g, ScanRuns(g, 8).runpos, ScanRuns(g, 8).max, j);
    hide ScanRuns;
    if j > 0 && g[j - 1] == 0 {
      MarkIsCount(g, j - 1);
    }
  }

  /** Of several longest runs the scan keeps the first. */
  lemma {:induction false} FirstLongest(g: Address6, i: nat)
    requires i <= 8
    ensures var r := ScanRuns(g, i); r.max > 1 ==> forall j :: 0 <= j < r.maxpos && j < i ==> r.runpos[j] < r.max
  {
    if i > 0 {
      FirstLongest(g, i - 1);
      RunsMeaning(g, i - 1);
      var r := ScanRuns(g, i - 1);
      forall j | 0 <= j < i - 1 ensures r.runpos[j] <= r.max {
        assert MarkOf(g, r.runpos, r.max, j);
      }
    }
  }

  ghost predicate IsFirstLongest(g: Address6, start: int, end: int) {
    && ZeroRun(g, start, end)
    && forall a, b :: ZeroRun(g, a, b) ==> b - a <= end - start && (b - a == end - start ==> start <= a)
  }

  lemma {:induction false} RunCounted(g: Address6, a: int, b: int, runpos: seq<int>, max: nat)
    requires ZeroRun(g, a, b) && |runpos| == 8 && forall j :: 0 <= j < 8 ==> MarkOf(g, runpos, max, j)
    ensures b - a <= runpos[b - 1] <= max
    decreases b - a
  {
    assert MarkOf(g, runpos, max, b - 1);
    if b - a > 1 {
      assert ZeroRun(g, a, b - 1);
      RunCounted(g, a, b - 1, runpos, max);
    }
  }

  lemma LongestFound(g: Address6)
    requires HasRun(g)
    ensures var r := ScanRuns(g, 8); r.max > 1 && IsFirstLongest(g, r.maxpos - r.max + 1, r.maxpos + 1)
  {
    hide ScanRuns, MarkOf, Marks;
    RunsMeaning(g, 8);
    FirstLongest(g, 8);
    var r := ScanRuns(g, 8);
    forall i: nat | i < 7 && AdjacentZeros(g, i) ensures r.max > 1 {
      RunCounted(g, i, i + 2, r.runpos, r.max);
    }
    LongRun(g);
    forall a, b | ZeroRun(g, a, b) ensures b - a <= r.max && (b - a == r.max ==> r.maxpos < b) {
      RunCounted(g, a, b, r.runpos, r.max);
    }
  }

  /** An address with adjacent zero groups, not printed with dots, is printed with its first longest zero run as "::"
      and all other groups in hexadecimal (section 2.2 of RFC 4291). */
  lemma PrintsLongest(g: Address6)
    requires HasRun(g) && !EmbedsV4(g)
    ensures exists start: nat, end: nat :: IsFirstLongest(g, start, end)
              && Ntop6(g) == Hexes(g, 0, start) + "::" + Hexes(g, end, 8)
  {
    hide ScanRuns, IsDotted, EmbedsV4, Marks, IsFirstLongest, HasRun;
    DottedExactly(g);
    LongestFound(g);
    LongRun(g);
    var r := ScanRuns(g, 8);
    PrintOneRun(g, Marks(g), r.maxpos - r.max + 1, r.max);
  }

  /** The last group stays marked exactly when the address ends in the run that prints as "::". */
  lemma LastMark(g: Address6)
    ensures Marks(g)[7] != -1 <==> TrailingRun(g)
    ensures IsDotted(g) ==> Marks(g)[7] == -1
  {
    var r := ScanRuns(g, 8);
    RunsMeaning(g, 8);
    if r.max == 1 {
      ShortRuns(g);
    } else {
      LongRun(g);
      FirstLongest(g, 8);
      LastIsLongest(g);
    }
  }

  lemma LastIsLongest(g: Address6)
    requires ScanRuns(g, 8).max > 1
    ensures ScanRuns(g, 8).maxpos == 7 <==> TrailingRun(g)
  {
    var r := ScanRuns(g, 8);
    RunsMeaning(g, 8);
    LongRun(g);
    FirstLongest(g, 8);
    hide ScanRuns, Marks;
    assert AdjacentZeros(g, r.maxpos - r.max + 1);
    MarkIsCount(g, r.maxpos);
    assert forall j :: 0 <= j < 8 ==> MarkOf(g, r.runpos, r.max, j);
    if g[7] == 0 {
      MarkIsCount(g, 7);
    }
    forall j: nat | j < 7 ensures ZerosUpTo(g, j) == if g[j] == 0 then r.runpos[j] else 0 {
      if g[j] == 0 { MarkIsCount(g, j); }
    }
  }

  /** Where the printer stops at every mark: a marked run ends at the end or before a group without a mark. */
  ghost predicate Stops(m: seq<int>, max: nat) {
    && |m| == 8 && max > 0
    && (forall i :: 0 <= i < 8 && m[i] == 1 ==>
          i + max <= 8 && m[i + max - 1] != -1 && (i + max < 8 ==> m[i + max] == -1))
    && (forall i :: 0 <= i < 7 && m[i] == -1 ==> m[i + 1] == -1 || m[i + 1] == 1)
  }

  lemma {:induction false} LastChar(g: Address6, m: seq<int>, max: nat, i: nat)
    requires Stops(m, max) && i < 8 && (m[i] == -1 || m[i] == 1)
    ensures var t := PrintFrom(g, m, max, i);
            t != [] && (EndsInDouble(t) <==> m[7] != -1) && (m[7] == -1 ==> t[|t| - 1] != ':')
    decreases 8 - i
  {
    hide Hex, HexNumber, EndsInDouble;
    var t := PrintFrom(g, m, max, i);
    HexEnd(g[i]);
    if m[i] == -1 {
      if i < 7 {
        LastChar(g, m, max, i + 1);
        var sep := if m[i + 1] != 1 then ":" else [];
        var rest := PrintFrom(g, m, max, i + 1);
        assert t == Hex(g[i]) + sep + rest;
        SameEnd(Hex(g[i]) + sep, rest);
      } else {
        assert t == Hex(g[7]) + [] + [] == Hex(g[7]);
        PlainEnd(t);
      }
    } else if i + max < 8 {
      LastChar(g, m, max, i + max);
      SameEnd("::", PrintFrom(g, m, max, i + max));
    } else {
      assert t == "::" + [] == "::";
      assert EndsInDouble("::") by { DoubleEnds(); }
    }
  }

  lemma HexEnd(v: u16)
    ensures Hex(v)[|Hex(v)| - 1] != ':'
  {
    HexRoundTrip(v);
    assert Hex(v)[|Hex(v)| - 1] in Hex(v);
  }

  lemma PlainEnd(t: string)
    requires t != [] && t[|t| - 1] != ':'
    ensures !EndsInDouble(t)
  {
  }

  lemma DoubleEnds()
    ensures EndsInDouble("::")
  {
  }

  /** What is in front does not matter for the end of a text that ends in "::" or in no colon. */
  lemma SameEnd(front: string, t: string)
    requires t != [] && (EndsInDouble(t) || t[|t| - 1] != ':')
    ensures EndsInDouble(front + t) <==> EndsInDouble(t)
    ensures (front + t)[|front + t| - 1] == t[|t| - 1]
  {
  }

  lemma MarksStop(g: Address6)
    ensures Stops(Marks(g), ScanRuns(g, 8).max) && (Marks(g)[0] == -1 || Marks(g)[0] == 1)
  {
    RunsMeaning(g, 8);
    var m, max := Marks(g), ScanRuns(g, 8).max;
    if max > 1 {
      LongRun(g);
      var start := ScanRuns(g, 8).maxpos - max + 1;
      hide ScanRuns, Marks;
      assert forall i :: 0 <= i < 8 && m[i] == 1 ==> i == start;
    } else {
      ShortRuns(g);
      hide ScanRuns, Marks;
      forall i | 0 <= i < 7 && m[i] == 1 ensures m[i + 1] == -1 {
        assert !AdjacentZeros(g, i);
      }
    }
  }

  /** The printed text ends in "::" exactly when the address ends in the run printed so. */
  lemma TextEnds(g: Address6)
    ensures EndsInDouble(Ntop6(g)) <==> TrailingRun(g)
  {
    LastMark(g);
    if IsDotted(g) {
      Ntop4Chars(TailOf(g));
      var t := Ntop6(g);
      var v4 := Ntop4(TailOf(g));
      assert t[|t| - 1] == v4[|v4| - 1] && v4[|v4| - 1] in v4;
    } else {
      MarksStop(g);
      LastChar(g, Marks(g), ScanRuns(g, 8).max, 0);
    }
  }

  // ---------- The printers and parsers as they are written ----------

  /** Reads a dotted address into four bytes on the stack. */
  method InetPton4(src: string) returns (r: Parsed<Address4>)
    ensures r == Pton4(src)
  {
    var tmp := new u8[4](_ => 0);
    var tp, octets, sawDigit, i := 0, 0, false, 0;
    ghost var s := Start4;
    while i < |src|
      invariant i <= |src| && Valid4(s) && Run4(s, src[i..]) == Pton4(src)
      invariant tp < 4 && tmp[..tp + 1] == s.tmp && octets == s.octets && sawDigit == s.sawDigit
    {
      var ch := src[i];
      ghost var next := Step4(s, ch);
      i := i + 1;
      if IsDecimal(ch) {
        var newNum := tmp[tp] * 10 + HexValue(ch);
        if newNum > 255 {
          return Invalid;
        }
        tmp[tp] := newNum;
        if !sawDigit {
          octets := octets + 1;
          if octets > 4 {
            return Invalid;
          }
          sawDigit := true;
        }
      } else if ch == '.' && sawDigit {
        if octets == 4 {
          return Invalid;
        }
        tp := tp + 1;
        tmp[tp] := 0;
        sawDigit := false;
      } else {
        return Invalid;
      }
      s := next.address;
    }
    if octets < 4 {
      return Invalid;
    }
    assert tmp[..] == tmp[..tp + 1];
    return Ok(tmp[..]);
  }

  /** Appends one character to the text that starts at `at`. */
  method PutChar(dst: array<char>, at: nat, end0: nat, c: char) returns (end: nat)
    requires at <= end0 < dst.Length
    modifies dst
    ensures end == end0 + 1 && dst[at..end] == old(dst[at..end0]) + [c]
    ensures forall i :: 0 <= i < dst.Length && i != end0 ==> dst[i] == old(dst[i])
  {
    dst[end0] := c;
    end := end0 + 1;
  }

  /** Prints one byte in decimal at `at`. */
  method PrintByte(byte: u8, dst: array<char>, at: nat) returns (end: nat)
    requires at + 3 <= dst.Length
    modifies dst
    ensures end == at + |Dec(byte)| <= at + 3 && dst[at..end] == Dec(byte)
    ensures forall i :: 0 <= i < dst.Length && !(at <= i < end) ==> dst[i] == old(dst[i])
  {
    hide Digit;
    end := at;
    var n := byte;
    var nonZero := false;
    if nonZero || n / 100 > 0 {
      end := PutChar(dst, at, end, Digit(n / 100));
      n := n % 100;
      nonZero := true;
    }
    if nonZero || n / 10 > 0 {
      end := PutChar(dst, at, end, Digit(n / 10));
      n := n % 10;
      nonZero := true;
    }
    end := PutChar(dst, at, end, Digit(n));
    DecimalDigits(byte);
  }

  lemma DecimalDigits(byte: u8)
    ensures byte % 100 / 10 == byte / 10 % 10 && byte % 100 % 10 == byte % 10
  {
  }

  /** Prints a dotted address at `at`, with its terminator. */
  method InetNtopV4(b: Address4, dst: array<char>, at: nat) returns (end: nat)
    requires at + 16 <= dst.Length
    modifies dst
    ensures end == at + |Ntop4(b)| < at + 16 && dst[at..end] == Ntop4(b) && dst[end] == '\0'
    ensures forall i :: 0 <= i < dst.Length && !(at <= i <= end) ==> dst[i] == old(dst[i])
  {
    DottedAll(b);
    hide Dec, Ntop4, Dotted;
    end := at;
    assert Dotted(b, 0) == "" by { DottedNext(b, 0); }
    for i := 0 to 4
      invariant end == at + |Dotted(b, i)| <= at + (if i == 4 then 15 else 4 * i) && dst[at..end] == Dotted(b, i)
      invariant forall j :: 0 <= j < dst.Length && !(at <= j < end) ==> dst[j] == old(dst[j])
    {
      end := PrintPart(b, i, dst, at, end);
    }
    dst[end] := '\0';
  }

  /** Prints the `i`-th number, and a dot unless it is the last. */
  method PrintPart(b: Address4, i: nat, dst: array<char>, at: nat, end0: nat) returns (end: nat)
    requires i < 4 && at + 16 <= dst.Length && end0 == at + |Dotted(b, i)| <= at + 4 * i
               && dst[at..end0] == Dotted(b, i)
    modifies dst
    ensures end0 <= end == at + |Dotted(b, i + 1)| <= at + if i == 3 then 15 else 4 * i + 4
    ensures dst[at..end] == Dotted(b, i + 1)
    ensures forall j :: 0 <= j < dst.Length && !(end0 <= j < end) ==> dst[j] == old(dst[j])
  {
    DecChars(b[i]);
    DottedNext(b, i);
    hide Dec, Dotted;
    end := PrintByte(b[i], dst, end0);
    assert dst[at..end] == old(dst[at..end0]) + Dec(b[i]);
    if i != 3 {
      end := PutChar(dst, at, end, '.');
    }
  }

  /** The first `i` numbers, each but the last of the address with its dot. */
  ghost function Dotted(b: Address4, i: nat): string
    requires i <= 4
  {
    if i == 0 then "" else Dotted(b, i - 1) + Dec(b[i - 1]) + if i < 4 then "." else ""
  }

  lemma DottedNext(b: Address4, i: nat)
    requires i < 4
    ensures Dotted(b, 0) == "" && Dotted(b, i + 1) == Dotted(b, i) + Dec(b[i]) + if i < 3 then "." else ""
  {
  }

  lemma DottedAll(b: Address4)
    ensures Dotted(b, 4) == Ntop4(b)
  {
    hide Dec;
    DottedNext(b, 0); DottedNext(b, 1); DottedNext(b, 2); DottedNext(b, 3);
  }

  /** `snprintf` with "%x": the digits of `v` at `at`, then a terminator. */
  method PrintHex(dst: array<char>, at: nat, v: u16) returns (end: nat)
    requires at + 5 <= dst.Length
    modifies dst
    ensures end == at + |Hex(v)| <= at + 4 && dst[..end] == old(dst[..at]) + Hex(v) && dst[end] == '\0'
    ensures forall i :: end < i < dst.Length ==> dst[i] == old(dst[i])
  {
    HexLength(v);
    var digits := Hex(v);
    for i := 0 to |digits|
      invariant dst[..at + i] == old(dst[..at]) + digits[..i]
      invariant forall j :: at + i <= j < dst.Length ==> dst[j] == old(dst[j])
    {
      dst[at + i] := digits[i];
    }
    end := at + |digits|;
    dst[end] := '\0';
  }

  /** Marks the runs of zero groups and erases all marks but those of the longest. */
  method FindRuns(g: Address6) returns (runpos: seq<int>, max: nat, maxpos: int)
    ensures runpos == Marks(g) && max == ScanRuns(g, 8).max && maxpos == ScanRuns(g, 8).maxpos
  {
    var marks := new int[8];
    var current;
    current, max, maxpos := 1, 1, -1;
    for i := 0 to 8
      invariant Runs(marks[..i], current, max, maxpos) == ScanRuns(g, i)
    {
      if g[i] == 0 {
        marks[i] := current;
        if current > max {
          maxpos := i;
          max := current;
        }
        current := current + 1;
      } else {
        marks[i] := -1;
        current := 1;
      }
      assert marks[..i + 1] == marks[..i] + [marks[i]];
    }
    ghost var raw := marks[..8];
    if max > 1 {
      BeforeRun(g);
      var tmpmax := maxpos;
      var i := 8;
      while i > 0
        invariant 0 <= i <= 8
        invariant forall j :: i <= j < 8 ==> marks[j] == if maxpos - max < j <= maxpos then raw[j] else -1
        invariant forall j :: 0 <= j < i ==> marks[j] == raw[j]
        invariant tmpmax == if i <= maxpos - max then -1 else maxpos
      {
        i := i - 1;
        if i > tmpmax {
          marks[i] := -1;
        } else if marks[i] == -1 {
          tmpmax := -1;
        }
      }
    }
    runpos := marks[..];
  }

  /** Around the longest run: inside it no mark is -1, and the group before it, if any, has mark -1. */
  lemma BeforeRun(g: Address6)
    requires ScanRuns(g, 8).max > 1
    ensures var r := ScanRuns(g, 8);
            && -1 <= r.maxpos - r.max && r.maxpos < 8
            && (forall j :: r.maxpos - r.max < j <= r.maxpos ==> r.runpos[j] != -1)
            && (r.maxpos - r.max >= 0 ==> r.runpos[r.maxpos - r.max] == -1)
  {
    var r := ScanRuns(g, 8);
    RunsMeaning(g, 8);
    LongRun(g);
    hide ScanRuns;
    var start := r.maxpos - r.max + 1;
    forall j | start <= j <= r.maxpos ensures r.runpos[j] != -1 {
      assert MarkOf(g, r.runpos, r.max, j);
    }
    if start > 0 {
      assert MarkOf(g, r.runpos, r.max, start - 1) && MarkOf(g, r.runpos, r.max, start);
      assert Marks(g)[start] == 1;
    }
  }

  /** Prints an IPv6 address into a buffer of at least INET6_ADDRSTRLEN characters. A terminator follows
      the text, unless it ends in "::": then the character behind it is left as it was. */
  method InetNtopV6(g: Address6, dst: array<char>) returns (cursor: nat)
    requires dst.Length >= 46
    modifies dst
    ensures cursor == |Ntop6(g)| <= 45 && dst[..cursor] == Ntop6(g)
    ensures dst[cursor] == if EndsInDouble(Ntop6(g)) then old(dst[cursor]) else '\0'
    ensures EndsInDouble(Ntop6(g)) <==> TrailingRun(g)
    ensures '.' in Ntop6(g) <==> EmbedsV4(g)
  {
    PrintsDotted(g);
    TextEnds(g);
    LastMark(g);
    hide EmbedsV4, TrailingRun, EndsInDouble;
    hide Marks, ScanRuns, PrintFrom;
    var runpos, max, maxpos := FindRuns(g);
    RunsPositive(g, 8);
    cursor := 0;
    if runpos[0] == 1 && (maxpos == 5 || (maxpos == 4 && g[5] == 0xFFFF)) {
      cursor := PrintDotted(g, maxpos, dst);
    } else {
      cursor := PrintGroups(g, runpos, max, dst);
    }
  }

  /** The form with a dotted tail. */
  method PrintDotted(g: Address6, maxpos: int, dst: array<char>) returns (cursor: nat)
    requires dst.Length >= 46
    modifies dst
    ensures var text := "::" + (if maxpos == 4 then "ffff:" else []) + Ntop4(TailOf(g));
            cursor == |text| <= 45 && dst[..cursor] == text && dst[cursor] == '\0'
  {
    hide Ntop4, TailOf;
    dst[0], dst[1] := ':', ':';
    cursor := 2;
    if maxpos == 4 {
      dst[2], dst[3], dst[4], dst[5], dst[6] := 'f', 'f', 'f', 'f', ':';
      cursor := 7;
    }
    ghost var head := dst[..cursor];
    ghost var at := cursor;
    assert head == "::" + (if maxpos == 4 then "ffff:" else []);
    cursor := InetNtopV4(TailOf(g), dst, cursor);
    assert dst[..at] == head;
    assert dst[..cursor] == dst[..at] + dst[at..cursor];
  }

  /** Where a marked run starts, it fits in the rest of the address; a mark at the end belongs to it. */
  lemma RunsFit(g: Address6)
    ensures var m, max := Marks(g), ScanRuns(g, 8).max;
            && max > 0
            && (forall i :: 0 <= i < 8 && m[i] == 1 ==> i + max <= 8 && m[i + max - 1] != -1)
            && (forall i :: 0 <= i < 8 && m[i] != -1 && m[i] != 1 ==> 0 < i && m[i - 1] != -1)
  {
    RunsMeaning(g, 8);
    if ScanRuns(g, 8).max > 1 {
      LongRun(g);
    } else {
      ShortRuns(g);
      hide ScanRuns, Marks;
      forall i | 0 <= i < 7 ensures g[i] != 0 || g[i + 1] != 0 {
        assert !AdjacentZeros(g, i);
      }
    }
  }

  /** One group, and a colon behind it if it is to have one. */
  method PrintSingle(v: u16, colon: bool, dst: array<char>, cursor0: nat) returns (cursor: nat)
    requires cursor0 + 6 <= dst.Length
    modifies dst
    ensures cursor0 < cursor <= cursor0 + 5
    ensures dst[..cursor] == old(dst[..cursor0]) + Hex(v) + if colon then ":" else []
    ensures forall j :: cursor < j < dst.Length ==> dst[j] == old(dst[j])
    ensures dst[cursor] == if colon then old(dst[cursor]) else '\0'
  {
    HexLength(v);
    hide Hex;
    cursor := PrintHex(dst, cursor0, v);
    if colon {
      dst[cursor] := ':';
      cursor := cursor + 1;
      assert dst[..cursor] == old(dst[..cursor0]) + Hex(v) + ":";
    }
  }

  method PrintDouble(dst: array<char>, cursor0: nat) returns (cursor: nat)
    requires cursor0 + 3 <= dst.Length
    modifies dst
    ensures cursor == cursor0 + 2 && dst[..cursor] == old(dst[..cursor0]) + "::"
    ensures forall j :: cursor <= j < dst.Length ==> dst[j] == old(dst[j])
  {
    cursor := cursor0;
    dst[cursor] := ':';
    cursor := cursor + 1;
    dst[cursor] := ':';
    cursor := cursor + 1;
    assert dst[..cursor] == old(dst[..cursor0]) + "::";
  }

  lemma PrintFromHere(g: Address6, m: seq<int>, max: nat, i: nat)
    requires |m| == 8 && max > 0 && i < 8
    ensures PrintFrom(g, m, max, i) ==
            (if m[i] == -1 then Hex(g[i]) + if i != 7 && m[i + 1] != 1 then ":" else []
                else if m[i] == 1 then "::" else [])
            + PrintFrom(g, m, max, if m[i] == 1 then i + max else i + 1)
  {
  }

  /** Prints what starts at group `i0`: one group, or a whole run. */
  method PrintGroup(g: Address6, runpos: seq<int>, max: nat, dst: array<char>, cursor0: nat, i0: nat)
    returns (cursor: nat, i: nat)
    requires dst.Length >= 46 && |runpos| == 8 && max > 0 && i0 < 8 && cursor0 <= 5 * i0
    requires runpos[i0] == 1 ==> i0 + max <= 8
    modifies dst
    ensures i == (if runpos[i0] == 1 then i0 + max else i0 + 1) && cursor0 <= cursor <= 5 * i
    ensures dst[..cursor] + PrintFrom(g, runpos, max, i) == old(dst[..cursor0]) + PrintFrom(g, runpos, max, i0)
    ensures forall j :: cursor < j < dst.Length ==> dst[j] == old(dst[j])
    ensures runpos[i0] == -1 && (i == 8 || runpos[i] == 1) ==> dst[cursor] == '\0'
    ensures (runpos[i0] == -1 && i < 8 && runpos[i] != 1) || runpos[i0] == 1 ==> dst[cursor] == old(dst[cursor])
    ensures runpos[i0] == -1 || runpos[i0] == 1 ==> cursor > cursor0
    ensures runpos[i0] != -1 && runpos[i0] != 1 ==> cursor == cursor0 && dst[cursor] == old(dst[cursor])
  {
    PrintFromHere(g, runpos, max, i0);
    hide Hex, PrintFrom;
    i := i0;
    cursor := cursor0;
    ghost var before := dst[..cursor];
    if runpos[i] == -1 {
      cursor := PrintSingle(g[i], i != 7 && runpos[i + 1] != 1, dst, cursor);
    } else if runpos[i] == 1 {
      cursor := PrintDouble(dst, cursor);
      i := i + (max - 1);
    }
    i := i + 1;
  }

  /** The general form, group by group. */
  method PrintGroups(g: Address6, runpos: seq<int>, max: nat, dst: array<char>) returns (cursor: nat)
    requires dst.Length >= 46 && runpos == Marks(g) && max == ScanRuns(g, 8).max > 0
    modifies dst
    ensures cursor == |PrintFrom(g, runpos, max, 0)| <= 40 && dst[..cursor] == PrintFrom(g, runpos, max, 0)
    ensures dst[cursor] == if runpos[7] == -1 then '\0' else old(dst[cursor])
  {
    RunsFit(g);
    hide Marks, ScanRuns, PrintFrom;
    cursor := 0;
    var i := 0;
    while i < 8
      invariant i <= 8 && cursor <= 5 * i
      invariant dst[..cursor] + PrintFrom(g, runpos, max, i) == PrintFrom(g, runpos, max, 0)
      invariant forall j :: cursor < j < dst.Length ==> dst[j] == old(dst[j])
      invariant dst[cursor] == if i > 0 && runpos[i - 1] == -1 && (i == 8 || runpos[i] == 1)
                               then '\0' else old(dst[cursor])
    {
      cursor, i := PrintGroup(g, runpos, max, dst, cursor, i);
    }
    PrintEnd(g, runpos, max);
  }

  lemma PrintEnd(g: Address6, m: seq<int>, max: nat)
    requires |m| == 8 && max > 0
    ensures PrintFrom(g, m, max, 8) == []
  {
  }

  /** Reads an IPv6 address. */
  method InetPton6(src: string) returns (r: Parsed<Address6>)
    requires '\0' !in src
    ensures r == Pton6(src)
  {
    for i := 0 to |src|
      invariant 'x' !in src[..i]
    {
      if src[i] == 'x' {
        return Invalid;
      }
    }
    assert src[..|src|] == src;
    if At(src, 0) == ':' && At(src, 1) == ':' && At(src, 2) != '\0' {
      if Find(src[2..], '.') < |src| - 2 {
        assert src[2..][Find(src[2..], '.')] in src[2..];
        r := ReadTail(src[2..]);
        return;
      }
    }
    FindMisses(src);
    r := ReadGroups(src);
  }

  lemma FindMisses(src: string)
    ensures |src| > 2 && Find(src[2..], '.') == |src| - 2 ==> '.' !in src[2..]
  {
  }

  /** The form with a dotted tail, from behind the "::". */
  method ReadTail(t: string) returns (r: Parsed<Address6>)
    ensures r == DottedTail(t)
  {
    hide Pton4, ScanWord, Find;
    var fifth: u16 := 0;
    var start := 0;
    var colon := Find(t, ':');
    if colon < |t| {
      var scan := ScanWord(t);
      if scan.NoMatch? || scan.word != 0xFFFF || scan.used != 4 {
        return Invalid;
      }
      fifth := 0xFFFF;
      start := colon + 1;
    }
    assert t[0..] == t;
    var v4 := InetPton4(t[start..]);
    match v4 {
      case Ok(b) => return Ok(WithV4(fifth, b));
      case _ => return Invalid;
    }
  }

  /** The form without a dotted tail. */
  method ReadGroups(src: string) returns (r: Parsed<Address6>)
    requires '\0' !in src
    ensures r == Loop(src, 0, ZERO6, false)
  {
    hide ScanWord;
    var readCursor, seenCompressed := 0, false;
    var addrCursor: int := 0;
    var addr := ZERO6;
    while readCursor < |src| && addrCursor < 8
      invariant readCursor <= |src| && addrCursor <= 8
      invariant Loop(src[readCursor..], addrCursor, addr, seenCompressed) == Loop(src, 0, ZERO6, false)
      decreases |src| - readCursor
    {
      ghost var t := src[readCursor..];
      if src[readCursor] == ':' {
        if At(src, readCursor + 1) == ':' {
          if seenCompressed {
            return Invalid;
          }
          readCursor := readCursor + 2;
          assert t[2..] == src[readCursor..];
          if readCursor == |src| {
            addrCursor := 8;
          } else {
            var colonCount: int := CountColons(src, readCursor);
            addrCursor := 8 - (colonCount + 1);
            seenCompressed := true;
          }
        } else {
          readCursor := readCursor + 1;
          assert t[1..] == src[readCursor..];
        }
      } else {
        match ScanWord(src[readCursor..]) {
          case NoMatch => return Invalid;
          case Match(word, bytesRead) =>
            if addrCursor < 0 {
              return Outside;
            }
            addr := addr[addrCursor := word];
            addrCursor := addrCursor + 1;
            readCursor := readCursor + bytesRead;
            assert t[bytesRead..] == src[readCursor..];
            assert readCursor < |src| ==> src[readCursor] in src;
            if At(src, readCursor) != ':' && At(src, readCursor) != '\0' {
              return Invalid;
            }
        }
      }
    }
    if readCursor < |src| || addrCursor < 8 {
      return Invalid;
    }
    return Ok(addr);
  }

  /** The colons from position `from` on. */
  method CountColons(src: string, from: nat) returns (n: nat)
    requires from <= |src|
    ensures n == ColonCount(src[from..])
  {
    n := 0;
    for i := from to |src|
      invariant n + ColonCount(src[i..]) == ColonCount(src[from..])
    {
      assert src[i..][1..] == src[i + 1..];
      if src[i] == ':' {
        n := n + 1;
      }
    }
  }
}
