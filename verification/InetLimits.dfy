/** Where the IPv6 parser's write position leaves the address, and a printed text that does not read back. */
module InetLimits {
  import opened InetText

  // ---------- The first "::" ----------

  /** Whether the group loop reaches a "::", and what follows the first one. */
  datatype Reached = Nowhere | After(rest: string)

  function Reach(t: string, k: nat): Reached
    requires k <= 8
    decreases |t|
  {
    if t == [] || k == 8 then Nowhere
    else if t[0] == ':' then if At(t, 1) == ':' then After(t[2..]) else Reach(t[1..], k)
    else
      match ScanWord(t)
      case NoMatch => Nowhere
      case Match(_, used) =>
        if At(t, used) != ':' && At(t, used) != '\0' then Nowhere else Reach(t[used..], k + 1)
  }

  /** The first position of "::", or the length. */
  function FirstDouble(t: string): (p: nat)
    ensures p <= |t| && (p < |t| ==> p + 2 <= |t| && t[p] == ':' && t[p + 1] == ':')
  {
    if t == [] then 0 else if t[0] == ':' && At(t, 1) == ':' then 0 else 1 + FirstDouble(t[1..])
  }

  lemma {:induction false} SkipsSpace(t: string)
    ensures forall i :: 0 <= i < SpaceRun(t) ==> t[i] != ':'
  {
    if t != [] && IsSpace(t[0]) {
      SkipsSpace(t[1..]);
    }
  }

  /** A scanned word contains no colon. */
  lemma WordHasNoColon(t: string)
    requires ScanWord(t).Match?
    ensures forall i :: 0 <= i < ScanWord(t).used ==> t[i] != ':'
  {
    SkipsSpace(t);
    var space := SpaceRun(t);
    var sign := if At(t, space) == '+' || At(t, space) == '-' then 1 else 0;
    var start := space + sign;
    var prefix := if At(t, start) == '0' && (At(t, start + 1) == 'x' || At(t, start + 1) == 'X') then 2 else 0;
    var from := start + prefix;
    hide HexNumber;
    assert forall i :: 0 <= i < from ==> t[i] != ':';
    var n := HexRun(t[from..]);
    assert ScanWord(t).used == from + n;
    forall i | from <= i < from + n ensures t[i] != ':' {
      assert t[from..][i - from] == t[i];
    }
  }

  lemma {:induction false} PastWord(t: string, n: nat)
    requires n <= |t| && forall i :: 0 <= i < n ==> t[i] != ':'
    ensures FirstDouble(t) == n + FirstDouble(t[n..])
  {
    if n > 0 {
      PastWord(t[1..], n - 1);
      assert t[1..][n - 1..] == t[n..];
    } else {
      assert t[0..] == t;
    }
  }

  /** What the loop reaches is what follows the first "::" of the text. */
  lemma {:induction false} ReachIsFirst(t: string, k: nat)
    requires k <= 8 && Reach(t, k).After?
    ensures FirstDouble(t) < |t| && Reach(t, k).rest == t[FirstDouble(t) + 2..]
    decreases |t|
  {
    hide ScanWord;
    if t[0] == ':' {
      if At(t, 1) != ':' {
        ReachIsFirst(t[1..], k);
        SameRest(t, 1);
      }
    } else {
      var used := ScanWord(t).used;
      WordHasNoColon(t);
      PastWord(t, used);
      ReachIsFirst(t[used..], k + 1);
      SameRest(t, used);
    }
  }

  lemma SameRest(t: string, n: nat)
    requires n <= |t| && FirstDouble(t) == n + FirstDouble(t[n..]) <= |t| - 2
    ensures t[n..][FirstDouble(t[n..]) + 2..] == t[FirstDouble(t) + 2..]
  {
    hide FirstDouble;
  }

  // ---------- Leaving the address ----------

  /** A word follows, behind one colon at most. */
  predicate WordNext(t: string) {
    t != [] && if t[0] == ':' then At(t, 1) != ':' && |t| > 1 && ScanWord(t[1..]).Match? else ScanWord(t).Match?
  }

  /** With the write position in front of the address the next word is written there; nothing else is. */
  lemma OutsideNext(t: string, k: int, g: Address6)
    requires k < 0
    ensures Loop(t, k, g, true) == Outside <==> WordNext(t)
  {
    hide ScanWord;
    if t != [] && t[0] == ':' && At(t, 1) != ':' && |t| > 1 {
      assert t[1] != ':';
    }
  }

  /** A write position inside the address stays inside. */
  lemma {:induction false} InsideStays(t: string, k: nat, g: Address6)
    requires k <= 8
    ensures Loop(t, k, g, true) != Outside
    decreases |t|
  {
    hide ScanWord;
    if t != [] && k < 8 {
      if t[0] == ':' {
        if At(t, 1) != ':' {
          InsideStays(t[1..], k, g);
        }
      } else if ScanWord(t).Match? {
        var w := ScanWord(t);
        InsideStays(t[w.used..], k + 1, g[k := w.word]);
      }
    }
  }

  lemma {:induction false} LoopOutside(t: string, k: nat, g: Address6)
    requires k <= 8
    ensures Loop(t, k, g, false) == Outside <==>
              Reach(t, k).After? && ColonCount(Reach(t, k).rest) >= 8 && WordNext(Reach(t, k).rest)
    decreases |t|
  {
    hide ScanWord, WordNext;
    if t != [] && k < 8 {
      if t[0] == ':' {
        if At(t, 1) != ':' {
          LoopOutside(t[1..], k, g);
        } else if |t| > 2 {
          var k' := 8 - (ColonCount(t[2..]) + 1);
          if k' < 0 { OutsideNext(t[2..], k', g); } else { InsideStays(t[2..], k', g); }
        } else {
          assert t[2..] == [];
        }
      } else if ScanWord(t).Match? {
        var w := ScanWord(t);
        LoopOutside(t[w.used..], k + 1, g[k := w.word]);
      }
    }
  }

  /** The text is read as one with a dotted tail. */
  predicate DottedForm(t: string) {
    At(t, 0) == ':' && At(t, 1) == ':' && |t| > 2 && '.' in t[2..]
  }

  /** The parser's write position leaves the address exactly when the text has no 'x' and no dotted tail, the group loop
      reaches a "::", at least eight colons follow it, and a word comes next. */
  lemma OutsideExactly(t: string)
    ensures Pton6(t) == Outside <==>
              && 'x' !in t && !DottedForm(t) && Reach(t, 0).After?
              && ColonCount(Reach(t, 0).rest) >= 8 && WordNext(Reach(t, 0).rest)
  {
    hide Loop, ScanWord, WordNext, Reach;
    LoopOutside(t, 0, ZERO6);
  }

  /** A text with fewer than eight colons behind its first "::", or without one, keeps it inside. */
  lemma StaysInside(t: string)
    requires FirstDouble(t) < |t| ==> ColonCount(t[FirstDouble(t) + 2..]) < 8
    ensures Pton6(t) != Outside
  {
    hide Pton6, WordNext, Reach;
    OutsideExactly(t);
    if Reach(t, 0).After? {
      ReachIsFirst(t, 0);
    }
  }

  /** No printed text leads out of the address. */
  lemma PrintedStaysInside(g: Address6)
    ensures Pton6(Ntop6(g)) != Outside
  {
    RoundTrip6(g);
  }

  /** Nine groups behind a "::" do. */
  lemma NineGroups()
    ensures Pton6("::1:2:3:4:5:6:7:8:9") == Outside
  {
    hide Pton6, ScanWord, ColonCount, HexNumber, DottedForm, WordNext, Reach;
    var rest := "1:2:3:4:5:6:7:8:9";
    NineReached(rest);
    NineScanned(rest);
    EightColons();
    assert "::" + rest == "::1:2:3:4:5:6:7:8:9";
    OutsideExactly("::" + rest);
  }

  lemma NineReached(rest: string)
    requires rest == "1:2:3:4:5:6:7:8:9"
    ensures 'x' !in "::" + rest && !DottedForm("::" + rest) && Reach("::" + rest, 0) == After(rest)
  {
    assert ("::" + rest)[2..] == rest;
  }

  lemma NineScanned(rest: string)
    requires rest == "1:2:3:4:5:6:7:8:9"
    ensures WordNext(rest)
  {
    hide ScanWord;
    assert HexNumber("1") == 1 by { assert "1"[..0] == ""; }
    hide HexNumber;
    assert rest == "1" + ":2:3:4:5:6:7:8:9";
    ScanDigits("1", ":2:3:4:5:6:7:8:9");
  }

  lemma EightColons()
    ensures ColonCount("1:2:3:4:5:6:7:8:9") == 8
  {
    hide ColonCount;
    var t8 := ['8', ':'] + "9";
    var t7 := ['7', ':'] + t8;
    var t6 := ['6', ':'] + t7;
    var t5 := ['5', ':'] + t6;
    var t4 := ['4', ':'] + t5;
    var t3 := ['3', ':'] + t4;
    var t2 := ['2', ':'] + t3;
    OneMoreColon('8', "9");
    OneMoreColon('7', t8);
    OneMoreColon('6', t7);
    OneMoreColon('5', t6);
    OneMoreColon('4', t5);
    OneMoreColon('3', t4);
    OneMoreColon('2', t3);
    OneMoreColon('1', t2);
    NoColons("9");
    assert ['1', ':'] + t2 == "1:2:3:4:5:6:7:8:9";
  }

  lemma OneMoreColon(c: char, rest: string)
    requires c != ':'
    ensures ColonCount([c, ':'] + rest) == 1 + ColonCount(rest)
  {
    var t := [c, ':'] + rest;
    assert t[1..][1..] == rest;
  }

  /** The address of eight zero groups prints as "::", without a terminator behind it. */
  lemma AllZeros()
    ensures EndsInDouble(Ntop6(ZERO6)) && TrailingRun(ZERO6)
  {
    TextEnds(ZERO6);
    ZerosSoFar(7);
    forall j: nat | j < 7 ensures ZerosUpTo(ZERO6, j) < ZerosUpTo(ZERO6, 7) {
      ZerosSoFar(j);
    }
  }

  lemma {:induction false} ZerosSoFar(j: nat)
    requires j < 8
    ensures ZerosUpTo(ZERO6, j) == j + 1
  {
    if j > 0 {
      ZerosSoFar(j - 1);
    }
  }

  // ---------- An address that does not survive ----------

  const TwoZeros: Address6 := [1, 0, 2, 0, 3, 4, 5, 6]

  /** The address 1:0:2:0:3:4:5:6 is printed with two "::", and that is refused. */
  lemma TwoIsolatedZeros()
    ensures Ntop6(TwoZeros) == "1::2::3:4:5:6" && Pton6("1::2::3:4:5:6") == Invalid
  {
    var g := TwoZeros;
    hide Pton6, PrintFrom, ScanRuns, Marks;
    RoundTrip6(g);
    assert !HasRun(g) && g[1] == 0 && g[3] == 0;
    TwoZerosMarks();
    PrintTwoZeros([-1, 1, -1, 1, -1, -1, -1, -1]);
  }

  lemma TwoZerosMarks()
    ensures Marks(TwoZeros) == [-1, 1, -1, 1, -1, -1, -1, -1]
    ensures ScanRuns(TwoZeros, 8).max == 1 && ScanRuns(TwoZeros, 8).maxpos == -1
  {
    var g := TwoZeros;
    hide ScanRuns, Marks;
    RunsMeaning(g, 8);
    RunIsMarked(g);
    ShortRuns(g);
  }

  lemma RunIsMarked(g: Address6)
    ensures ScanRuns(g, 8).max > 1 <==> HasRun(g)
  {
    RunsMeaning(g, 8);
    if ScanRuns(g, 8).max > 1 {
      LongRun(g);
      assert AdjacentZeros(g, ScanRuns(g, 8).maxpos - ScanRuns(g, 8).max + 1);
    } else {
      ShortRuns(g);
    }
  }

  lemma PrintTwoZeros(m: seq<int>)
    requires m == [-1, 1, -1, 1, -1, -1, -1, -1]
    ensures PrintFrom(TwoZeros, m, 1, 0) == "1::2::3:4:5:6"
  {
    var g := TwoZeros;
    SmallHex();
    LastFour(g);
    hide Hex, PrintFrom;
    assert Hexes(g, 0, 1) == "1" && Hexes(g, 2, 3) == "2";
    hide Hexes;
    PrintPlain(g, m, 1, 4, 8);
    PrintEnd(g, m, 1);
    RunOfOne(g, m, 3);
    PrintPlain(g, m, 1, 2, 3);
    RunOfOne(g, m, 1);
    PrintPlain(g, m, 1, 0, 1);
    Assembled();
  }

  lemma Assembled()
    ensures "1" + ("::" + ("2" + ("::" + ("3:4:5:6" + "")))) == "1::2::3:4:5:6"
  {
  }

  lemma SmallHex()
    ensures Hex(1) == "1" && Hex(2) == "2" && Hex(3) == "3" && Hex(4) == "4" && Hex(5) == "5" && Hex(6) == "6"
  {
  }

  lemma RunOfOne(g: Address6, m: seq<int>, i: nat)
    requires |m| == 8 && i < 8 && m[i] == 1
    ensures PrintFrom(g, m, 1, i) == "::" + PrintFrom(g, m, 1, i + 1)
  {
  }

  lemma LastFour(g: Address6)
    requires Hex(g[4]) == "3" && Hex(g[5]) == "4" && Hex(g[6]) == "5" && Hex(g[7]) == "6"
    ensures Hexes(g, 4, 8) == "3:4:5:6"
  {
    hide Hex;
    assert Hexes(g, 7, 8) == "6";
    assert Hexes(g, 6, 8) == "5" + ":" + "6";
    assert Hexes(g, 5, 8) == "4" + ":" + "5:6";
    assert Hexes(g, 4, 8) == "3" + ":" + "4:5:6";
  }
}
