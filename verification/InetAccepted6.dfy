/** Which texts the IPv6 parser accepts without a dotted tail, and which groups it writes over. */
module InetAccepted6 {
  import opened InetText
  import opened InetLimits
  import opened InetAccepted

  // ---------- Words ----------

  /** All of the piece is one word for the scanner. */
  predicate IsWord(w: string) {
    ScanWord(w).Match? && ScanWord(w).used == |w|
  }

  function WordValue(w: string): u16
    requires IsWord(w)
  {
    ScanWord(w).word
  }

  predicate Words(ps: seq<string>) {
    forall i :: 0 <= i < |ps| ==> IsWord(ps[i])
  }

  lemma {:induction false} HexRunLocal(w: string, rest: string)
    requires rest == [] || rest[0] == ':'
    ensures HexRun(w + rest) == HexRun(w)
  {
    if w == [] {
      assert w + rest == rest;
    } else {
      assert (w + rest)[1..] == w[1..] + rest;
      HexRunLocal(w[1..], rest);
    }
  }

  lemma {:induction false} SpaceRunLocal(w: string, rest: string)
    requires rest == [] || rest[0] == ':'
    ensures SpaceRun(w + rest) == SpaceRun(w)
  {
    if w == [] {
      assert w + rest == rest;
    } else {
      assert (w + rest)[1..] == w[1..] + rest;
      SpaceRunLocal(w[1..], rest);
    }
  }

  lemma ScanAtLocal(w: string, rest: string, start: nat, negative: bool)
    requires start <= |w| && (rest == [] || rest[0] == ':')
    ensures ScanAt(w + rest, start, negative) == ScanAt(w, start, negative)
  {
    hide HexNumber;
    assert (w + rest)[start..] == w[start..] + rest;
    HexRunLocal(w[start..], rest);
    var n := HexRun(w[start..]);
    assert (w + rest)[start..start + n] == w[start..start + n];
  }

  /** A colon ends a word: the scanner sees nothing of what is behind it. */
  lemma ScanLocal(w: string, rest: string)
    requires rest == [] || rest[0] == ':'
    ensures ScanWord(w + rest) == ScanWord(w)
  {
    hide ScanAt;
    SpaceRunLocal(w, rest);
    var space := SpaceRun(w);
    var sign := if At(w, space) == '+' || At(w, space) == '-' then 1 else 0;
    var start := space + sign;
    var prefix := if At(w, start) == '0' && (At(w, start + 1) == 'x' || At(w, start + 1) == 'X') then 2 else 0;
    ScanAtLocal(w, rest, start + prefix, At(w, space) == '-');
  }

  lemma EmptyIsNoWord()
    ensures !IsWord("")
  {
  }

  // ---------- Groups ----------

  /** `g` with the words' values from group `k` on. */
  function Put(g: Address6, k: nat, ps: seq<string>): Address6
    requires k + |ps| <= 8 && Words(ps)
    decreases |ps|
  {
    if ps == [] then g else Put(g[k := WordValue(ps[0])], k + 1, ps[1..])
  }

  lemma {:induction false} PutAt(g: Address6, k: nat, ps: seq<string>, i: nat)
    requires k + |ps| <= 8 && Words(ps) && i < 8
    ensures Put(g, k, ps)[i] == if k <= i < k + |ps| then WordValue(ps[i - k]) else g[i]
    decreases |ps|
  {
    hide IsWord, WordValue;
    if ps != [] {
      PutAt(g[k := WordValue(ps[0])], k + 1, ps[1..], i);
    }
  }

  /** The words fill the groups from `k` to the end. */
  function Filled6(g: Address6, k: nat, ps: seq<string>): Parsed<Address6> {
    if k + |ps| == 8 && Words(ps) then Ok(Put(g, k, ps)) else Invalid
  }

  lemma Filled6Next(g: Address6, k: nat, w: string, ps: seq<string>)
    requires k < 8
    ensures Filled6(g, k, [w] + ps) == if IsWord(w) then Filled6(g[k := WordValue(w)], k + 1, ps) else Invalid
  {
    hide IsWord, WordValue;
    assert ([w] + ps)[0] == w && ([w] + ps)[1..] == ps;
    assert Words([w] + ps) <==> IsWord(w) && Words(ps) by {
      if Words([w] + ps) {
        assert forall i :: 0 <= i < |ps| ==> ps[i] == ([w] + ps)[i + 1];
      }
    }
  }

  lemma EmptyPieceFails(g: Address6, k: nat, ps: seq<string>)
    requires "" in ps
    ensures Filled6(g, k, ps) == Invalid
  {
    EmptyIsNoWord();
    hide IsWord;
  }

  lemma TooMany6(g: Address6, ps: seq<string>)
    requires |ps| > 0
    ensures Filled6(g, 8, ps) == Invalid
  {
  }

  // ---------- The loop ----------

  /** One word and what follows it: it is read whole or refused. */
  lemma LoopWord(w: string, rest: string, k: nat, g: Address6, seen: bool)
    requires w != [] && ':' !in w && '\0' !in w && (rest == [] || rest[0] == ':') && k < 8
    ensures Loop(w + rest, k, g, seen)
            == if IsWord(w) then Loop(rest, k + 1, g[k := WordValue(w)], seen) else Invalid
  {
    ScanLocal(w, rest);
    var t := w + rest;
    assert t[0] == w[0] && w[0] in w;
    if ScanWord(w).Match? {
      var used := ScanWord(w).used;
      if used < |w| {
        assert At(t, used) == w[used] && w[used] in w;
      } else {
        assert t[used..] == rest;
      }
    }
    hide ScanWord;
  }

  /** Behind a word: the end, or a colon and more. */
  lemma LoopColon(rest: string, k: nat, g: Address6)
    requires k <= 8 && (rest == [] || rest[0] == ':')
    ensures Loop(rest, k, g, true)
            == if rest == [] then if k == 8 then Ok(g) else Invalid
               else if k == 8 || At(rest, 1) == ':' || |rest| == 1 then Invalid
               else Loop(rest[1..], k, g, true)
  {
    hide ScanWord;
    if |rest| == 1 { assert rest[1..] == []; }
  }

  /** Behind the "::" the loop accepts exactly as many words as groups are left. */
  lemma {:induction false} ReadsWords(t: string, k: nat, g: Address6)
    requires k <= 8 && t != [] && t[0] != ':' && '\0' !in t
    ensures Loop(t, k, g, true) == Filled6(g, k, Split(t, ':'))
    decreases |t|
  {
    hide Loop, IsWord, WordValue, Filled6, Split;
    var n := Find(t, ':');
    var w, rest := t[..n], t[n..];
    assert t == w + rest;
    SplitFirst(w, rest, ':');
    if k == 8 {
      NoGroupLeft(t, g);
      TooMany6(g, Split(t, ':'));
    } else {
      LoopWord(w, rest, k, g, true);
      var ps := if rest == [] then [] else Split(rest[1..], ':');
      assert [w] + [] == [w];
      Filled6Next(g, k, w, ps);
      if IsWord(w) {
        var next := g[k := WordValue(w)];
        LoopColon(rest, k + 1, next);
        if rest == [] {
          NothingLeft(next, k + 1);
        } else if At(rest, 1) == ':' || |rest| == 1 {
          EmptyFirst(rest[1..]);
          EmptyPieceFails(next, k + 1, ps);
        } else if k + 1 == 8 {
          TooMany6(next, ps);
        } else {
          ReadsWords(rest[1..], k + 1, next);
        }
      }
    }
  }

  lemma NoGroupLeft(t: string, g: Address6)
    requires t != []
    ensures Loop(t, 8, g, true) == Invalid
  {
  }

  lemma NothingLeft(g: Address6, k: nat)
    ensures Filled6(g, k, []) == if k == 8 then Ok(g) else Invalid
  {
  }

  /** A text that is empty or starts with a colon has an empty first piece. */
  lemma EmptyFirst(t: string)
    requires t == [] || t[0] == ':'
    ensures "" in Split(t, ':')
  {
    assert Split(t, ':')[0] == "";
  }

  // ---------- The whole text ----------

  function Pieces(t: string): seq<string> {
    if t == [] then [] else Split(t, ':')
  }

  /** The words in front of the "::" go to the groups from `k` on, and then those behind it to the last groups. */
  function Joined(g: Address6, k: nat, hs: seq<string>, ts: seq<string>): Parsed<Address6> {
    if k + |hs| <= 7 && |ts| <= 8 && Words(hs) && Words(ts) then Ok(Put(Put(g, k, hs), 8 - |ts|, ts)) else Invalid
  }

  /** What a text means from group `k` on, by its pieces before and behind the first "::". */
  function Meaning(t: string, k: nat, g: Address6): Parsed<Address6> {
    var p := FirstDouble(t);
    if p == |t| then Filled6(g, k, Pieces(t)) else Joined(g, k, Pieces(t[..p]), Pieces(t[p + 2..]))
  }

  /** The same address, or none in both. */
  predicate Agrees(a: Parsed<Address6>, b: Parsed<Address6>) {
    if b.Ok? then a == b else !a.Ok?
  }

  lemma JoinedNext(g: Address6, k: nat, w: string, hs: seq<string>, ts: seq<string>)
    requires k < 8
    ensures Joined(g, k, [w] + hs, ts) == if IsWord(w) then Joined(g[k := WordValue(w)], k + 1, hs, ts) else Invalid
  {
    hide IsWord, WordValue;
    assert ([w] + hs)[0] == w && ([w] + hs)[1..] == hs;
    if Words([w] + hs) {
      assert forall i :: 0 <= i < |hs| ==> hs[i] == ([w] + hs)[i + 1];
    }
  }

  lemma JoinedFails(g: Address6, k: nat, hs: seq<string>, ts: seq<string>)
    requires k + |hs| > 7 || |ts| > 8 || "" in ts || "" in hs
    ensures Joined(g, k, hs, ts) == Invalid
  {
    EmptyIsNoWord();
    hide IsWord;
  }

  lemma {:induction false} InFrontFails(t: string, k: int, g: Address6)
    requires k < 0
    ensures !Loop(t, k, g, true).Ok?
    decreases |t|
  {
    hide ScanWord;
    if t != [] && t[0] == ':' && At(t, 1) != ':' {
      InFrontFails(t[1..], k, g);
    }
  }

  /** The "::" and what is behind it. */
  lemma ReadsTail(t: string, k: nat, g: Address6)
    requires k < 8 && '\0' !in t
    ensures Agrees(Loop("::" + t, k, g, false), Joined(g, k, [], Pieces(t)))
  {
    hide Loop, IsWord, WordValue, Split, Put;
    ReadDouble(t, k, g);
    PutNothing(g, k);
    if t == [] {
      PutNothing(g, 8);
    } else {
      var c: int := ColonCount(t);
      SplitCounts(t);
      if c > 7 {
        var k' := 7 - c;
        InFrontFails(t, k', g);
        JoinedFails(g, k, [], Split(t, ':'));
      } else if t[0] == ':' {
        EmptyFirst(t);
        JoinedFails(g, k, [], Split(t, ':'));
        LoopColon(t, 7 - c, g);
        ColonFirst(t);
        if |t| > 1 && At(t, 1) != ':' {
          ReadsWords(t[1..], 7 - c, g);
          SplitCounts(t[1..]);
        }
      } else {
        ReadsWords(t, 7 - c, g);
      }
    }
  }

  lemma ColonFirst(t: string)
    requires t != [] && t[0] == ':'
    ensures ColonCount(t) == 1 + ColonCount(t[1..])
  {
  }

  lemma PutNothing(g: Address6, k: nat)
    requires k <= 8
    ensures Put(g, k, []) == g
  {
  }

  /** Behind a word, before the "::" has come. */
  lemma LoopGoesOn(rest: string, k: nat, g: Address6)
    requires k <= 8 && (rest == [] || (rest[0] == ':' && At(rest, 1) != ':'))
    ensures Loop(rest, k, g, false)
            == if rest == [] then if k == 8 then Ok(g) else Invalid
               else if k == 8 || |rest| == 1 then Invalid
               else Loop(rest[1..], k, g, false)
  {
    hide ScanWord;
    if |rest| == 1 { assert rest[1..] == []; }
  }

  lemma DoubleFirst(t: string)
    requires t != [] && t[0] == ':' && At(t, 1) == ':'
    ensures FirstDouble(t) == 0 && |t| >= 2
  {
  }

  lemma FullFails(t: string, g: Address6)
    requires t != []
    ensures Loop(t, 8, g, false) == Invalid && !Meaning(t, 8, g).Ok?
  {
    hide Words, Put;
  }

  /** Where the "::" of a text is that starts with a word. */
  lemma DoubleBehind(w: string, rest: string)
    requires w != [] && ':' !in w && (rest == [] || rest[0] == ':')
    ensures FirstDouble(w + rest) == |w| + if rest == [] || At(rest, 1) == ':' then 0 else 1 + FirstDouble(rest[1..])
  {
    PastWord(w + rest, |w|);
    assert (w + rest)[|w|..] == rest;
  }

  /** The pieces of a text that starts with a word. */
  lemma FirstPiece(w: string, rest: string)
    requires w != [] && ':' !in w && (rest == [] || rest[0] == ':')
    ensures Pieces(w + rest) == [w] + if rest == [] then [] else Split(rest[1..], ':')
  {
    hide Split;
    SplitFirst(w, rest, ':');
  }

  /** The "::" comes right behind the word, or there is nothing behind it. */
  lemma MeaningClose(w: string, rest: string, k: nat, g: Address6)
    requires w != [] && ':' !in w && k < 8 && (rest == [] || (rest[0] == ':' && At(rest, 1) == ':'))
    ensures Meaning(w + rest, k, g) == if IsWord(w) then Meaning(rest, k + 1, g[k := WordValue(w)]) else Invalid
  {
    hide IsWord, WordValue, Filled6, Joined, Split, FirstDouble;
    var t := w + rest;
    DoubleBehind(w, rest);
    FirstPiece(w, []);
    assert w + [] == w && [w] + [] == [w];
    if rest == [] {
      Filled6Next(g, k, w, []);
      assert FirstDouble([]) == 0 by { NoDouble(); }
    } else {
      DoubleFirst(rest);
      assert t[..|w|] == w && t[|w| + 2..] == rest[2..] && rest[..0] == [];
      JoinedNext(g, k, w, [], Pieces(rest[2..]));
    }
  }

  lemma NoDouble()
    ensures FirstDouble([]) == 0
  {
  }

  /** A single colon comes behind the word. */
  lemma MeaningFar(w: string, u: string, k: nat, g: Address6)
    requires w != [] && ':' !in w && k < 8 && (u == [] || u[0] != ':')
    ensures Meaning(w + (":" + u), k, g)
            == if u != [] && IsWord(w) then Meaning(u, k + 1, g[k := WordValue(w)]) else Invalid
  {
    hide IsWord, WordValue, Filled6, Joined, Split, FirstDouble;
    var rest := ":" + u;
    var t := w + rest;
    assert rest[1..] == u && At(rest, 1) == At(u, 0);
    DoubleBehind(w, rest);
    var q := FirstDouble(u);
    if u == [] {
      NoDouble();
      FirstPiece(w, rest);
      EmptyFirst(u);
      Filled6Next(g, k, w, Split(u, ':'));
      if IsWord(w) { EmptyPieceFails(g[k := WordValue(w)], k + 1, Split(u, ':')); }
    } else if q == |u| {
      FirstPiece(w, rest);
      Filled6Next(g, k, w, Split(u, ':'));
    } else {
      LaterDouble(u);
      var head := ":" + u[..q];
      assert t[..|w| + 1 + q] == w + head && t[|w| + 1 + q + 2..] == u[q + 2..] && head[1..] == u[..q];
      FirstPiece(w, head);
      JoinedNext(g, k, w, Split(u[..q], ':'), Pieces(u[q + 2..]));
    }
  }

  lemma LaterDouble(u: string)
    requires u != [] && u[0] != ':'
    ensures FirstDouble(u) > 0
  {
  }

  /** The loop reads a text that starts with a word, or with "::", as its pieces say. */
  lemma {:induction false} ReadsText(t: string, k: nat, g: Address6)
    requires k <= 8 && '\0' !in t && (t == [] || t[0] != ':' || At(t, 1) == ':')
    ensures Agrees(Loop(t, k, g, false), Meaning(t, k, g))
    decreases |t|, 1
  {
    hide Loop, IsWord, WordValue, Filled6, Joined, Split, FirstDouble;
    if t == [] {
      LoopGoesOn(t, k, g);
      NothingLeft(g, k);
      assert FirstDouble(t) == 0;
    } else if k == 8 {
      FullFails(t, g);
    } else if t[0] == ':' {
      DoubleFirst(t);
      assert t == "::" + t[2..] && t[..0] == [];
      ReadsTail(t[2..], k, g);
    } else {
      ReadsWord(t, k, g);
    }
  }

  lemma {:induction false} ReadsWord(t: string, k: nat, g: Address6)
    requires k < 8 && '\0' !in t && t != [] && t[0] != ':'
    ensures Agrees(Loop(t, k, g, false), Meaning(t, k, g))
    decreases |t|, 0
  {
    hide Loop, IsWord, WordValue, Meaning;
    var n := Find(t, ':');
    var w, rest := t[..n], t[n..];
    assert t == w + rest;
    LoopWord(w, rest, k, g, false);
    if rest == [] || At(rest, 1) == ':' {
      MeaningClose(w, rest, k, g);
      if IsWord(w) {
        ReadsText(rest, k + 1, g[k := WordValue(w)]);
      }
    } else {
      assert rest == ":" + rest[1..];
      MeaningFar(w, rest[1..], k, g);
      if IsWord(w) {
        var next := g[k := WordValue(w)];
        LoopGoesOn(rest, k + 1, next);
        if |rest| > 1 {
          ReadsText(rest[1..], k + 1, next);
          if k + 1 == 8 { FullFails(rest[1..], next); }
        }
      }
    }
  }

  // ---------- What the parser accepts ----------

  /** The text without one leading colon: the loop skips it. */
  function Skipped(t: string): string {
    if t != [] && t[0] == ':' && At(t, 1) != ':' then t[1..] else t
  }

  /** A text without a dotted tail is accepted exactly when it has no 'x' and its pieces are words: eight, or, around a
      "::", at most seven in front and eight behind. The words behind the "::" are the last groups, those in front the
      first, and the other groups are zero. */
  lemma Accepts6(t: string)
    requires '\0' !in t && !DottedForm(t)
    ensures Agrees(Pton6(t), if 'x' in t then Invalid else Meaning(Skipped(t), 0, ZERO6))
  {
    hide Loop, Meaning;
    if 'x' !in t {
      var u := Skipped(t);
      if u != t {
        SkipsColon(t);
      }
      ReadsText(u, 0, ZERO6);
    }
  }

  lemma SkipsColon(t: string)
    requires t != [] && t[0] == ':' && At(t, 1) != ':'
    ensures Loop(t, 0, ZERO6, false) == Loop(t[1..], 0, ZERO6, false)
  {
  }

  /** A dotted tail is accepted exactly when there is no 'x' and it is four bytes between dots, alone or behind a colon
      and a word of four characters that is worth 0xFFFF; what else is between that word and the colon does not
      matter. */
  lemma AcceptsDotted(t: string)
    requires DottedForm(t)
    ensures var tail := t[2..];
            var p := Find(tail, ':');
            var bytes := Split(if p < |tail| then tail[p + 1..] else tail, '.');
            Pton6(t) == if 'x' !in t && (p < |tail| ==> ScanWord(tail) == Match(0xFFFF, 4))
                           && |bytes| == 4 && ByteTexts(bytes)
                        then Ok(WithV4(if p < |tail| then 0xFFFF else 0, ByteValues(bytes))) else Invalid
  {
    hide ScanWord, Pton4, Split, ByteTexts, WithV4;
    var tail := t[2..];
    var p := Find(tail, ':');
    Accepts4(if p < |tail| then tail[p + 1..] else tail);
  }

  // ---------- Groups that are lost ----------

  /** Of an accepted text with a "::", the words in front and behind. */
  ghost predicate Around(t: string, hs: seq<string>, ts: seq<string>) {
    var u := Skipped(t);
    var p := FirstDouble(u);
    p < |u| && hs == Pieces(u[..p]) && ts == Pieces(u[p + 2..])
  }

  /** The `j`-th word in front of the "::" is written over by one from behind. */
  ghost predicate Lost(hs: seq<string>, ts: seq<string>, j: int) {
    8 - |ts| <= j < |hs|
  }

  /** The words behind the "::" are written over those in front. Groups are lost exactly when there are more than eight
      of both: when the groups in front and the colons behind exceed seven. */
  lemma LostGroups(t: string, hs: seq<string>, ts: seq<string>, i: nat)
    requires '\0' !in t && !DottedForm(t) && Pton6(t).Ok? && Around(t, hs, ts) && i < 8
    ensures |hs| <= 7 && |ts| <= 8 && Words(hs) && Words(ts)
    ensures Pton6(t).address[i] == if i >= 8 - |ts| then WordValue(ts[i - (8 - |ts|)])
                                   else if i < |hs| then WordValue(hs[i]) else 0
    ensures (exists j :: Lost(hs, ts, j)) <==> |hs| + |ts| > 8
    ensures ts != [] ==> |ts| == ColonCount(Skipped(t)[FirstDouble(Skipped(t)) + 2..]) + 1
  {
    hide Pton6, IsWord, WordValue, Put, Split, FirstDouble;
    Accepts6(t);
    PutAt(ZERO6, 0, hs, i);
    PutAt(Put(ZERO6, 0, hs), 8 - |ts|, ts, i);
    SplitCounts(Skipped(t)[FirstDouble(Skipped(t)) + 2..]);
    assert |hs| + |ts| > 8 ==> Lost(hs, ts, |hs| - 1);
  }

  /** Groups `0` up to `k` of `a`, a "::", and groups `m` up to the end of `b`: those of `b` win. */
  lemma Overwrites(a: Address6, k: nat, b: Address6, m: nat)
    requires k < 8 && m < 8
    ensures Loop(Hexes(a, 0, k) + ("::" + Hexes(b, m, 8)), 0, ZERO6, false)
            == Ok(Filled(Filled(ZERO6, a, 0, k), b, m, 8))
  {
    hide Loop, Hexes;
    var rest := Hexes(b, m, 8);
    var g := Filled(ZERO6, a, 0, k);
    ReadPrefix(a, k, "::" + rest);
    ReadDouble(rest, k, g);
    HexesStart(b, m, 8);
    HexesColons(b, m, 8);
    assert rest + [] == rest;
    ReadHexes(b, m, 8, [], g, true);
    LoopEnd(Filled(g, b, m, 8), true);
  }

  /** Nine groups are accepted, and the fifth is lost. */
  lemma FifthIsLost()
    ensures Pton6("1:2:3:4:5::6:7:8:9") == Ok([1, 2, 3, 4, 6, 7, 8, 9])
  {
    hide Pton6, Loop, Hexes;
    var a: Address6 := [1, 2, 3, 4, 5, 0, 0, 0];
    var b: Address6 := [0, 0, 0, 0, 6, 7, 8, 9];
    var t := "1:2:3:4:5::6:7:8:9";
    Overwrites(a, 5, b, 4);
    FirstFive(a);
    LastOfNine(b);
    assert t == "1:2:3:4:5" + ("::" + "6:7:8:9");
    assert Filled(Filled(ZERO6, a, 0, 5), b, 4, 8) == [1, 2, 3, 4, 6, 7, 8, 9];
    PlainIsLoop(t);
  }

  lemma FirstFive(a: Address6)
    requires a[..5] == [1, 2, 3, 4, 5]
    ensures Hexes(a, 0, 5) == "1:2:3:4:5"
  {
    assert a[..5][0] == 1 && a[..5][1] == 2 && a[..5][2] == 3 && a[..5][3] == 4 && a[..5][4] == 5;
    SmallHex();
    hide Hex;
    assert Hexes(a, 4, 5) == "5";
    assert Hexes(a, 3, 5) == "4" + ":" + "5";
    assert Hexes(a, 2, 5) == "3" + ":" + "4:5";
    assert Hexes(a, 1, 5) == "2" + ":" + "3:4:5";
    assert Hexes(a, 0, 5) == "1" + ":" + "2:3:4:5";
  }

  lemma LastOfNine(b: Address6)
    requires b[4..] == [6, 7, 8, 9]
    ensures Hexes(b, 4, 8) == "6:7:8:9"
  {
    assert b[4..][0] == 6 && b[4..][1] == 7 && b[4..][2] == 8 && b[4..][3] == 9;
    assert Hex(6) == "6" && Hex(7) == "7" && Hex(8) == "8" && Hex(9) == "9";
    hide Hex;
    assert Hexes(b, 7, 8) == "9";
    assert Hexes(b, 6, 8) == "8" + ":" + "9";
    assert Hexes(b, 5, 8) == "7" + ":" + "8:9";
    assert Hexes(b, 4, 8) == "6" + ":" + "7:8:9";
  }
}
