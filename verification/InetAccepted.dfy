/** Which texts the address parsers accept, and what they make of them, said by the pieces between the separators. */
module InetAccepted {
  import opened InetText
  import opened InetLimits

  /** The pieces of `t` between the separators; one more than there are separators. */
  function Split(t: string, sep: char): (ps: seq<string>)
    ensures |ps| > 0
  {
    if t == [] then [""]
    else
      var rest := Split(t[1..], sep);
      if t[0] == sep then [""] + rest else [[t[0]] + rest[0]] + rest[1..]
  }

  /** A piece without a separator, and what follows it. */
  lemma {:induction false} SplitFirst(w: string, rest: string, sep: char)
    requires sep !in w && (rest == [] || rest[0] == sep)
    ensures Split(w + rest, sep) == if rest == [] then [w] else [w] + Split(rest[1..], sep)
  {
    if w == [] {
      assert w + rest == rest;
    } else {
      assert w[0] in w && forall c :: c in w[1..] ==> c in w;
      assert (w + rest)[1..] == w[1..] + rest;
      SplitFirst(w[1..], rest, sep);
      assert [w[0]] + w[1..] == w;
      if rest != [] {
        var tail := Split(rest[1..], sep);
        assert ([w[1..]] + tail)[1..] == tail;
      }
    }
  }

  lemma {:induction false} SplitCounts(t: string)
    ensures |Split(t, ':')| == ColonCount(t) + 1
  {
    if t != [] {
      SplitCounts(t[1..]);
    }
  }

  // ---------- IPv4 ----------

  predicate Decimals(t: string) {
    forall i :: 0 <= i < |t| ==> IsDecimal(t[i])
  }

  /** What the digits are worth when `n` is what the digits before them are worth. */
  function DecValue(n: nat, t: string): nat
    requires Decimals(t)
    decreases |t|
  {
    if t == [] then n else DecValue(10 * n + (t[0] - '0') as nat, t[1..])
  }

  /** Decimal digits, at least one and with any number of leading zeros, worth at most 255. */
  predicate IsByteText(t: string) {
    t != [] && Decimals(t) && DecValue(0, t) <= 255
  }

  function ByteValue(t: string): u8
    requires IsByteText(t)
  {
    DecValue(0, t)
  }

  lemma {:induction false} DecValueGrows(n: nat, t: string)
    requires Decimals(t)
    ensures DecValue(n, t) >= n
    decreases |t|
  {
    if t != [] {
      DecValueGrows(10 * n + (t[0] - '0') as nat, t[1..]);
    }
  }

  /** Where the first character that is no decimal digit is. */
  function DigitRun(t: string): (n: nat)
    ensures n <= |t| && (forall i :: 0 <= i < n ==> IsDecimal(t[i])) && (n < |t| ==> !IsDecimal(t[n]))
  {
    if t == [] || !IsDecimal(t[0]) then 0 else 1 + DigitRun(t[1..])
  }

  /** The parser in the middle of a byte that has had a digit. */
  lemma {:induction false} ReadsDigits(tmp: seq<u8>, last: u8, d: string, rest: string)
    requires 1 <= |tmp| <= 4 && tmp[|tmp| - 1] == last && Decimals(d)
    ensures var v := DecValue(last, d);
            Run4(State4(tmp, |tmp|, true), d + rest)
            == if v > 255 then Invalid else Run4(State4(tmp[|tmp| - 1 := v], |tmp|, true), rest)
    decreases |d|
  {
    if d == [] {
      assert d + rest == rest && tmp[|tmp| - 1 := last] == tmp;
    } else {
      assert (d + rest)[1..] == d[1..] + rest;
      var v := 10 * last + (d[0] - '0') as nat;
      DecValueGrows(v, d[1..]);
      if v <= 255 {
        var next := tmp[|tmp| - 1 := v];
        ReadsDigits(next, v, d[1..], rest);
        var w := DecValue(v, d[1..]);
        assert w <= 255 ==> next[|tmp| - 1 := w] == tmp[|tmp| - 1 := w];
      }
    }
  }

  /** The parser at the start of a byte: digits up to the next other character. */
  lemma ReadsPiece(tmp: seq<u8>, d: string, rest: string)
    requires 1 <= |tmp| <= 4 && tmp[|tmp| - 1] == 0 && d != [] && Decimals(d)
    ensures var v := DecValue(0, d);
            Run4(State4(tmp, |tmp| - 1, false), d + rest)
            == if v > 255 then Invalid else Run4(State4(tmp[|tmp| - 1 := v], |tmp|, true), rest)
  {
    assert (d + rest)[1..] == d[1..] + rest;
    var v: u8 := (d[0] - '0') as int;
    var next := tmp[|tmp| - 1 := v];
    ReadsDigits(next, v, d[1..], rest);
    var w := DecValue(v, d[1..]);
    assert w <= 255 ==> next[|tmp| - 1 := w] == tmp[|tmp| - 1 := w];
  }

  /** The parser reads a piece if it is a byte, and refuses it otherwise. */
  lemma ReadsWhole(tmp: seq<u8>, w: string, rest: string)
    requires 1 <= |tmp| <= 4 && tmp[|tmp| - 1] == 0 && '.' !in w && (rest == [] || rest[0] == '.')
    ensures Run4(State4(tmp, |tmp| - 1, false), w + rest)
            == if IsByteText(w) then Run4(State4(tmp[|tmp| - 1 := ByteValue(w)], |tmp|, true), rest) else Invalid
  {
    var n := DigitRun(w);
    var d, other := w[..n], w[n..];
    if n == |w| {
      assert d == w;
      if w != [] {
        ReadsPiece(tmp, w, rest);
      } else {
        assert w + rest == rest;
      }
    } else {
      assert w[n] in w && !Decimals(w);
      assert w + rest == d + (other + rest) && (other + rest)[0] == w[n];
      if n > 0 {
        ReadsPiece(tmp, d, other + rest);
      }
    }
  }

  /** Behind a piece the parser ends, or goes on behind a dot if bytes are missing. */
  lemma AfterPiece(tmp: seq<u8>, rest: string)
    requires 1 <= |tmp| <= 4 && (rest == [] || rest[0] == '.')
    ensures Run4(State4(tmp, |tmp|, true), rest)
            == if rest == [] then if |tmp| == 4 then Ok(tmp) else Invalid
               else if |tmp| == 4 then Invalid else Run4(State4(tmp + [0], |tmp|, false), rest[1..])
  {
  }

  /** The pieces are bytes. */
  predicate ByteTexts(ps: seq<string>) {
    forall i :: 0 <= i < |ps| ==> IsByteText(ps[i])
  }

  function ByteValues(ps: seq<string>): (b: seq<u8>)
    requires ByteTexts(ps)
    ensures |b| == |ps|
  {
    seq(|ps|, i requires 0 <= i < |ps| => ByteValue(ps[i]))
  }

  /** The bytes so far, and those of the pieces, if they make four. */
  function Completed(done: seq<u8>, ps: seq<string>): Parsed<Address4> {
    if |done| + |ps| == 4 && ByteTexts(ps) then Ok(done + ByteValues(ps)) else Invalid
  }

  lemma JoinValues(w: string, ps: seq<string>)
    ensures ByteTexts([w] + ps) <==> IsByteText(w) && ByteTexts(ps)
    ensures ByteTexts([w] + ps) ==> ByteValues([w] + ps) == [ByteValue(w)] + ByteValues(ps)
  {
    hide IsByteText, ByteValue;
    assert ([w] + ps)[0] == w && ([w] + ps)[1..] == ps;
    if ByteTexts([w] + ps) {
      assert forall i :: 0 <= i < |ps| ==> ps[i] == ([w] + ps)[i + 1];
    }
  }

  lemma CompletedNext(done: seq<u8>, w: string, ps: seq<string>)
    ensures Completed(done, [w] + ps) == if IsByteText(w) then Completed(done + [ByteValue(w)], ps) else Invalid
  {
    hide IsByteText, ByteValue;
    JoinValues(w, ps);
    assert ByteTexts([w] + ps) ==>
        done + ByteValues([w] + ps) == done + [ByteValue(w)] + ByteValues(ps);
  }

  /** The parser at the start of a byte accepts exactly as many pieces as bytes are missing. */
  lemma {:induction false} ReadsPieces(done: seq<u8>, t: string)
    requires |done| <= 3
    ensures Run4(State4(done + [0], |done|, false), t) == Completed(done, Split(t, '.'))
    decreases |t|
  {
    hide Run4, IsByteText, ByteValue, Completed, Split;
    var tmp := done + [0];
    var n := Find(t, '.');
    var w, rest := t[..n], t[n..];
    assert t == w + rest;
    SplitFirst(w, rest, '.');
    ReadsWhole(tmp, w, rest);
    if IsByteText(w) {
      var next := done + [ByteValue(w)];
      assert tmp[|done| := ByteValue(w)] == next;
      AfterPiece(next, rest);
      if rest == [] {
        CompletedNext(done, w, []);
        CompletedAll(next);
        assert [w] + [] == [w];
      } else {
        var ps := Split(rest[1..], '.');
        CompletedNext(done, w, ps);
        if |done| < 3 {
          ReadsPieces(next, rest[1..]);
        } else {
          TooMany(next, ps);
        }
      }
    } else {
      CompletedNext(done, w, if rest == [] then [] else Split(rest[1..], '.'));
      assert [w] + [] == [w];
    }
  }

  lemma CompletedAll(done: seq<u8>)
    ensures Completed(done, []) == if |done| == 4 then Ok(done) else Invalid
  {
    assert done + ByteValues([]) == done;
  }

  lemma TooMany(done: seq<u8>, ps: seq<string>)
    requires |done| == 4 && |ps| > 0
    ensures Completed(done, ps) == Invalid
  {
  }

  /** Exactly the texts of four bytes between dots are accepted, and each as its bytes. */
  lemma Accepts4(t: string)
    ensures var ps := Split(t, '.');
            Pton4(t) == if |ps| == 4 && ByteTexts(ps) then Ok(ByteValues(ps)) else Invalid
  {
    ReadsPieces([], t);
    var ps := Split(t, '.');
    assert [] + [0] == [0];
    assert ByteTexts(ps) ==> [] + ByteValues(ps) == ByteValues(ps);
  }
}
