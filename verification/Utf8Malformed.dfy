/** What the decoder makes of bytes that are not UTF-8. */
module Utf8Malformed {
  import opened Utf8

  // ---------- Malformed bytes do no harm to what follows ----------

  lemma TurnStays(a: seq<bv8>, t: seq<bv8>)
    requires a != [] && (t == [] || !IsTrail(t[0]))
    ensures TakeTurn(a + t).used <= |a|
  {
    hide IsTrail;
    var d := a + t;
    var n := TrailCount(d[0]);
    assert t != [] ==> d[1..][|a| - 1] == t[0];
  }

  lemma {:induction false} Resumes(a: seq<bv8>, t: seq<bv8>)
    requires t == [] || !IsTrail(t[0])
    ensures exists u: seq<bv16> :: |u| <= |a| && Decode(a + t) == u + Decode(t)
    decreases |a|
  {
    hide TakeTurn, IsTrail;
    if a == [] {
      assert a + t == t && [] + Decode(t) == Decode(t);
    } else {
      TurnStays(a, t);
      var turn := TakeTurn(a + t);
      assert (a + t)[turn.used..] == a[turn.used..] + t;
      Resumes(a[turn.used..], t);
      var u: seq<bv16> :| |u| <= |a[turn.used..]| && Decode(a[turn.used..] + t) == u + Decode(t);
      assert turn.units + (u + Decode(t)) == (turn.units + u) + Decode(t);
    }
  }

  lemma StartsText(cp: bv32)
    requires cp <= 0x10FFFF
    ensures !IsTrail(Utf8Char(cp)[0])
  {
  }

  /** Whatever bytes are in front of a text, all of the text is decoded, and so is what is behind it. */
  lemma NothingLost(a: seq<bv8>, s: Text, rest: seq<bv8>)
    requires s != []
    ensures exists u: seq<bv16> :: |u| <= |a|
                                   && Decode(a + (Utf8Text(s) + rest)) == u + (Utf16Text(s) + Decode(rest))
  {
    hide Utf8Char, IsTrail, Decode;
    StartsText(s[0]);
    assert (Utf8Text(s) + rest)[0] == Utf8Char(s[0])[0];
    Resumes(a, Utf8Text(s) + rest);
    DecodeText(s, rest);
  }

  // ---------- What becomes of malformed bytes ----------

  /** How many continuation bytes a lead byte announces. */
  predicate Announces(lead: bv8, n: nat) {
    || (n == 1 && 0xC0 <= lead < 0xE0)
    || (n == 2 && 0xE0 <= lead < 0xF0)
    || (n == 3 && 0xF0 <= lead < 0xF8)
    || (n == 4 && 0xF8 <= lead < 0xFC)
    || (n == 5 && 0xFC <= lead < 0xFE)
  }

  lemma AnnouncesExactly(lead: bv8, n: nat)
    ensures Announces(lead, n) ==> TrailCount(lead) == n && lead & 0x80 != 0 && 1 <= n <= 5
    ensures lead < 0x80 <==> lead & 0x80 == 0
    ensures 0x80 <= lead < 0xC0 || 0xFE <= lead ==> TrailCount(lead) == 0
  {
  }

  /** A byte that no form starts with is replaced. */
  lemma StraysReplaced(b: bv8, rest: seq<bv8>)
    requires 0x80 <= b < 0xC0 || 0xFE <= b
    ensures Decode([b] + rest) == [REPLACEMENT] + Decode(rest)
  {
    hide TrailCount;
    AnnouncesExactly(b, 0);
    var d := [b] + rest;
    assert d[1..] == rest;
  }

  /** A form broken off by another byte is replaced as one, and goes on with that byte. */
  lemma BrokenReplaced(lead: bv8, n: nat, trails: seq<bv8>, rest: seq<bv8>)
    requires Announces(lead, n) && |trails| < n <= |trails| + |rest| && !IsTrail(rest[0])
    requires forall i :: 0 <= i < |trails| ==> IsTrail(trails[i])
    ensures Decode([lead] + (trails + rest)) == [REPLACEMENT] + Decode(rest)
  {
    hide TrailCount, IsTrail, Announces, GoodTrails;
    AnnouncesExactly(lead, n);
    TrailsCounted(trails, rest, n);
    var d := [lead] + (trails + rest);
    assert d[1..] == trails + rest && d[1 + |trails|..] == rest;
  }

  lemma {:induction false} TrailsCounted(trails: seq<bv8>, rest: seq<bv8>, n: nat)
    requires |trails| < n <= |trails| + |rest| && !IsTrail(rest[0])
    requires forall i :: 0 <= i < |trails| ==> IsTrail(trails[i])
    ensures GoodTrails(trails + rest, n) == |trails|
  {
    hide IsTrail;
    if trails == [] {
      assert trails + rest == rest;
    } else {
      TrailsCounted(trails[1..], rest, n - 1);
      assert (trails + rest)[1..] == trails[1..] + rest;
    }
  }

  /** A form that the end cuts off loses its lead byte only: that is replaced, and then each byte left. */
  lemma CutOffReplaced(lead: bv8, n: nat, rest: seq<bv8>)
    requires Announces(lead, n) && |rest| < n
    ensures Decode([lead] + rest) == [REPLACEMENT] + Decode(rest)
  {
    AnnouncesExactly(lead, n);
    hide TrailCount, Announces;
    var d := [lead] + rest;
    assert d[1..] == rest;
  }

  /** The value of a complete form. */
  function Value(lead: bv8, n: nat, trails: seq<bv8>): bv32
    requires 1 <= n <= 5
  {
    Push(LeadBits(lead, n), trails)
  }

  /** A complete form is the UTF-16 form of its value, overlong or not; values past U+10FFFF are replaced, and so are
      surrogates, but for those in three bytes. */
  lemma CompleteForm(lead: bv8, n: nat, trails: seq<bv8>, rest: seq<bv8>)
    requires Announces(lead, n) && |trails| == n && forall i :: 0 <= i < n ==> IsTrail(trails[i])
    ensures var v := Value(lead, n, trails);
            Decode([lead] + (trails + rest))
            == (if v > 0x10FFFF || (n != 2 && 0xD800 <= v < 0xE000) then [REPLACEMENT] else Utf16Char(v)) + Decode(rest)
  {
    hide TrailCount, IsTrail, Announces, Push, LeadBits, UnitsOf, Utf16Char;
    AnnouncesExactly(lead, n);
    var d := [lead] + (trails + rest);
    assert d[1..1 + n] == trails && d[1 + n..] == rest;
    assert forall i :: 0 <= i < n ==> d[1..][i] == trails[i];
    UnitsMean(Value(lead, n, trails), n);
  }

  lemma UnitsMean(v: bv32, n: nat)
    ensures UnitsOf(v, n)
            == if v > 0x10FFFF || (n != 2 && 0xD800 <= v < 0xE000) then [REPLACEMENT] else Utf16Char(v)
  {
    if 0x10000 <= v <= 0x10FFFF {
      Surrogates(v);
    } else if v < 0x10000 {
      SmallValue(v);
    }
  }

  lemma SmallValue(v: bv32)
    requires v < 0x10000
    ensures (v & 0xFFFF) as bv16 == v as bv16
  {
  }

  /** The two-byte form of zero is accepted, though it is overlong. */
  lemma OverlongZero()
    ensures Decode([0xC0, 0x80]) == [0]
  {
    var trails: seq<bv8> := [0x80];
    CompleteForm(0xC0, 1, trails, []);
    assert [0xC0] + (trails + []) == [0xC0, 0x80];
    assert Value(0xC0, 1, trails) == 0 by {
      assert trails[..0] == [];
    }
  }
}
