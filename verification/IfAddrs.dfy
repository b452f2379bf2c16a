/** The interface list: each message is read twice, once to size its entry's block and once to fill it. */
module IfAddrs {
  import opened Bytes
  import opened IfAddrsLayout

  datatype EntryName = Empty | Stored(at: nat) | OfLink(entry: nat)

  /** An entry's header fields; the pointers are places in its block. */
  datatype Entry = Entry(
    isLink: bool, name: EntryName, flags: bv32, addr: int, dst: int, mask: int, data: int, block: seq<byte>)

  /** `makeSockaddr`, with the index and hardware type of a link's address and the scope of a link-local one. */
  method MakeSockaddr(block: array<byte>, at: nat, family: int, data: seq<byte>)
    requires ProperSize(family, |data|) && at + CalcAddrLen(family, |data|) <= block.Length
    modifies block
    ensures Sock(block[at..at + CalcAddrLen(family, |data|)], family, data)
    ensures forall k :: 0 <= k < block.Length && !(at <= k < at + CalcAddrLen(family, |data|)) ==>
              block[k] == old(block[k])
  {
    ghost var len := CalcAddrLen(family, |data|);
    var from := at + DataAt(family);
    assert 2 <= DataAt(family) <= DataAt(family) + |data| <= len && (family == 17 ==> DataAt(family) == 12);
    hide CalcAddrLen, DataAt, FamilyBytes, Sock;
    CopyBytes(block, from, data);
    ghost var copied := block[from..from + |data|];
    if family == 17 {
      block[at + 11] := |data| % 256;
    }
    CopyBytes(block, at, FamilyBytes(family));
    assert block[from..from + |data|] == copied;
    assert block[..][at..at + 2] == block[at..at + 2];
    IsSock(block[..], at, len, family, data);
    assert block[..][at..at + len] == block[at..at + len];
  }

  lemma IsSock(b: seq<byte>, at: nat, len: nat, family: int, data: seq<byte>)
    requires ProperSize(family, |data|) && len == CalcAddrLen(family, |data|) && at + len <= |b|
    requires b[at + DataAt(family)..at + DataAt(family) + |data|] == data
    requires b[at..at + 2] == FamilyBytes(family) && (family == 17 ==> b[at + 11] == |data| % 256)
    ensures Sock(b[at..at + len], family, data)
  {
    Part(b, at, len, DataAt(family), DataAt(family) + |data|);
    Part(b, at, len, 0, 2);
  }

  lemma Part(b: seq<byte>, at: nat, len: nat, x: nat, y: nat)
    requires at + len <= |b| && x <= y <= len
    ensures b[at..at + len][x..y] == b[at + x..at + y]
  {
    var s := b[at..at + len][x..y];
    assert forall k :: 0 <= k < |s| ==> s[k] == b[at + x + k];
  }

  method StoreAddress(block: array<byte>, at: nat, family: int, data: seq<byte>, f: Interface)
    requires ProperSize(family, |data|) && at + CalcAddrLen(family, |data|) <= block.Length && Sizes(f)
    modifies block
    ensures Image(block[at..at + CalcAddrLen(family, |data|)], family, data, f)
    ensures forall k :: 0 <= k < block.Length && !(at <= k < at + CalcAddrLen(family, |data|)) ==>
              block[k] == old(block[k])
  {
    MakeSockaddr(block, at, family, data);
    if family == 17 {
      StoreLink(block, at, data, f);
    } else if family == 10 && LinkLocal(data) {
      StoreScope(block, at, data, f);
    }
  }

  method StoreLink(block: array<byte>, at: nat, data: seq<byte>, f: Interface)
    requires at + CalcAddrLen(17, |data|) <= block.Length && Sizes(f)
    requires Sock(block[at..at + CalcAddrLen(17, |data|)], 17, data)
    modifies block
    ensures Image(block[at..at + CalcAddrLen(17, |data|)], 17, data, f)
    ensures forall k :: 0 <= k < block.Length && !(at + 4 <= k < at + 10) ==> block[k] == old(block[k])
  {
    ghost var len := CalcAddrLen(17, |data|);
    ghost var s := block[at..at + len];
    CopyBytes(block, at + 4, f.index);
    CopyBytes(block, at + 8, f.hatype);
    ghost var t := block[at..at + len];
    assert forall k :: 0 <= k < len && !(4 <= k < 10) ==> t[k] == s[k];
    assert t[..2] == s[..2] && t[12..12 + |data|] == s[12..12 + |data|];
    Part(block[..], at, len, 4, 8);
    Part(block[..], at, len, 8, 10);
    assert block[..][at..at + len] == t;
    assert block[..][at + 4..at + 8] == f.index;
    assert block[..][at + 8..at + 10] == f.hatype;
  }

  method StoreScope(block: array<byte>, at: nat, data: seq<byte>, f: Interface)
    requires |data| == 16 && at + 28 <= block.Length && Sizes(f)
    requires Sock(block[at..at + 28], 10, data)
    modifies block
    ensures Sock(block[at..at + 28], 10, data) && block[at..at + 28][24..28] == f.index
    ensures forall k :: 0 <= k < block.Length && !(at + 24 <= k < at + 28) ==> block[k] == old(block[k])
  {
    ghost var s := block[at..at + 28];
    CopyBytes(block, at + 24, f.index);
    ghost var t := block[at..at + 28];
    assert forall k :: 0 <= k < 24 ==> t[k] == s[k];
    assert t[..2] == s[..2] && t[8..24] == s[8..24];
    Part(block[..], at, 28, 24, 28);
    assert block[..][at..at + 28] == t;
    assert block[..][at + 24..at + 28] == f.index;
  }

  method CopyBytes(block: array<byte>, at: nat, bytes: seq<byte>)
    requires at + |bytes| <= block.Length
    modifies block
    ensures block[at..at + |bytes|] == bytes
    ensures forall k :: 0 <= k < block.Length && !(at <= k < at + |bytes|) ==> block[k] == old(block[k])
  {
    forall i | 0 <= i < |bytes| {
      block[at + i] := bytes[i];
    }
  }

  // ---------- Address messages ----------

  /** The sizing pass over an address message. */
  method SizeAddr(family: int, attrs: seq<Attr>) returns (names: nat, addrs: nat)
    requires family != 17
    ensures names == Names(attrs, |attrs|)
    ensures addrs == Ends(family, attrs, |attrs|) + MaskRoom(family, attrs, |attrs|)
  {
    names, addrs := 0, 0;
    var left := Remaining(attrs, 0);
    var added := false;
    for i := 0 to |attrs|
      invariant left == Remaining(attrs, i) && names == Names(attrs, i)
      invariant added <==> Inet(family) && NeedsMask(attrs, i)
      invariant addrs == Ends(family, attrs, i) + if added then Align(CalcAddrLen(family, 0)) else 0
    {
      var a := attrs[i];
      if a.kind == Address || a.kind == Local {
        if Inet(family) && !added {
          addrs := addrs + Align(CalcAddrLen(family, |a.data|));
          added := true;
        }
        addrs := addrs + Align(CalcAddrLen(family, |a.data|));
      } else if a.kind == Broadcast {
        addrs := addrs + Align(CalcAddrLen(family, |a.data|));
      } else if a.kind == Name {
        names := names + Align(left + 1);
      }
      left := left - Align(4 + |a.data|);
      assert NeedsMask(attrs, i + 1) <==> NeedsMask(attrs, i) || a.kind == Address || a.kind == Local;
    }
  }

  /** The name of the last name attribute before `n` is stored at `at`. */
  ghost predicate NameStored(b: seq<byte>, at: nat, attrs: seq<Attr>, n: nat, name: EntryName, inherited: EntryName)
    requires n <= |attrs|
  {
    var l := LastOf(attrs, n, Name);
    if l < 0 then name == inherited
    else name == Stored(at) && at + |attrs[l].data| + 1 <= |b|
         && b[at..at + |attrs[l].data| + 1] == StrNCopy(attrs[l].data) + [0]
  }

  function LastOf(attrs: seq<Attr>, n: nat, kind: Kind): (l: int)
    requires n <= |attrs|
    ensures -1 <= l < n && (l >= 0 ==> attrs[l].kind == kind)
    ensures forall i :: l < i < n ==> attrs[i].kind != kind
  {
    if n == 0 then -1 else if attrs[n - 1].kind == kind then n - 1 else LastOf(attrs, n - 1, kind)
  }

  /** Where attribute `i`'s slot is; -1 for none. */
  function Place(base: nat, family: int, attrs: seq<Attr>, i: int): int
    requires -1 <= i < |attrs|
  {
    if i < 0 then -1 else base + Ends(family, attrs, i)
  }

  /** The filling pass over an address message: every address lands in its own slot, and the name in the room for
      names. */
  method FillAddr(block: array<byte>, nameAt: nat, family: int, attrs: seq<Attr>, f: Interface, inherited: EntryName)
    returns (at: nat, addr: int, dst: int, name: EntryName)
    requires family != 17 && WellFormed(family, attrs) && Sizes(f)
    requires nameAt + Names(attrs, |attrs|) + Ends(family, attrs, |attrs|) <= block.Length
    modifies block
    ensures var base := nameAt + Names(attrs, |attrs|);
            && at == base + Ends(family, attrs, |attrs|)
            && addr == Place(base, family, attrs, Picked(attrs, |attrs|).addr)
            && dst == Place(base, family, attrs, Picked(attrs, |attrs|).dst)
            && AllFilled(block[..], base, family, attrs, |attrs|, f)
    ensures NameStored(block[..], nameAt, attrs, |attrs|, name, inherited)
    ensures forall k :: 0 <= k < block.Length && !(nameAt <= k < at) ==> block[k] == old(block[k])
  {
    var base := nameAt + Names(attrs, |attrs|);
    at, addr, dst, name := base, -1, -1, inherited;
    for i := 0 to |attrs|
      invariant at == base + Ends(family, attrs, i)
      invariant addr == Place(base, family, attrs, Picked(attrs, i).addr)
      invariant dst == Place(base, family, attrs, Picked(attrs, i).dst)
      invariant AllFilled(block[..], base, family, attrs, i, f)
      invariant NameStored(block[..], nameAt, attrs, i, name, inherited)
      invariant forall k :: 0 <= k < block.Length && !(nameAt <= k < base + Ends(family, attrs, i)) ==>
                  block[k] == old(block[k])
    {
      hide NameStored, AllFilled;
      var a := attrs[i];
      EndsGrows(family, attrs, i + 1, |attrs|);
      if IsAddress(family, a) {
        PutAddress(block, nameAt, base, at, family, attrs, i, f, name, inherited);
        if a.kind == Address {
          if addr >= 0 { dst := at; } else { addr := at; }
        } else if a.kind == Local {
          if addr >= 0 { dst := addr; }
          addr := at;
        } else {
          dst := at;
        }
        at := at + Align(CalcAddrLen(family, |a.data|));
      } else if a.kind == Name {
        PutName(block, nameAt, base, family, attrs, i, f, inherited);
        name := Stored(nameAt);
      } else {
        Skipped(block[..], nameAt, base, family, attrs, i, f, name, inherited);
      }
    }
  }

  method PutAddress(block: array<byte>, nameAt: nat, ghost base: nat, at: nat, family: int, attrs: seq<Attr>, i: nat,
                    f: Interface, ghost name: EntryName, ghost inherited: EntryName)
    requires i < |attrs| && IsAddress(family, attrs[i]) && WellFormed(family, attrs) && Sizes(f)
    requires base == nameAt + Names(attrs, |attrs|) && at == base + Ends(family, attrs, i)
    requires base + Ends(family, attrs, i + 1) <= block.Length
    requires AllFilled(block[..], base, family, attrs, i, f)
    requires NameStored(block[..], nameAt, attrs, i, name, inherited)
    modifies block
    ensures AllFilled(block[..], base, family, attrs, i + 1, f)
    ensures NameStored(block[..], nameAt, attrs, i + 1, name, inherited)
    ensures forall k :: 0 <= k < block.Length && !(at <= k < base + Ends(family, attrs, i + 1)) ==>
              block[k] == old(block[k])
  {
    ghost var was := block[..];
    var data := attrs[i].data;
    ghost var len := CalcAddrLen(family, |data|);
    StoreAddress(block, at, family, data, f);
    assert block[..][at..at + len] == block[at..at + len];
    assert Filled(block[..], base, family, attrs, i, f);
    AllKept(was, block[..], at, at + len, base, family, attrs, i, f);
    NameKept(was, block[..], at, at + len, nameAt, attrs, i, name, inherited);
  }

  lemma Skipped(b: seq<byte>, nameAt: nat, base: nat, family: int, attrs: seq<Attr>, i: nat, f: Interface,
                name: EntryName,
                inherited: EntryName)
    requires i < |attrs| && !IsAddress(family, attrs[i]) && attrs[i].kind != Name
    requires AllFilled(b, base, family, attrs, i, f) && NameStored(b, nameAt, attrs, i, name, inherited)
    ensures AllFilled(b, base, family, attrs, i + 1, f) && NameStored(b, nameAt, attrs, i + 1, name, inherited)
  {
  }

  lemma NameKept(b: seq<byte>, c: seq<byte>, lo: nat, hi: nat, nameAt: nat, attrs: seq<Attr>, n: nat, name: EntryName,
                 inherited: EntryName)
    requires n <= |attrs| && NameStored(b, nameAt, attrs, n, name, inherited) && |b| == |c|
    requires forall k :: 0 <= k < |b| && !(lo <= k < hi) ==> b[k] == c[k]
    requires nameAt + Names(attrs, |attrs|) <= lo
    ensures NameStored(c, nameAt, attrs, n, name, inherited)
  {
    var l := LastOf(attrs, n, Name);
    if l >= 0 {
      NameFits(attrs, l, |attrs|);
      assert b[nameAt..nameAt + |attrs[l].data| + 1] == c[nameAt..nameAt + |attrs[l].data| + 1];
    }
  }

  method PutName(block: array<byte>, nameAt: nat, ghost base: nat, family: int, attrs: seq<Attr>, i: nat, f: Interface,
                 ghost inherited: EntryName)
    requires i < |attrs| && attrs[i].kind == Name && base == nameAt + Names(attrs, |attrs|) <= block.Length
    requires AllFilled(block[..], base, family, attrs, i, f)
    modifies block
    ensures AllFilled(block[..], base, family, attrs, i + 1, f)
    ensures NameStored(block[..], nameAt, attrs, i + 1, Stored(nameAt), inherited)
    ensures forall k :: 0 <= k < block.Length && !(nameAt <= k < base) ==> block[k] == old(block[k])
  {
    ghost var was := block[..];
    NameFits(attrs, i, |attrs|);
    var bytes := StrNCopy(attrs[i].data) + [0];
    CopyBytes(block, nameAt, bytes);
    assert block[..][nameAt..nameAt + |bytes|] == block[nameAt..nameAt + |bytes|];
    AllKept(was, block[..], nameAt, base, base, family, attrs, i, f);
  }

  /** The netmask for a prefix length, cut to the family's maximum. */
  method MakeMask(family: int, prefixLen: byte) returns (mask: seq<byte>)
    requires Inet(family)
    ensures |mask| == if family == 2 then 4 else 16
    ensures LeadingOnes(mask, if prefixLen > 8 * |mask| then 8 * |mask| else prefixLen)
  {
    var most := if family == 2 then 32 else 128;
    var prefix := if prefixLen > most then most else prefixLen;
    var bytes := new byte[16](_ => 0);
    var i := 0;
    while i < prefix / 8
      invariant i <= prefix / 8
      invariant forall k :: 0 <= k < 16 ==> bytes[k] == if k < i then 255 else 0
    {
      bytes[i] := 0xff;
      i := i + 1;
    }
    if prefix % 8 != 0 {
      bytes[i] := TopOnes(prefix % 8);
    }
    mask := bytes[..most / 8];
    forall k | 0 <= k < 8 * |mask| ensures Bit(mask[k / 8], k % 8) <==> k < prefix {
      TopOnesBits(prefix % 8, k % 8);
    }
  }

  /** `ifaddrmsg` and its attributes. */
  datatype AddrMsg = AddrMsg(family: byte, index: seq<byte>, prefixLen: byte, flags: bv32, attrs: seq<Attr>)

  /** `ifinfomsg` and its attributes. */
  datatype LinkMsg = LinkMsg(on: Interface, flags: bv32, attrs: seq<Attr>)

  ghost predicate AddrOk(m: AddrMsg) {
    |m.index| == 4 && WellFormed(m.family, m.attrs)
  }

  ghost predicate MaskStored(b: seq<byte>, at: int, family: int, prefixLen: byte)
    requires Inet(family)
  {
    var size := if family == 2 then 4 else 16;
    && 0 <= at && at + CalcAddrLen(family, size) <= |b|
    && Sock(b[at..at + CalcAddrLen(family, size)], family, b[at + DataAt(family)..at + DataAt(family) + size])
    && LeadingOnes(b[at + DataAt(family)..at + DataAt(family) + size], if prefixLen > 8 * size then 8 * size
         else prefixLen)
  }

  /** What the entry made for an address message is. `found` is its link's place in the list, if there is one. */
  ghost predicate AddrEntry(e: Entry, header: nat, m: AddrMsg, found: int, linkFlags: bv32) {
    var n := |m.attrs|;
    var base := header + Names(m.attrs, n);
    && !e.isLink && e.data == -1
    && |e.block| == base + Ends(m.family, m.attrs, n) + MaskRoom(m.family, m.attrs, n)
    && e.addr == Place(base, m.family, m.attrs, Picked(m.attrs, n).addr)
    && e.dst == Place(base, m.family, m.attrs, Picked(m.attrs, n).dst)
    && AllFilled(e.block, base, m.family, m.attrs, n, Interface(m.index, [0, 0]))
    && NameStored(e.block, header, m.attrs, n, e.name, if found >= 0 then OfLink(found) else Empty)
    && e.flags == (if found >= 0 then m.flags | linkFlags else m.flags)
    && (if Inet(m.family) && NeedsMask(m.attrs, n)
        then e.mask == base + Ends(m.family, m.attrs, n) && MaskStored(e.block, e.mask, m.family, m.prefixLen)
        else e.mask == -1)
  }

  /** `interpretAddr`, without the search for the link. */
  method InterpretAddr(header: nat, m: AddrMsg, found: int, linkFlags: bv32) returns (e: Entry)
    requires m.family != 17 && AddrOk(m)
    ensures AddrEntry(e, header, m, found, linkFlags)
  {
    hide AllFilled, NameStored, MaskStored, Image, Sock, Ends, Names, Picked, LastOf, Place, Inet, NeedsMask,
      MaskRoom, LeadingOnes;
    var n := |m.attrs|;
    var inherited := if found >= 0 then OfLink(found) else Empty;
    var names, addrs := SizeAddr(m.family, m.attrs);
    var block := new byte[header + names + addrs];
    var flags := if found >= 0 then m.flags | linkFlags else m.flags;
    var f := Interface(m.index, [0, 0]);
    var at, addr, dst, name :=
      FillAddr(block, header, m.family, m.attrs, f, inherited);
    var mask := AddNetmask(block, header, at, addr, m, f, name, inherited);
    e := Entry(false, name, flags, addr, dst, mask, -1, block[..]);
  }

  /** The netmask, if the entry's address is of a family that has one. */
  method AddNetmask(block: array<byte>, header: nat, at: nat, addr: int, m: AddrMsg, f: Interface,
                    ghost name: EntryName,
                    ghost inherited: EntryName) returns (mask: int)
    requires m.family != 17 && at == header + Names(m.attrs, |m.attrs|) + Ends(m.family, m.attrs, |m.attrs|)
    requires addr == Place(header + Names(m.attrs, |m.attrs|), m.family, m.attrs, Picked(m.attrs, |m.attrs|).addr)
    requires block.Length == at + MaskRoom(m.family, m.attrs, |m.attrs|)
    requires AllFilled(block[..], header + Names(m.attrs, |m.attrs|), m.family, m.attrs, |m.attrs|, f)
    requires NameStored(block[..], header, m.attrs, |m.attrs|, name, inherited)
    modifies block
    ensures AllFilled(block[..], header + Names(m.attrs, |m.attrs|), m.family, m.attrs, |m.attrs|, f)
    ensures NameStored(block[..], header, m.attrs, |m.attrs|, name, inherited)
    ensures if Inet(m.family) && NeedsMask(m.attrs, |m.attrs|)
            then mask == at && MaskStored(block[..], mask, m.family, m.prefixLen) else mask == -1
  {
    hide AllFilled, NameStored, MaskStored, Image, Sock, Ends, Names, Picked, LastOf;
    AddressPicked(m.attrs, |m.attrs|);
    mask := -1;
    if addr >= 0 {
      FamilyAt(block[..], header + Names(m.attrs, |m.attrs|), m, f);
      if Inet(block[addr] + 256 * block[addr + 1]) {
        PutMask(block, header, at, m, f, name, inherited);
        mask := at;
      }
    }
  }

  /** The family read back from the entry's address is the message's. */
  lemma FamilyAt(b: seq<byte>, base: nat, m: AddrMsg, f: Interface)
    requires m.family != 17 && Picked(m.attrs, |m.attrs|).addr >= 0
    requires AllFilled(b, base, m.family, m.attrs, |m.attrs|, f)
    ensures var at := Place(base, m.family, m.attrs, Picked(m.attrs, |m.attrs|).addr);
            at + 2 <= |b| && b[at] == m.family && b[at + 1] == 0
  {
    AddressPicked(m.attrs, |m.attrs|);
    var i := Picked(m.attrs, |m.attrs|).addr;
    var at := Place(base, m.family, m.attrs, i);
    var len := CalcAddrLen(m.family, |m.attrs[i].data|);
    assert Filled(b, base, m.family, m.attrs, i, f) && IsAddress(m.family, m.attrs[i]);
    var s := b[at..at + len];
    assert s[..2][0] == b[at] && s[..2][1] == b[at + 1];
  }

  /** The netmask goes behind the last address, up to the block's end. */
  method PutMask(block: array<byte>, header: nat, at: nat, m: AddrMsg, f: Interface, ghost name: EntryName,
                 ghost inherited: EntryName)
    requires Inet(m.family) && at == header + Names(m.attrs, |m.attrs|) + Ends(m.family, m.attrs, |m.attrs|)
    requires block.Length == at + Align(CalcAddrLen(m.family, 0))
    requires AllFilled(block[..], header + Names(m.attrs, |m.attrs|), m.family, m.attrs, |m.attrs|, f)
    requires NameStored(block[..], header, m.attrs, |m.attrs|, name, inherited)
    modifies block
    ensures MaskStored(block[..], at, m.family, m.prefixLen)
    ensures AllFilled(block[..], header + Names(m.attrs, |m.attrs|), m.family, m.attrs, |m.attrs|, f)
    ensures NameStored(block[..], header, m.attrs, |m.attrs|, name, inherited)
  {
    ghost var was, base := block[..], header + Names(m.attrs, |m.attrs|);
    var mask := MakeMask(m.family, m.prefixLen);
    ghost var len := CalcAddrLen(m.family, |mask|);
    MakeSockaddr(block, at, m.family, mask);
    AllKept(was, block[..], at, at + len, base, m.family, m.attrs, |m.attrs|, f);
    NameKept(was, block[..], at, at + len, header, m.attrs, |m.attrs|, name, inherited);
    assert block[..][at..at + len] == block[at..at + len];
    Part(block[..], at, len, DataAt(m.family), DataAt(m.family) + |mask|);
  }
}
