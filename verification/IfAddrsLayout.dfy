/** How an interface entry is laid out in one block: what the sizing pass reserves and where the filling pass writes. */
module IfAddrsLayout {
  import opened Bytes

  const AF_INET := 2
  const AF_INET6 := 10
  const AF_PACKET := 17

  datatype Kind = Address | Local | Broadcast | Name | Stats | Unused

  datatype Attr = Attr(kind: Kind, data: seq<byte>)

  function Align(n: nat): (r: nat)
    ensures n <= r < n + 4 && r % 4 == 0
  {
    (n + 3) / 4 * 4
  }

  function MaxSize(a: nat, b: nat): nat {
    if a > b then a else b
  }

  /** `calcAddrLen`: what a socket address of this family with `size` bytes of address takes. */
  function CalcAddrLen(family: int, size: nat): nat {
    if family == 2 then 16
    else if family == 10 then 28
    else if family == 17 then MaxSize(20, 12 + size)
    else MaxSize(16, 2 + size)
  }

  /** Where the address is in it. */
  function DataAt(family: int): nat {
    if family == 2 then 4 else if family == 10 then 8 else if family == 17 then 12 else 2
  }

  predicate Inet(family: int) {
    family == 2 || family == 10
  }

  /** IPv4 and IPv6 addresses have their proper length; any other has any. */
  predicate ProperSize(family: int, size: nat) {
    (family == 2 ==> size == 4) && (family == 10 ==> size == 16)
  }

  /** Link messages have addresses and broadcast addresses; address messages have local ones too. */
  predicate IsAddress(family: int, a: Attr) {
    a.kind == Address || a.kind == Broadcast || (a.kind == Local && family != 17)
  }

  ghost predicate WellFormed(family: int, attrs: seq<Attr>) {
    forall i :: 0 <= i < |attrs| && IsAddress(family, attrs[i]) ==> ProperSize(family, |attrs[i].data|)
  }

  function SlotLen(family: int, a: Attr): nat {
    Align(CalcAddrLen(family, |a.data|))
  }

  /** The room for the addresses among the first `n` attributes: where the next slot starts. */
  function Ends(family: int, attrs: seq<Attr>, n: nat): nat
    requires n <= |attrs|
  {
    if n == 0 then 0
    else Ends(family, attrs, n - 1) + if IsAddress(family, attrs[n - 1]) then SlotLen(family, attrs[n - 1]) else 0
  }

  /** What is left of the message when the walk stands at attribute `i`. */
  function Remaining(attrs: seq<Attr>, i: nat): (r: nat)
    requires i <= |attrs|
    ensures i < |attrs| ==> r >= 4 + |attrs[i].data|
    decreases |attrs| - i
  {
    if i == |attrs| then 0 else Align(4 + |attrs[i].data|) + Remaining(attrs, i + 1)
  }

  /** The room for names: each takes what is left of the message, not what the name needs. */
  function Names(attrs: seq<Attr>, n: nat): nat
    requires n <= |attrs|
  {
    if n == 0 then 0
    else Names(attrs, n - 1) + if attrs[n - 1].kind == Name then Align(Remaining(attrs, n - 1) + 1) else 0
  }

  /** The room for statistics, likewise. */
  function Datas(attrs: seq<Attr>, n: nat): nat
    requires n <= |attrs|
  {
    if n == 0 then 0
    else Datas(attrs, n - 1) + if attrs[n - 1].kind == Stats then Align(Remaining(attrs, n - 1)) else 0
  }

  /** There is an attribute for which a netmask is needed. */
  predicate NeedsMask(attrs: seq<Attr>, n: nat)
    requires n <= |attrs|
  {
    exists i :: 0 <= i < n && (attrs[i].kind == Address || attrs[i].kind == Local)
  }

  function MaskRoom(family: int, attrs: seq<Attr>, n: nat): nat
    requires n <= |attrs|
  {
    if Inet(family) && NeedsMask(attrs, n) then Align(CalcAddrLen(family, 0)) else 0
  }

  /** Slots of different attributes do not overlap, and each is inside the room reserved for the addresses. */
  lemma {:induction false} SlotsApart(family: int, attrs: seq<Attr>, i: nat, j: nat)
    requires i < j <= |attrs| && IsAddress(family, attrs[i])
    ensures Ends(family, attrs, i) + SlotLen(family, attrs[i]) <= Ends(family, attrs, j)
    ensures Ends(family, attrs, i) % 4 == 0
    decreases j
  {
    if i + 1 < j {
      SlotsApart(family, attrs, i, j - 1);
    } else {
      EndsAligned(family, attrs, i);
    }
  }

  lemma {:induction false} EndsAligned(family: int, attrs: seq<Attr>, n: nat)
    requires n <= |attrs|
    ensures Ends(family, attrs, n) % 4 == 0
  {
    if n > 0 {
      EndsAligned(family, attrs, n - 1);
    }
  }

  lemma {:induction false} EndsGrows(family: int, attrs: seq<Attr>, n: nat, m: nat)
    requires n <= m <= |attrs|
    ensures Ends(family, attrs, n) <= Ends(family, attrs, m)
    decreases m - n
  {
    if n < m {
      EndsGrows(family, attrs, n, m - 1);
    }
  }

  /** A name and its terminator fit into the room for names. */
  lemma {:induction false} NameFits(attrs: seq<Attr>, i: nat, n: nat)
    requires i < n <= |attrs| && attrs[i].kind == Name
    ensures |attrs[i].data| + 1 <= Names(attrs, n)
    decreases n
  {
    if i + 1 < n {
      NameFits(attrs, i, n - 1);
    }
  }

  lemma {:induction false} DataFits(attrs: seq<Attr>, i: nat, n: nat)
    requires i < n <= |attrs| && attrs[i].kind == Stats
    ensures |attrs[i].data| <= Datas(attrs, n)
    decreases n
  {
    if i + 1 < n {
      DataFits(attrs, i, n - 1);
    }
  }

  // ---------- What is stored ----------

  function FamilyBytes(family: int): seq<byte> {
    [family % 256, family / 256 % 256]
  }

  /** A socket address of this family with this address. */
  predicate Sock(s: seq<byte>, family: int, data: seq<byte>) {
    && |s| == CalcAddrLen(family, |data|) && ProperSize(family, |data|)
    && s[..2] == FamilyBytes(family) && s[DataAt(family)..DataAt(family) + |data|] == data
    && (family == 17 ==> s[11] == |data| % 256)
  }

  /** IPv6 link-local, unicast or multicast. */
  predicate LinkLocal(data: seq<byte>)
    requires |data| >= 2
  {
    (data[0] == 0xfe && data[1] / 64 == 2) || (data[0] == 0xff && data[1] % 16 == 2)
  }

  /** The prefix fe80::/10, or a multicast address whose scope is 2 (section 2.7 of RFC 4291). */
  lemma LinkLocalMeans(data: seq<byte>)
    requires |data| >= 2
    ensures LinkLocal(data) <==>
              0xfe80 <= (data[0] as int) * 256 + data[1] as int < 0xfec0
              || (data[0] == 0xff && exists flags: int :: 0 <= flags < 16 && data[1] as int == 16 * flags + 2)
  {
    if data[0] == 0xff && data[1] % 16 == 2 {
      assert data[1] as int == 16 * (data[1] / 16) + 2;
    }
  }

  /** The message's interface: its index and hardware type, as they are stored. */
  datatype Interface = Interface(index: seq<byte>, hatype: seq<byte>)

  ghost predicate Sizes(f: Interface) {
    |f.index| == 4 && |f.hatype| == 2
  }

  /** The address, with the interface's index where the family has a place for it. */
  predicate Image(s: seq<byte>, family: int, data: seq<byte>, f: Interface) {
    && Sock(s, family, data)
    && (family == 17 ==> s[4..8] == f.index && s[8..10] == f.hatype)
    && (family == 10 && LinkLocal(data) ==> s[24..28] == f.index)
  }

  /** `strncpy`: the bytes up to the first zero, and zeros for the rest. */
  function StrNCopy(data: seq<byte>): (r: seq<byte>)
    ensures |r| == |data|
  {
    if data == [] then []
    else if data[0] == 0 then seq(|data|, _ => 0)
    else [data[0]] + StrNCopy(data[1..])
  }

  /** The stored name ends in a zero, and up to its first zero it is the given name. */
  lemma {:induction false} NameIsCopied(data: seq<byte>, k: nat)
    requires k <= |data| && (forall i :: 0 <= i < k ==> data[i] != 0) && (k < |data| ==> data[k] == 0)
    ensures var s := StrNCopy(data) + [0]; s[..k] == data[..k] && s[k] == 0
  {
    if data != [] && data[0] != 0 {
      NameIsCopied(data[1..], k - 1);
      assert data[..k] == [data[0]] + data[1..][..k - 1];
      assert (StrNCopy(data) + [0])[..k] == [data[0]] + (StrNCopy(data[1..]) + [0])[..k - 1];
    }
  }

  /** The slot of attribute `i` in a block whose addresses start at `base`. */
  ghost predicate Filled(b: seq<byte>, base: nat, family: int, attrs: seq<Attr>, i: nat, f: Interface)
    requires i < |attrs|
  {
    IsAddress(family, attrs[i]) ==>
      var at := base + Ends(family, attrs, i);
      var len := CalcAddrLen(family, |attrs[i].data|);
      at + len <= |b| && Image(b[at..at + len], family, attrs[i].data, f)
  }

  ghost predicate AllFilled(b: seq<byte>, base: nat, family: int, attrs: seq<Attr>, n: nat, f: Interface)
    requires n <= |attrs|
  {
    forall j :: 0 <= j < n ==> Filled(b, base, family, attrs, j, f)
  }

  lemma AllKept(b: seq<byte>, c: seq<byte>, lo: nat, hi: nat, base: nat, family: int, attrs: seq<Attr>, n: nat,
                f: Interface)
    requires n <= |attrs| && AllFilled(b, base, family, attrs, n, f) && |b| == |c|
    requires forall k :: 0 <= k < |b| && !(lo <= k < hi) ==> b[k] == c[k]
    requires hi <= base || base + Ends(family, attrs, n) <= lo
    ensures AllFilled(c, base, family, attrs, n, f)
  {
    forall j | 0 <= j < n ensures Filled(c, base, family, attrs, j, f) {
      EndsGrows(family, attrs, j + 1, n);
      FilledKept(b, c, lo, hi, base, family, attrs, j, f);
    }
  }

  /** Bytes outside the written range keep what they held. */
  lemma FilledKept(b: seq<byte>, c: seq<byte>, lo: nat, hi: nat, base: nat, family: int, attrs: seq<Attr>, i: nat,
                   f: Interface)
    requires i < |attrs| && Filled(b, base, family, attrs, i, f) && |b| == |c|
    requires forall k :: 0 <= k < |b| && !(lo <= k < hi) ==> b[k] == c[k]
    requires hi <= base || base + Ends(family, attrs, i + 1) <= lo
    ensures Filled(c, base, family, attrs, i, f)
  {
    if IsAddress(family, attrs[i]) {
      var at := base + Ends(family, attrs, i);
      var len := CalcAddrLen(family, |attrs[i].data|);
      assert len <= SlotLen(family, attrs[i]);
      assert Ends(family, attrs, i + 1) == Ends(family, attrs, i) + SlotLen(family, attrs[i]);
      SamePart(b, c, at, len);
    }
  }

  lemma SamePart(b: seq<byte>, c: seq<byte>, at: nat, len: nat)
    requires at + len <= |b| == |c| && forall k :: at <= k < at + len ==> b[k] == c[k]
    ensures b[at..at + len] == c[at..at + len]
  {
  }

  // ---------- Which attribute an entry's pointers lead to ----------

  datatype Picks = Picks(addr: int, dst: int)

  /** The attributes behind `ifa_addr` and `ifa_dstaddr` (`ifa_broadaddr` is the same field) after `n` of them; -1 for
      none. */
  function Picked(attrs: seq<Attr>, n: nat): (p: Picks)
    requires n <= |attrs|
    ensures -1 <= p.addr < n && -1 <= p.dst < n
  {
    if n == 0 then Picks(-1, -1)
    else
      var p := Picked(attrs, n - 1);
      match attrs[n - 1].kind
      case Address => if p.addr >= 0 then p.(dst := n - 1) else p.(addr := n - 1)
      case Local => Picks(n - 1, if p.addr >= 0 then p.addr else p.dst)
      case Broadcast => p.(dst := n - 1)
      case _ => p
  }

  /** A broadcast address is the entry's if and only if no other comes behind it, nor an address or a local address that
      finds the entry's address set and so takes the field. */
  lemma {:induction false} BroadcastPicked(attrs: seq<Attr>, n: nat, b: nat)
    requires b < n <= |attrs| && attrs[b].kind == Broadcast
    ensures Picked(attrs, n).dst == b <==>
              forall i :: b < i < n ==>
                attrs[i].kind != Broadcast
                && (attrs[i].kind == Address || attrs[i].kind == Local ==> !NeedsMask(attrs, i))
    ensures Picked(attrs, n).addr != b
  {
    AddressPicked(attrs, n);
    AddressPicked(attrs, n - 1);
    if b < n - 1 {
      BroadcastPicked(attrs, n - 1, b);
    }
  }

  /** The entry's address is the last local one; without one, the first address; and there is one exactly when a netmask
      is needed. */
  lemma {:induction false} AddressPicked(attrs: seq<Attr>, n: nat)
    requires n <= |attrs|
    ensures var a := Picked(attrs, n).addr;
            && (a >= 0 <==> NeedsMask(attrs, n))
            && (a >= 0 ==> attrs[a].kind == Local || attrs[a].kind == Address)
            && (forall i :: a < i < n ==> attrs[i].kind != Local)
            && (a >= 0 && attrs[a].kind == Address ==>
                  forall i :: 0 <= i < n && i != a ==> attrs[i].kind != Local && (i < a ==> attrs[i].kind != Address))
            && (Picked(attrs, n).dst >= 0 ==> attrs[Picked(attrs, n).dst].kind in {Address, Local, Broadcast})
  {
    if n > 0 {
      AddressPicked(attrs, n - 1);
      assert NeedsMask(attrs, n) <==>
             NeedsMask(attrs, n - 1) || attrs[n - 1].kind == Address || attrs[n - 1].kind == Local;
    }
  }

  ghost predicate Only(attrs: seq<Attr>, n: nat, kind: Kind, p: nat)
    requires n <= |attrs|
  {
    forall i :: 0 <= i < n && i != p ==> attrs[i].kind != kind
  }

  /** On a point-to-point link, with one address, one local address and no broadcast address, the local one is the
      entry's address and the other its destination, in whichever order they come. */
  lemma {:induction false} PointToPoint(attrs: seq<Attr>, n: nat, a: nat, l: nat)
    requires a < |attrs| && l < |attrs| && attrs[a].kind == Address && attrs[l].kind == Local && n <= |attrs|
    requires Only(attrs, |attrs|, Address, a) && Only(attrs, |attrs|, Local, l)
    requires forall i :: 0 <= i < |attrs| ==> attrs[i].kind != Broadcast
    ensures Picked(attrs, n) == Picks(if l < n then l else if a < n then a else -1, if l < n && a < n then a else -1)
  {
    if n > 0 {
      PointToPoint(attrs, n - 1, a, l);
    }
  }

  // ---------- The netmask ----------

  function Bit(b: byte, k: nat): bool
    requires k < 8
  {
    (b / [128, 64, 32, 16, 8, 4, 2, 1][k]) % 2 == 1
  }

  /** The low byte of `0xff << (8 - r)`. */
  function TopOnes(r: nat): byte
    requires r < 8
  {
    255 * [256, 128, 64, 32, 16, 8, 4, 2][r] % 256
  }

  lemma TopOnesBits(r: nat, k: nat)
    requires r < 8 && k < 8
    ensures Bit(TopOnes(r), k) <==> k < r
    ensures Bit(255, k) && !Bit(0, k)
  {
    assert TopOnes(r) == [0, 128, 192, 224, 240, 248, 252, 254][r];
    hide TopOnes;
  }

  /** The mask has exactly `prefix` leading ones. */
  ghost predicate LeadingOnes(mask: seq<byte>, prefix: nat) {
    forall k :: 0 <= k < 8 * |mask| ==> (Bit(mask[k / 8], k % 8) <==> k < prefix)
  }
}
