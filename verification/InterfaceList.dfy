/** Link messages, and the list that `getifaddrs` builds: an entry for each link, then one for each address. */
module InterfaceLists {
  import opened Bytes
  import opened IfAddrsLayout
  import opened IfAddrs

  /** The sizing pass over a link message. */
  method SizeLink(attrs: seq<Attr>) returns (names: nat, addrs: nat, datas: nat)
    ensures names == Names(attrs, |attrs|) && addrs == Ends(17, attrs, |attrs|) && datas == Datas(attrs, |attrs|)
  {
    names, addrs, datas := 0, 0, 0;
    var left := Remaining(attrs, 0);
    for i := 0 to |attrs|
      invariant left == Remaining(attrs, i)
      invariant names == Names(attrs, i) && addrs == Ends(17, attrs, i) && datas == Datas(attrs, i)
    {
      var a := attrs[i];
      match a.kind {
        case Address => addrs := addrs + Align(CalcAddrLen(17, |a.data|));
        case Broadcast => addrs := addrs + Align(CalcAddrLen(17, |a.data|));
        case Name => names := names + Align(left + 1);
        case Stats => datas := datas + Align(left);
        case _ =>
      }
      left := left - Align(4 + |a.data|);
    }
  }

  /** The last statistics before `n` are stored at `at`. */
  ghost predicate DataStored(b: seq<byte>, at: nat, attrs: seq<Attr>, n: nat, data: int)
    requires n <= |attrs|
  {
    var l := LastOf(attrs, n, Stats);
    if l < 0 then data == -1
    else data == at && at + |attrs[l].data| <= |b| && b[at..at + |attrs[l].data|] == attrs[l].data
  }

  lemma DataKept(b: seq<byte>, c: seq<byte>, at: nat, attrs: seq<Attr>, n: nat, data: int)
    requires n <= |attrs| && DataStored(b, at, attrs, n, data) && |b| == |c|
    requires forall k :: at <= k < |b| ==> b[k] == c[k]
    ensures DataStored(c, at, attrs, n, data)
    ensures n < |attrs| && attrs[n].kind != Stats ==> DataStored(c, at, attrs, n + 1, data)
  {
    var l := LastOf(attrs, n, Stats);
    if l >= 0 {
      assert b[at..at + |attrs[l].data|] == c[at..at + |attrs[l].data|];
    }
  }

  /** The first `i` attributes of a link message are in their places, in a block whose names start at `nameAt`. */
  ghost predicate LinkFilled(b: seq<byte>, nameAt: nat, attrs: seq<Attr>, i: nat, f: Interface, name: EntryName,
                             data: int)
    requires i <= |attrs|
  {
    var base := nameAt + Names(attrs, |attrs|);
    var dataAt := base + Ends(17, attrs, |attrs|);
    && |b| == dataAt + Datas(attrs, |attrs|)
    && AllFilled(b, base, 17, attrs, i, f) && NameStored(b, nameAt, attrs, i, name, Empty)
    && DataStored(b, dataAt, attrs, i, data)
  }

  lemma LinkSkipped(b: seq<byte>, nameAt: nat, attrs: seq<Attr>, i: nat, f: Interface, name: EntryName, data: int)
    requires i < |attrs| && !IsAddress(17, attrs[i]) && attrs[i].kind != Name && attrs[i].kind != Stats
    requires LinkFilled(b, nameAt, attrs, i, f, name, data)
    ensures LinkFilled(b, nameAt, attrs, i + 1, f, name, data)
  {
    Skipped(b, nameAt, nameAt + Names(attrs, |attrs|), 17, attrs, i, f, name, Empty);
  }

  method PutLinkAddress(block: array<byte>, nameAt: nat, at: nat, attrs: seq<Attr>, i: nat, f: Interface,
                        ghost name: EntryName, ghost data: int)
    requires i < |attrs| && IsAddress(17, attrs[i]) && Sizes(f)
    requires at == nameAt + Names(attrs, |attrs|) + Ends(17, attrs, i)
    requires LinkFilled(block[..], nameAt, attrs, i, f, name, data)
    modifies block
    ensures LinkFilled(block[..], nameAt, attrs, i + 1, f, name, data)
    ensures forall k :: 0 <= k < nameAt ==> block[k] == old(block[k])
  {
    ghost var was := block[..];
    ghost var base := nameAt + Names(attrs, |attrs|);
    EndsGrows(17, attrs, i + 1, |attrs|);
    PutAddress(block, nameAt, base, at, 17, attrs, i, f, name, Empty);
    DataKept(was, block[..], base + Ends(17, attrs, |attrs|), attrs, i, data);
  }

  method PutLinkName(block: array<byte>, nameAt: nat, attrs: seq<Attr>, i: nat, f: Interface, ghost name: EntryName,
                     ghost data: int)
    requires i < |attrs| && attrs[i].kind == Name && LinkFilled(block[..], nameAt, attrs, i, f, name, data)
    modifies block
    ensures LinkFilled(block[..], nameAt, attrs, i + 1, f, Stored(nameAt), data)
    ensures forall k :: 0 <= k < nameAt ==> block[k] == old(block[k])
  {
    ghost var was := block[..];
    ghost var base := nameAt + Names(attrs, |attrs|);
    PutName(block, nameAt, base, 17, attrs, i, f, Empty);
    DataKept(was, block[..], base + Ends(17, attrs, |attrs|), attrs, i, data);
  }

  method PutData(block: array<byte>, nameAt: nat, at: nat, attrs: seq<Attr>, i: nat, f: Interface,
                 ghost name: EntryName,
                 ghost data: int)
    requires i < |attrs| && attrs[i].kind == Stats
    requires at == nameAt + Names(attrs, |attrs|) + Ends(17, attrs, |attrs|)
    requires LinkFilled(block[..], nameAt, attrs, i, f, name, data)
    modifies block
    ensures LinkFilled(block[..], nameAt, attrs, i + 1, f, name, at)
    ensures forall k :: 0 <= k < nameAt ==> block[k] == old(block[k])
  {
    ghost var was := block[..];
    ghost var base := nameAt + Names(attrs, |attrs|);
    var bytes := attrs[i].data;
    DataFits(attrs, i, |attrs|);
    CopyBytes(block, at, bytes);
    EndsGrows(17, attrs, i, |attrs|);
    AllKept(was, block[..], at, block.Length, base, 17, attrs, i, f);
    NameKept(was, block[..], at, block.Length, nameAt, attrs, i, name, Empty);
    Skipped(block[..], nameAt, base, 17, attrs, i, f, name, Empty);
    assert block[..][at..at + |bytes|] == block[at..at + |bytes|];
  }

  /** The filling pass over a link message. */
  method FillLink(block: array<byte>, nameAt: nat, attrs: seq<Attr>, f: Interface)
    returns (addr: int, dst: int, name: EntryName, data: int)
    requires Sizes(f)
    requires block.Length == nameAt + Names(attrs, |attrs|) + Ends(17, attrs, |attrs|) + Datas(attrs, |attrs|)
    modifies block
    ensures var base := nameAt + Names(attrs, |attrs|);
            && addr == Place(base, 17, attrs, LastOf(attrs, |attrs|, Address))
            && dst == Place(base, 17, attrs, LastOf(attrs, |attrs|, Broadcast))
    ensures LinkFilled(block[..], nameAt, attrs, |attrs|, f, name, data)
    ensures forall k :: 0 <= k < nameAt ==> block[k] == old(block[k])
  {
    var at := nameAt + Names(attrs, |attrs|);
    var dataAt := at + Ends(17, attrs, |attrs|);
    ghost var base := at;
    addr, dst, name, data := -1, -1, Empty, -1;
    for i := 0 to |attrs|
      invariant at == base + Ends(17, attrs, i)
      invariant addr == Place(base, 17, attrs, LastOf(attrs, i, Address))
      invariant dst == Place(base, 17, attrs, LastOf(attrs, i, Broadcast))
      invariant LinkFilled(block[..], nameAt, attrs, i, f, name, data)
      invariant forall k :: 0 <= k < nameAt ==> block[k] == old(block[k])
    {
      hide LinkFilled, Place, LastOf, Ends;
      at, addr, dst, name, data := FillLinkAttr(block, nameAt, at, dataAt, attrs, i, f, addr, dst, name, data);
    }
  }

  /** One attribute's turn of the filling pass. */
  method FillLinkAttr(block: array<byte>, nameAt: nat, at: nat, dataAt: nat, attrs: seq<Attr>, i: nat, f: Interface,
                      addr: int, dst: int, name: EntryName, data: int)
    returns (at': nat, addr': int, dst': int, name': EntryName, data': int)
    requires Sizes(f) && i < |attrs|
    requires block.Length == nameAt + Names(attrs, |attrs|) + Ends(17, attrs, |attrs|) + Datas(attrs, |attrs|)
    requires var base := nameAt + Names(attrs, |attrs|);
             && at == base + Ends(17, attrs, i) && dataAt == base + Ends(17, attrs, |attrs|)
             && addr == Place(base, 17, attrs, LastOf(attrs, i, Address))
             && dst == Place(base, 17, attrs, LastOf(attrs, i, Broadcast))
    requires LinkFilled(block[..], nameAt, attrs, i, f, name, data)
    modifies block
    ensures var base := nameAt + Names(attrs, |attrs|);
            && at' == base + Ends(17, attrs, i + 1)
            && addr' == Place(base, 17, attrs, LastOf(attrs, i + 1, Address))
            && dst' == Place(base, 17, attrs, LastOf(attrs, i + 1, Broadcast))
    ensures LinkFilled(block[..], nameAt, attrs, i + 1, f, name', data')
    ensures forall k :: 0 <= k < nameAt ==> block[k] == old(block[k])
  {
    hide LinkFilled;
    at', addr', dst', name', data' := at, addr, dst, name, data;
    var a := attrs[i];
    match a.kind {
      case Address =>
        PutLinkAddress(block, nameAt, at, attrs, i, f, name, data);
        addr' := at;
        at' := at + Align(CalcAddrLen(17, |a.data|));
      case Broadcast =>
        PutLinkAddress(block, nameAt, at, attrs, i, f, name, data);
        dst' := at;
        at' := at + Align(CalcAddrLen(17, |a.data|));
      case Name =>
        PutLinkName(block, nameAt, attrs, i, f, name, data);
        name' := Stored(nameAt);
      case Stats =>
        PutData(block, nameAt, dataAt, attrs, i, f, name, data);
        data' := dataAt;
      case _ =>
        LinkSkipped(block[..], nameAt, attrs, i, f, name, data);
    }
  }

  /** The index behind the header says which link the entry is for. */
  ghost predicate Indexed(e: Entry, header: nat, index: seq<byte>) {
    header + 4 <= |e.block| && e.block[header..header + 4] == index
  }

  /** What the entry made for a link message is. */
  ghost predicate LinkEntry(e: Entry, header: nat, m: LinkMsg) {
    var n := |m.attrs|;
    var base := header + 4 + Names(m.attrs, n);
    && e.isLink && e.mask == -1 && e.flags == m.flags && Indexed(e, header, m.on.index)
    && e.addr == Place(base, 17, m.attrs, LastOf(m.attrs, n, Address))
    && e.dst == Place(base, 17, m.attrs, LastOf(m.attrs, n, Broadcast))
    && LinkFilled(e.block, header + 4, m.attrs, n, m.on, e.name, e.data)
  }

  method InterpretLink(header: nat, m: LinkMsg) returns (e: Entry)
    requires Sizes(m.on)
    ensures LinkEntry(e, header, m)
  {
    hide LinkFilled, Ends, Names, Datas, LastOf;
    var names, addrs, datas := SizeLink(m.attrs);
    var block := new byte[header + 4 + names + addrs + datas];
    CopyBytes(block, header, m.on.index);
    ghost var index := block[header..header + 4];
    var addr, dst, name, data := FillLink(block, header + 4, m.attrs, m.on);
    assert block[..][header..header + 4] == index;
    e := Entry(true, name, m.flags, addr, dst, -1, data, block[..]);
  }

  /** `findInterface`: the first link entry with this index; only link entries are looked at. */
  method FindInterface(list: seq<Entry>, header: nat, numLinks: nat, index: seq<byte>) returns (found: int)
    requires numLinks <= |list| && |index| == 4
    requires forall i :: 0 <= i < numLinks ==> list[i].isLink && header + 4 <= |list[i].block|
    ensures IsFound(list, header, numLinks, index, found)
  {
    var num := 0;
    while num < |list| && num < numLinks
      invariant num <= numLinks && forall i :: 0 <= i < num ==> !Indexed(list[i], header, index)
    {
      if list[num].block[header..header + 4] == index {
        return num;
      }
      num := num + 1;
    }
    return -1;
  }

  ghost predicate IsFound(list: seq<Entry>, header: nat, numLinks: nat, index: seq<byte>, found: int)
    requires numLinks <= |list|
  {
    && -1 <= found < numLinks && (found >= 0 ==> Indexed(list[found], header, index))
    && forall i :: 0 <= i < (if found >= 0 then found else numLinks) ==> !Indexed(list[i], header, index)
  }

  // ---------- The whole list ----------

  /** A message of a response: one for another request, the end of the response, a link, an address, or something
      else. */
  datatype Message = Foreign | Done | NewLink(link: LinkMsg) | NewAddr(addr: AddrMsg) | Other

  /** The messages of a response up to its end. */
  function Heard(chunk: seq<Message>): seq<Message> {
    if chunk == [] || chunk[0].Done? then [] else [chunk[0]] + Heard(chunk[1..])
  }

  function AllHeard(chunks: seq<seq<Message>>): seq<Message> {
    if chunks == [] then [] else Heard(chunks[0]) + AllHeard(chunks[1..])
  }

  function Links(ms: seq<Message>): seq<LinkMsg> {
    if ms == [] then []
    else Links(ms[..|ms| - 1]) + if ms[|ms| - 1].NewLink? then [ms[|ms| - 1].link] else []
  }

  /** The addresses for which entries are made. */
  function Addrs(ms: seq<Message>): seq<AddrMsg> {
    if ms == [] then []
    else
      Addrs(ms[..|ms| - 1])
      + if ms[|ms| - 1].NewAddr? && ms[|ms| - 1].addr.family != 17 then [ms[|ms| - 1].addr] else []
  }

  /** Message `k` of chunk `i` comes before the end of its response. */
  ghost predicate InTime(chunks: seq<seq<Message>>, i: int, k: int) {
    0 <= i < |chunks| && 0 <= k < |chunks[i]| && forall j :: 0 <= j <= k ==> !chunks[i][j].Done?
  }

  /** A chunk is heard up to its first end of a response. */
  lemma {:induction false} HeardIs(chunk: seq<Message>, k: nat)
    requires k <= |chunk| && (forall j :: 0 <= j < k ==> !chunk[j].Done?) && (k < |chunk| ==> chunk[k].Done?)
    ensures Heard(chunk) == chunk[..k]
  {
    if k > 0 {
      HeardIs(chunk[1..], k - 1);
      assert chunk[..k] == [chunk[0]] + chunk[1..][..k - 1];
    }
  }

  lemma {:induction false} HeardIn(chunk: seq<Message>, m: Message)
    ensures m in Heard(chunk) <==>
              exists k :: 0 <= k < |chunk| && chunk[k] == m && forall j :: 0 <= j <= k ==> !chunk[j].Done?
  {
    var k := FirstDone(chunk);
    HeardIs(chunk, k);
    hide Heard;
    if m in chunk[..k] {
      var i :| 0 <= i < k && chunk[..k][i] == m;
      assert chunk[i] == m;
    }
  }

  function FirstDone(chunk: seq<Message>): (k: nat)
    ensures k <= |chunk| && (forall j :: 0 <= j < k ==> !chunk[j].Done?) && (k < |chunk| ==> chunk[k].Done?)
  {
    if chunk == [] || chunk[0].Done? then 0 else 1 + FirstDone(chunk[1..])
  }

  /** What is heard are the messages that come in time. */
  lemma {:induction false} HeardExactly(chunks: seq<seq<Message>>, m: Message)
    ensures m in AllHeard(chunks) <==> exists i, k :: InTime(chunks, i, k) && chunks[i][k] == m
  {
    if chunks != [] {
      HeardExactly(chunks[1..], m);
      HeardIn(chunks[0], m);
      hide Heard;
      forall i, k | InTime(chunks[1..], i, k)
        ensures InTime(chunks, i + 1, k) && chunks[i + 1][k] == chunks[1..][i][k]
      {
        assert chunks[i + 1] == chunks[1..][i];
      }
      forall i, k | InTime(chunks, i, k) && i > 0 ensures InTime(chunks[1..], i - 1, k) {
        assert chunks[i] == chunks[1..][i - 1];
      }
      forall k | 0 <= k < |chunks[0]| && forall j :: 0 <= j <= k ==> !chunks[0][j].Done? ensures InTime(chunks, 0, k) {
      }
    }
  }

  lemma {:induction false} LinksIn(ms: seq<Message>, link: LinkMsg)
    ensures link in Links(ms) <==> NewLink(link) in ms
  {
    if ms != [] {
      LinksIn(ms[..|ms| - 1], link);
      assert ms == ms[..|ms| - 1] + [ms[|ms| - 1]];
    }
  }

  lemma {:induction false} AddrsIn(ms: seq<Message>, addr: AddrMsg)
    ensures addr in Addrs(ms) <==> NewAddr(addr) in ms && addr.family != 17
  {
    if ms != [] {
      AddrsIn(ms[..|ms| - 1], addr);
      assert ms == ms[..|ms| - 1] + [ms[|ms| - 1]];
    }
  }

  /** Entries are made for exactly the link messages, and the address messages that are not a link's, that come before
      the end of their response. */
  lemma EntriesFor(chunks: seq<seq<Message>>, link: LinkMsg, addr: AddrMsg)
    ensures link in Links(AllHeard(chunks)) <==> exists i, k :: InTime(chunks, i, k) && chunks[i][k] == NewLink(link)
    ensures addr in Addrs(AllHeard(chunks)) <==>
              addr.family != 17 && exists i, k :: InTime(chunks, i, k) && chunks[i][k] == NewAddr(addr)
  {
    LinksIn(AllHeard(chunks), link);
    AddrsIn(AllHeard(chunks), addr);
    HeardExactly(chunks, NewLink(link));
    HeardExactly(chunks, NewAddr(addr));
  }

  ghost predicate MessageOk(m: Message) {
    (m.NewLink? ==> Sizes(m.link.on)) && (m.NewAddr? ==> AddrOk(m.addr))
  }

  ghost predicate ChunksOk(chunks: seq<seq<Message>>) {
    forall i, k :: 0 <= i < |chunks| && 0 <= k < |chunks[i]| ==> MessageOk(chunks[i][k])
  }

  ghost predicate LinkEntries(list: seq<Entry>, header: nat, ms: seq<LinkMsg>) {
    |list| == |ms| && forall i :: 0 <= i < |ms| ==> LinkEntry(list[i], header, ms[i])
  }

  /** The entry at `i` is the one for address `m`, and its link is the first one with the message's index. */
  ghost predicate AddrEntryAt(list: seq<Entry>, header: nat, numLinks: nat, i: nat, m: AddrMsg)
    requires numLinks <= i < |list|
  {
    exists found :: IsFound(list, header, numLinks, m.index, found)
                    && AddrEntry(list[i], header, m, found, if found >= 0 then list[found].flags else 0)
  }

  ghost predicate AddrEntries(list: seq<Entry>, header: nat, numLinks: nat, ms: seq<AddrMsg>) {
    && |list| == numLinks + |ms|
    && forall i :: 0 <= i < |ms| ==> AddrEntryAt(list, header, numLinks, numLinks + i, ms[i])
  }

  lemma HeardNext(chunk: seq<Message>, i: nat, heard: seq<Message>)
    requires i < |chunk| && !chunk[i].Done?
    ensures heard + Heard(chunk[i..]) == heard + [chunk[i]] + Heard(chunk[i + 1..])
  {
    assert chunk[i..][1..] == chunk[i + 1..];
  }

  lemma AllHeardNext(chunks: seq<seq<Message>>, c: nat, heard: seq<Message>)
    requires c < |chunks|
    ensures heard + AllHeard(chunks[c..]) == heard + Heard(chunks[c]) + AllHeard(chunks[c + 1..])
  {
    assert chunks[c..][1..] == chunks[c + 1..];
  }

  lemma AllHeardEnd(chunks: seq<seq<Message>>, heard: seq<Message>)
    ensures heard + AllHeard(chunks[|chunks|..]) == heard
  {
  }

  method InterpretLinks(chunks: seq<seq<Message>>, header: nat) returns (list: seq<Entry>, numLinks: nat)
    requires ChunksOk(chunks)
    ensures numLinks == |list| && LinkEntries(list, header, Links(AllHeard(chunks)))
  {
    list, numLinks := [], 0;
    ghost var heard: seq<Message> := [];
    for c := 0 to |chunks|
      invariant heard + AllHeard(chunks[c..]) == AllHeard(chunks)
      invariant numLinks == |list| && LinkEntries(list, header, Links(heard))
    {
      hide LinkEntries, Links, AllHeard, Heard;
      AllHeardNext(chunks, c, heard);
      list, numLinks, heard := ReadLinks(chunks[c], header, list, numLinks, heard);
    }
    AllHeardEnd(chunks, heard);
  }

  /** The inner loop, over one response. */
  method ReadLinks(chunk: seq<Message>, header: nat, before: seq<Entry>, numBefore: nat,
                   ghost heardBefore: seq<Message>)
    returns (list: seq<Entry>, numLinks: nat, ghost heard: seq<Message>)
    requires forall k :: 0 <= k < |chunk| ==> MessageOk(chunk[k])
    requires numBefore == |before| && LinkEntries(before, header, Links(heardBefore))
    ensures heard == heardBefore + Heard(chunk) && numLinks == |list| && LinkEntries(list, header, Links(heard))
  {
    hide LinkEntry, Heard;
    list, numLinks, heard := before, numBefore, heardBefore;
    var i := 0;
    while i < |chunk|
      invariant i <= |chunk| && heard + Heard(chunk[i..]) == heardBefore + Heard(chunk)
      invariant numLinks == |list| && LinkEntries(list, header, Links(heard))
    {
      var m := chunk[i];
      if m.Done? {
        HeardEnds(chunk, i);
        assert heard == heardBefore + Heard(chunk);
        return;
      }
      if m.NewLink? {
        var e := InterpretLink(header, m.link);
        list := list + [e];
        numLinks := numLinks + 1;
      }
      HeardNext(chunk, i, heard);
      assert (heard + [m])[..|heard|] == heard;
      heard := heard + [m];
      i := i + 1;
    }
    HeardNothing(chunk);
    assert heard == heardBefore + Heard(chunk);
  }

  lemma HeardEnds(chunk: seq<Message>, i: nat)
    requires i < |chunk| && chunk[i].Done?
    ensures Heard(chunk[i..]) == []
  {
  }

  lemma HeardNothing(chunk: seq<Message>)
    ensures Heard(chunk[|chunk|..]) == []
  {
  }

  /** Appending an entry leaves what was found for the others as it is. */
  lemma AddrEntriesKept(list: seq<Entry>, header: nat, numLinks: nat, ms: seq<AddrMsg>, e: Entry, m: AddrMsg,
                        found: int)
    requires numLinks <= |list| && AddrEntries(list, header, numLinks, ms)
    requires IsFound(list, header, numLinks, m.index, found)
    requires AddrEntry(e, header, m, found, if found >= 0 then list[found].flags else 0)
    ensures AddrEntries(list + [e], header, numLinks, ms + [m])
  {
    var t, ns := list + [e], ms + [m];
    hide AddrEntry;
    forall i | 0 <= i < |ns| ensures AddrEntryAt(t, header, numLinks, numLinks + i, ns[i]) {
      if i < |ms| {
        assert AddrEntryAt(list, header, numLinks, numLinks + i, ms[i]);
        var g :| IsFound(list, header, numLinks, ms[i].index, g)
                 && AddrEntry(list[numLinks + i], header, ms[i], g, if g >= 0 then list[g].flags else 0);
        assert IsFound(t, header, numLinks, ms[i].index, g);
      } else {
        assert IsFound(t, header, numLinks, m.index, found);
      }
    }
  }

  lemma AddrsNext(heard: seq<Message>, m: Message)
    ensures Addrs(heard + [m]) == if m.NewAddr? && m.addr.family != 17 then Addrs(heard) + [m.addr] else Addrs(heard)
  {
    assert (heard + [m])[..|heard|] == heard;
  }

  method InterpretAddrs(chunks: seq<seq<Message>>, header: nat, links: seq<Entry>, numLinks: nat)
    returns (list: seq<Entry>)
    requires ChunksOk(chunks) && numLinks == |links|
    requires forall i :: 0 <= i < numLinks ==> links[i].isLink && header + 4 <= |links[i].block|
    ensures links <= list && AddrEntries(list, header, numLinks, Addrs(AllHeard(chunks)))
  {
    list := links;
    ghost var heard: seq<Message> := [];
    for c := 0 to |chunks|
      invariant heard + AllHeard(chunks[c..]) == AllHeard(chunks)
      invariant links <= list && AddrEntries(list, header, numLinks, Addrs(heard))
    {
      hide AddrEntries, Addrs, AllHeard, Heard;
      AllHeardNext(chunks, c, heard);
      list, heard := ReadAddrs(chunks[c], header, list, numLinks, heard);
    }
    AllHeardEnd(chunks, heard);
  }

  method ReadAddrs(chunk: seq<Message>, header: nat, before: seq<Entry>, numLinks: nat, ghost heardBefore: seq<Message>)
    returns (list: seq<Entry>, ghost heard: seq<Message>)
    requires forall k :: 0 <= k < |chunk| ==> MessageOk(chunk[k])
    requires numLinks <= |before| && AddrEntries(before, header, numLinks, Addrs(heardBefore))
    requires forall i :: 0 <= i < numLinks ==> before[i].isLink && header + 4 <= |before[i].block|
    ensures heard == heardBefore + Heard(chunk) && before <= list && AddrEntries(list, header, numLinks, Addrs(heard))
  {
    hide AddrEntries, AddrEntry, IsFound, Heard;
    list, heard := before, heardBefore;
    var i := 0;
    while i < |chunk|
      invariant i <= |chunk| && heard + Heard(chunk[i..]) == heardBefore + Heard(chunk)
      invariant before <= list && AddrEntries(list, header, numLinks, Addrs(heard))
    {
      var m := chunk[i];
      if m.Done? {
        HeardEnds(chunk, i);
        assert heard == heardBefore + Heard(chunk);
        return;
      }
      assert MessageOk(m);
      HeardNext(chunk, i, heard);
      AddrsNext(heard, m);
      if m.NewAddr? {
        var found := FindInterface(list, header, numLinks, m.addr.index);
        if m.addr.family != 17 {
          ghost var ms := Addrs(heard);
          Bounded(list, header, numLinks, m.addr.index, found);
          var flags := if found >= 0 then list[found].flags else 0;
          var e := InterpretAddr(header, m.addr, found, flags);
          AddrEntriesKept(list, header, numLinks, ms, e, m.addr, found);
          list := list + [e];
        }
      }
      heard := heard + [m];
      i := i + 1;
    }
    HeardNothing(chunk);
    assert heard == heardBefore + Heard(chunk);
  }

  lemma Bounded(list: seq<Entry>, header: nat, numLinks: nat, index: seq<byte>, found: int)
    requires numLinks <= |list| && IsFound(list, header, numLinks, index, found)
    ensures -1 <= found < numLinks
  {
  }

  /** `getifaddrs`, from the responses on. */
  method GetIfAddrs(linkChunks: seq<seq<Message>>, addrChunks: seq<seq<Message>>, header: nat)
    returns (list: seq<Entry>, numLinks: nat)
    requires ChunksOk(linkChunks) && ChunksOk(addrChunks)
    ensures numLinks <= |list| && LinkEntries(list[..numLinks], header, Links(AllHeard(linkChunks)))
    ensures AddrEntries(list, header, numLinks, Addrs(AllHeard(addrChunks)))
  {
    var links: seq<Entry>;
    links, numLinks := InterpretLinks(linkChunks, header);
    ghost var ms := Links(AllHeard(linkChunks));
    forall i | 0 <= i < numLinks ensures links[i].isLink && header + 4 <= |links[i].block| {
      assert LinkEntry(links[i], header, ms[i]);
    }
    list := InterpretAddrs(addrChunks, header, links, numLinks);
    assert list[..numLinks] == links;
  }
}
