/** Staggered parallel connecting: starts attempts one after the other until one of them succeeds. */
module MultiConnects {
  import opened Sockets
  import opened TcpClientFsm

  type uint32 = x: int | 0 <= x < 0x1_0000_0000

  // ---------- The history of a run ----------

  /** The run began; an attempt was started at some time, after a look at the clock shortly before, with so many others
      running; a look at the clock started none; an attempt was lost. */
  datatype Event =
    | Began(at: nat)
    | Started(index: nat, looked: nat, at: nat, running: nat)
    | Waited(looked: nat, running: nat)
    | Lost(index: nat)

  type History = seq<Event>

  datatype Plan = Plan(count: nat, maxConnect: nat, interval: nat, errorInterval: nat)

  function StartCount(h: History): nat {
    if h == [] then 0 else StartCount(h[..|h| - 1]) + (if h[|h| - 1].Started? then 1 else 0)
  }

  /** How often it was decided whether to start an attempt. */
  function Rounds(h: History): nat {
    if h == [] then 0
    else Rounds(h[..|h| - 1]) + (if h[|h| - 1].Started? || h[|h| - 1].Waited? then 1 else 0)
  }

  /** When the latest attempt was started. */
  function LastStart(h: History): nat
    requires StartCount(h) > 0
  {
    if h[|h| - 1].Started? then h[|h| - 1].at else LastStart(h[..|h| - 1])
  }

  function BeganAt(h: History): nat {
    if h != [] && h[0].Began? then h[0].at else 0
  }

  /** An attempt failed after the latest start. */
  predicate LostSinceStart(h: History) {
    h != [] && (h[|h| - 1].Lost? || (h[|h| - 1].Waited? && LostSinceStart(h[..|h| - 1])))
  }

  /** Attempts were started in index order, each no sooner after the one before than the interval
      that applied: the error interval if an attempt failed in between. */
  predicate Paced(h: History, interval: nat, errorInterval: nat) {
    h != [] ==>
      var before := h[..|h| - 1];
      && Paced(before, interval, errorInterval)
      && (h[|h| - 1].Started? ==>
            && h[|h| - 1].index == StartCount(before)
            && (StartCount(before) > 0 ==>
                  h[|h| - 1].at - LastStart(before) >= if LostSinceStart(before) then errorInterval else interval))
  }

  /** The interval that applies to the next start. */
  function Wait(h: History, p: Plan): nat {
    if LostSinceStart(h) then p.errorInterval else p.interval
  }

  /** How long ago the latest start was; the beginning counts as the longer interval behind one. */
  function Elapsed(h: History, p: Plan, looked: nat): int {
    looked - if StartCount(h) > 0 then LastStart(h) else BeganAt(h) - Max(p.interval, p.errorInterval)
  }

  /** When the 32-bit computation takes the wait for over: it is over, by no more than 2^31 milliseconds modulo 2^32. */
  predicate Due32(wait: nat, elapsed: int) {
    (elapsed - wait) % 0x1_0000_0000 <= 0x8000_0000
  }

  /** A wait below 2^31 milliseconds is taken for over exactly when it is, for another 2^31. */
  lemma Due32Means(wait: nat, elapsed: nat)
    requires wait < 0x8000_0000 && elapsed <= wait + 0x8000_0000
    ensures Due32(wait, elapsed) <==> elapsed >= wait
  {
  }

  predicate DueAt(h: History, p: Plan, looked: nat) {
    Due32(Wait(h, p), Elapsed(h, p, looked))
  }

  /** At every decision an attempt was started if and only if there was one left, fewer than the most allowed were
      running, and the 32-bit computation took the interval that applied for over. Attempts are started in order. */
  predicate Timed(h: History, p: Plan) {
    h != [] ==>
      var before := h[..|h| - 1];
      && Timed(before, p)
      && match h[|h| - 1]
         case Began(at) => before == []
         case Lost(_) => true
         case Started(index, looked, at, running) =>
           && index == StartCount(before) < p.count && running < p.maxConnect && running <= StartCount(before)
           && DueAt(before, p, looked) && Behind(before, looked) && looked <= at
         case Waited(looked, running) =>
           && (StartCount(before) >= p.count || running >= p.maxConnect || !DueAt(before, p, looked))
           && running <= StartCount(before) && Behind(before, looked)
  }

  predicate Behind(h: History, looked: nat) {
    BeganAt(h) <= looked && (StartCount(h) > 0 ==> LastStart(h) <= looked)
  }

  /** Below 2^31 milliseconds the intervals are kept. */
  lemma {:induction false} TimedIsPaced(h: History, p: Plan)
    requires Timed(h, p) && p.interval < 0x8000_0000 && p.errorInterval < 0x8000_0000
    ensures Paced(h, p.interval, p.errorInterval)
  {
    if h != [] {
      TimedIsPaced(h[..|h| - 1], p);
    }
  }

  /** In a run of less than 2^31 milliseconds that makes a decision at all, the first attempt is started. */
  lemma {:induction false} FirstStarts(h: History, p: Plan, now: nat)
    requires Timed(h, p) && Rounds(h) > 0 && p.count > 0 && p.maxConnect > 0
    requires forall e :: e in h && e.Waited? ==> e.looked <= now
    requires Max(p.interval, p.errorInterval) + now - BeganAt(h) <= 0x8000_0000
    ensures StartCount(h) > 0
  {
    var before, e := h[..|h| - 1], h[|h| - 1];
    assert e in h && forall d :: d in before ==> d in h;
    if Rounds(before) > 0 {
      assert |before| > 0 && before[0] == h[0];
      FirstStarts(before, p, now);
    } else {
      NoRounds(before);
    }
  }

  lemma {:induction false} NoRounds(h: History)
    requires Rounds(h) == 0
    ensures StartCount(h) == 0
  {
    if h != [] { NoRounds(h[..|h| - 1]); }
  }

  /** From 2^31 on they are not: the second attempt may be started in the same millisecond as the first. */
  lemma StartedAtOnce(t: nat)
    requires t < 0x1_0000_0000_0000_0000
    ensures NextConnectTimeout(0x8000_0000, t, t) <= 0
    ensures var h := [Began(t), Started(0, t, t, 0), Started(1, t, t, 1)];
            Timed(h, Plan(2, 2, 0x8000_0000, 0x8000_0000)) && !Paced(h, 0x8000_0000, 0x8000_0000)
  {
    var h := [Began(t), Started(0, t, t, 0), Started(1, t, t, 1)];
    assert h[..2] == [Began(t), Started(0, t, t, 0)] && h[..2][..1] == [Began(t)] && h[..2][..1][..0] == [];
    assert StartCount([Began(t)]) == 0 && StartCount(h[..2]) == 1 && LastStart(h[..2]) == t;
    assert !LostSinceStart([Began(t)]) && !LostSinceStart(h[..2]);
    var p := Plan(2, 2, 0x8000_0000, 0x8000_0000);
    assert Timed([Began(t)], p) && Timed(h[..2], p);
  }

  /** The number of milliseconds until the next start is due, as the code computes it. */
  function NextConnectTimeout(interval: nat, curtime: nat, laststart: nat): int {
    Int32(U64(interval - U64(curtime - laststart)))
  }

  /** A start is due too early exactly when the remaining wait does not fit a positive 32-bit number, and too late
      exactly when the time since does not fit one. */
  lemma DueExact(interval: nat, curtime: nat, laststart: nat)
    requires interval < 0x1_0000_0000 && laststart <= curtime < 0x1_0000_0000_0000_0000
    ensures NextConnectTimeout(interval, curtime, laststart) <= 0 <==> Due32(interval, curtime - laststart)
    ensures curtime - laststart < interval ==>
              (NextConnectTimeout(interval, curtime, laststart) <= 0
               <==> interval - (curtime - laststart) >= 0x8000_0000)
    ensures curtime - laststart >= interval ==>
              (NextConnectTimeout(interval, curtime, laststart) <= 0
               <==> (curtime - laststart - interval) % 0x1_0000_0000 <= 0x8000_0000)
  {
    hide Int32, NextConnectTimeout;
    TimeoutIs(interval, curtime, laststart);
    NotPositive(interval - (curtime - laststart));
  }

  /** The 64-bit subtractions lose nothing of the 32 bits that are kept. */
  lemma TimeoutIs(interval: nat, curtime: nat, laststart: int)
    ensures NextConnectTimeout(interval, curtime, U64(laststart)) == Int32(interval - (curtime - laststart))
    ensures laststart >= 0 ==>
              NextConnectTimeout(interval, curtime, laststart) == Int32(interval - (curtime - laststart))
  {
    hide Int32, U64;
    Difference(curtime, laststart);
    Difference(interval, curtime - laststart);
    LowBits(interval - (curtime - laststart));
  }

  lemma Difference(a: int, b: int)
    ensures U64(a - U64(b)) == U64(a - b)
  {
  }

  lemma LowBits(x: int)
    ensures Int32(U64(x)) == Int32(x)
  {
    var q, r := x / 0x1_0000_0000_0000_0000, U64(x);
    var a, b := r / 0x1_0000_0000, r % 0x1_0000_0000;
    assert x == 0x1_0000_0000 * (0x1_0000_0000 * q + a) + b;
    SameRemainder(x, 0x1_0000_0000 * q + a, b);
  }

  lemma SameRemainder(x: int, q: int, b: int)
    requires x == 0x1_0000_0000 * q + b && 0 <= b < 0x1_0000_0000
    ensures x % 0x1_0000_0000 == b
  {
  }

  lemma NotPositive(x: int)
    ensures Int32(x) <= 0 <==> (-x) % 0x1_0000_0000 <= 0x8000_0000
  {
  }

  /** A wait that has been over for more than 2^31 milliseconds counts as running again. */
  lemma DueNoMore(interval: nat, laststart: nat)
    requires interval < 0x8000_0000 && laststart < 0x1_0000_0000
    ensures NextConnectTimeout(interval, laststart + interval + 0x8000_0001, laststart) == 0x7FFF_FFFF
  {
  }

  // ---------- Who owns which socket ----------

  type Attempts = seq<ConnectCheckFSM?>

  /** `socks` lists the sockets of the attempts, with `INVALID_SOCKET` for those that have none or were deleted.
      Together with `base`, the sockets open before, they are all open sockets, and no two are the same:
      `owner` says whose each one is. */
  ghost predicate Ledger(socks: seq<int>, open: set<int>, base: set<int>, owner: map<int, nat>) {
    && base !! owner.Keys && open == base + owner.Keys
    && (forall s :: s in owner ==> s != INVALID_SOCKET && owner[s] < |socks| && socks[owner[s]] == s)
    && (forall i :: 0 <= i < |socks| && socks[i] != INVALID_SOCKET ==> socks[i] in owner && owner[socks[i]] == i)
  }

  lemma LedgerSize(socks: seq<int>, open: set<int>, base: set<int>, owner: map<int, nat>)
    requires Ledger(socks, open, base, owner)
    ensures |open| == |base| + |owner|
  {
    assert |owner| == |owner.Keys|;
  }

  lemma NothingOpen(n: nat, base: set<int>)
    ensures Ledger(seq(n, _ => INVALID_SOCKET), base, base, map[])
  {
  }

  /** A new socket goes to attempt `i`, which had none. */
  lemma LedgerOpen(socks: seq<int>, open: set<int>, base: set<int>, owner: map<int, nat>, i: nat, s: int)
    requires Ledger(socks, open, base, owner) && i < |socks| && socks[i] == INVALID_SOCKET
    requires s != INVALID_SOCKET && s !in open
    ensures Ledger(socks[i := s], open + {s}, base, owner[s := i]) && |owner[s := i]| == |owner| + 1
  {
    assert s !in owner;
    assert owner[s := i].Keys == owner.Keys + {s};
  }

  /** Attempt `i` gives up its socket: closed, or kept open and handed out. */
  lemma LedgerDrop(socks: seq<int>, open: set<int>, base: set<int>, owner: map<int, nat>, i: nat)
    requires Ledger(socks, open, base, owner) && i < |socks| && socks[i] != INVALID_SOCKET
    ensures Ledger(socks[i := INVALID_SOCKET], open - {socks[i]}, base, owner - {socks[i]})
    ensures Ledger(socks[i := INVALID_SOCKET], open, base + {socks[i]}, owner - {socks[i]})
    ensures socks[i] in open && socks[i] !in base && |owner - {socks[i]}| <= |owner|
    ensures forall j :: 0 <= j < |socks| && j != i ==> socks[j] != socks[i]
  {
    assert (owner - {socks[i]}).Keys == owner.Keys - {socks[i]};
  }

  /** The live attempts, their addresses and sockets. */
  ghost predicate Tracks(vec: Attempts, addrs: seq<Address>, os: Os, socks: seq<int>)
    reads os`open, os`peer, os`good, set i | 0 <= i < |vec| :: vec[i]
  {
    && |vec| == |addrs| == |socks|
    && forall i :: 0 <= i < |vec| ==>
         if vec[i] == null then socks[i] == INVALID_SOCKET
         else vec[i].index == i && vec[i].address == addrs[i] && vec[i].sock == socks[i] && vec[i].Valid(os)
  }

  /** Where an attempt may be at the head of an iteration: not yet started, connecting, or connected
      with its verification pending. */
  ghost predicate AtHead(f: ConnectCheckFSM, started: bool)
    reads f
  {
    if started then f.status == EConnecting || (f.status == EReadWrite && f.checkStatus == ECheckInit)
    else f.status == EStart
  }

  ghost predicate AllAtHead(vec: Attempts, lo: nat, hi: nat, started: bool)
    reads set i | 0 <= i < |vec| :: vec[i]
  {
    forall i :: lo <= i < hi && i < |vec| && vec[i] != null ==> AtHead(vec[i], started)
  }

  ghost function Objects(vec: Attempts): set<object?> {
    set i | 0 <= i < |vec| :: vec[i]
  }

  /** How many attempts have a socket. */
  method CountConnecting(vec: Attempts, ghost addrs: seq<Address>, os: Os, ghost socks: seq<int>,
                         ghost base: set<int>, ghost owner: map<int, nat>)
    returns (n: nat)
    requires Tracks(vec, addrs, os, socks) && Ledger(socks, os.open, base, owner)
    ensures n == |owner|
  {
    n := 0;
    ghost var seen := {};
    for i := 0 to |vec|
      invariant forall s :: s in seen <==> s in owner && owner[s] < i
      invariant n == |seen|
    {
      if vec[i] != null && vec[i].sock != INVALID_SOCKET {
        seen := seen + {vec[i].sock};
        n := n + 1;
      }
    }
    assert forall s :: s in seen <==> s in owner.Keys;
    assert seen == owner.Keys;
  }

  /** The select preparation of one started attempt. If it has no socket yet, it may open one. */
  method PreSelectOne(vec: Attempts, ghost addrs: seq<Address>, os: Os, i: nat, ghost socks: seq<int>,
                      ghost base: set<int>, ghost owner: map<int, nat>)
    returns (timeout: int, ghost socks': seq<int>, ghost owner': map<int, nat>)
    requires Tracks(vec, addrs, os, socks) && Ledger(socks, os.open, base, owner)
    requires i < |vec| && vec[i] != null && vec[i].status != EEnd
    ensures |socks'| == |socks|
    modifies vec[i], os`open, os`peer, os`now, os`peak, os`good, os`failed
    ensures Tracks(vec, addrs, os, socks') && Ledger(socks', os.open, base, owner')
    ensures os.now >= old(os.now) && vec[i].status != EStart && vec[i].checkStatus == old(vec[i].checkStatus)
    ensures old(vec[i].status) == EStart ==> |owner'| <= |owner| + 1 && os.peak <= Max(old(os.peak), |base| + |owner'|)
    ensures old(vec[i].status) != EStart ==>
              vec[i].status == old(vec[i].status) && owner' == owner && os.peak == old(os.peak)
  {
    hide Ledger;
    vec[i].PreSelect(os);
    socks', owner' := socks[i := vec[i].sock], owner;
    if vec[i].sock != socks[i] {
      LedgerOpen(socks, old(os.open), base, owner, i, vec[i].sock);
      owner' := owner[vec[i].sock := i];
    }
    assert socks' == socks || vec[i].sock != socks[i];
    LedgerSize(socks', os.open, base, owner');
    timeout := vec[i].Timeout(os);
  }

  /** The select preparation of all started attempts: only the one started last may open a socket. */
  method PreSelectAll(vec: Attempts, ghost addrs: seq<Address>, os: Os, index: nat, timeout0: int,
                      ghost socks: seq<int>, ghost base: set<int>, ghost owner: map<int, nat>)
    returns (timeout: int, ghost socks': seq<int>, ghost owner': map<int, nat>)
    requires Tracks(vec, addrs, os, socks) && Ledger(socks, os.open, base, owner) && index <= |vec|
    requires forall i :: 0 <= i < index - 1 && vec[i] != null ==> AtHead(vec[i], true)
    requires index > 0 && vec[index - 1] != null ==> AtHead(vec[index - 1], true) || AtHead(vec[index - 1], false)
    requires AllAtHead(vec, index, |vec|, false)
    modifies Objects(vec), os`open, os`peer, os`now, os`peak, os`good, os`failed
    ensures Tracks(vec, addrs, os, socks') && Ledger(socks', os.open, base, owner')
    ensures forall i :: 0 <= i < index && vec[i] != null ==> vec[i].status != EStart
    ensures AllAtHead(vec, index, |vec|, false) && os.now >= old(os.now) && |socks'| == |socks|
    ensures index > 0 && vec[index - 1] != null && old(vec[index - 1].status) == EStart ==>
              |owner'| <= |owner| + 1 && os.peak <= Max(old(os.peak), |base| + |owner| + 1)
    ensures !(index > 0 && vec[index - 1] != null && old(vec[index - 1].status) == EStart) ==>
              owner' == owner && os.peak == old(os.peak)
  {
    hide Ledger;
    timeout, socks', owner' := timeout0, socks, owner;
    for i := 0 to index
      invariant Tracks(vec, addrs, os, socks') && Ledger(socks', os.open, base, owner') && os.now >= old(os.now)
      invariant |socks'| == |socks|
      invariant forall j :: 0 <= j < i && vec[j] != null ==> vec[j].status != EStart
      invariant forall j :: i <= j < |vec| && vec[j] != null ==>
                  vec[j].status == old(vec[j].status) && vec[j].checkStatus == old(vec[j].checkStatus)
      invariant i < index ==> owner' == owner && os.peak == old(os.peak)
      invariant i == index && i > 0 && vec[i - 1] != null && old(vec[i - 1].status) == EStart ==>
                  |owner'| <= |owner| + 1 && os.peak <= Max(old(os.peak), |base| + |owner| + 1)
      invariant !(i > 0 && vec[i - 1] != null && old(vec[i - 1].status) == EStart) ==>
                  owner' == owner && os.peak == old(os.peak)
    {
      if vec[i] != null {
        var t;
        t, socks', owner' := PreSelectOne(vec, addrs, os, i, socks', base, owner');
        timeout := Min(timeout, t);
      }
    }
  }

  /** Closes and deletes attempt `i`. */
  method CloseOne(vec: Attempts, ghost addrs: seq<Address>, os: Os, i: nat, ghost socks: seq<int>,
                  ghost base: set<int>, ghost owner: map<int, nat>)
    returns (ghost owner': map<int, nat>)
    requires Tracks(vec, addrs, os, socks) && Ledger(socks, os.open, base, owner) && i < |vec| && vec[i] != null
    modifies vec[i], os`open
    ensures Tracks(vec[i := null], addrs, os, socks[i := INVALID_SOCKET])
    ensures Ledger(socks[i := INVALID_SOCKET], os.open, base, owner') && |owner'| <= |owner|
    ensures os.open <= old(os.open) && vec[i].ended == old(vec[i].ended)
              && vec[i].checkStatus == old(vec[i].checkStatus)
              && vec[i].request == old(vec[i].request) && vec[i].judged == old(vec[i].judged)
  {
    hide Ledger;
    owner' := owner;
    if vec[i].sock != INVALID_SOCKET {
      LedgerDrop(socks, os.open, base, owner, i);
      owner' := owner - {vec[i].sock};
    } else {
      assert socks[i := INVALID_SOCKET] == socks;
    }
    vec[i].Close(os);
  }

  /** What the last select found connected is noted. */
  ghost predicate Seen(os: Os)
    reads os`open, os`good, os`ready, os`soError
  {
    forall s :: s in os.open && os.Connected(s) ==> s in os.good
  }

  /** The attempt failed, or the observer turned it down: it refused its request, or rejected what was received. */
  ghost predicate GaveUp(f: ConnectCheckFSM)
    reads f
  {
    f.ended || (f.checkStatus == ECheckFail && (f.request == Refused || f.judged.Rejected?))
  }

  /** The attempt is connected and has passed its check: if the observer asked for one, it accepted what was
      received. */
  ghost predicate Passed(f: ConnectCheckFSM)
    reads f
  {
    && f.status == EReadWrite && f.checkStatus == ECheckOK
    && (f.mustVerify ==> f.judged.Accepted? && [] != f.judged.data <= f.recvBuf)
  }

  datatype Verdict = Waiting | Ended | Won

  /** Waits for something to happen. */
  method SelectAll(vec: Attempts, ghost addrs: seq<Address>, os: Os, timeout: int, ghost socks: seq<int>)
    returns (ret: int, exception: bool, broken: bool)
    requires timeout >= 0 && Tracks(vec, addrs, os, socks)
    modifies os`patience, os`selects, os`ready, os`soError, os`good, os`interrupted
    ensures Tracks(vec, addrs, os, socks) && Seen(os) && os.selects == old(os.selects) + 1
    ensures os.interrupted <==> ret < 0 || exception || broken
    ensures old(os.patience) == 0 ==> ret >= 0 && broken
    ensures old(os.patience) > 0 ==> os.patience == old(os.patience) - 1
  {
    ret, exception, broken := os.Select(timeout);
  }

  /** Takes the socket out of an attempt that has passed. */
  method TakeSocket(vec: Attempts, ghost addrs: seq<Address>, os: Os, i: nat, ghost socks: seq<int>,
                    ghost base: set<int>, ghost owner: map<int, nat>)
    returns (won: int, ghost owner': map<int, nat>)
    requires Tracks(vec, addrs, os, socks) && Ledger(socks, os.open, base, owner) && i < |vec| && vec[i] != null
    requires Passed(vec[i])
    modifies vec[i]
    ensures Passed(vec[i]) && Tracks(vec[i := null], addrs, os, socks[i := INVALID_SOCKET])
    ensures won == socks[i] != INVALID_SOCKET && won in os.peer && os.peer[won] == addrs[i]
    ensures won in os.open && won !in base && won in os.good
    ensures Ledger(socks[i := INVALID_SOCKET], os.open, base + {won}, owner')
  {
    hide Ledger;
    var f := vec[i];
    LedgerDrop(socks, os.open, base, owner, i);
    owner' := owner - {f.sock};
    won := f.sock;
    f.sock := INVALID_SOCKET;
  }

  /** What became of one attempt after a select. An ended one is closed; a winner gives up its socket unclosed. */
  method AfterSelectOne(vec: Attempts, ghost addrs: seq<Address>, os: Os, i: nat, ghost socks: seq<int>,
                        ghost base: set<int>, ghost owner: map<int, nat>)
    returns (verdict: Verdict, won: int, ghost owner': map<int, nat>)
    requires Tracks(vec, addrs, os, socks) && Ledger(socks, os.open, base, owner)
    requires i < |vec| && vec[i] != null && vec[i].status != EStart && Seen(os)
    modifies vec[i], os`open, os`now, os`sent, os`received
    ensures os.now >= old(os.now)
    ensures verdict == Waiting ==>
              && Tracks(vec, addrs, os, socks) && Ledger(socks, os.open, base, owner) && owner' == owner
              && AtHead(vec[i], true)
    ensures verdict != Waiting ==> Tracks(vec[i := null], addrs, os, socks[i := INVALID_SOCKET])
    ensures verdict == Ended ==> GaveUp(vec[i])
    ensures verdict == Won ==> Passed(vec[i])
    ensures verdict == Ended ==> Ledger(socks[i := INVALID_SOCKET], os.open, base, owner') && |owner'| <= |owner|
    ensures verdict == Won ==>
              && won == socks[i] != INVALID_SOCKET && won in os.peer && os.peer[won] == addrs[i]
              && won in os.open && won !in base && won in os.good
              && Ledger(socks[i := INVALID_SOCKET], os.open, base + {won}, owner')
    ensures Seen(os)
  {
    hide Ledger, ConnectCheckFSM.ConnectLooked, ConnectCheckFSM.ReadWriteLooked;
    var f := vec[i];
    owner', won := owner, INVALID_SOCKET;
    ghost var t := f.AfterSelect(os);
    if f.status == EEnd || (f.status == EReadWrite && f.checkStatus == ECheckFail) {
      owner' := CloseOne(vec, addrs, os, i, socks, base, owner);
      verdict := Ended;
    } else if f.status == EReadWrite && f.checkStatus == ECheckOK {
      won, owner' := TakeSocket(vec, addrs, os, i, socks, base, owner);
      verdict := Won;
    } else {
      verdict := Waiting;
    }
  }

  lemma NothingOwned(vec: Attempts, addrs: seq<Address>, os: Os, socks: seq<int>, base: set<int>, owner: map<int, nat>)
    requires Tracks(vec, addrs, os, socks) && Ledger(socks, os.open, base, owner)
    requires forall i :: 0 <= i < |vec| ==> vec[i] == null
    ensures os.open == base
  {
    assert forall i :: 0 <= i < |vec| ==> socks[i] == INVALID_SOCKET;
    assert forall s :: s in owner.Keys ==> s == INVALID_SOCKET;
    assert owner.Keys == {} by {
      assert owner.Keys <= {INVALID_SOCKET};
    }
  }

  /** Closes and deletes every attempt that is left. */
  method CloseAll(vec: Attempts, ghost addrs: seq<Address>, os: Os, ghost socks: seq<int>,
                  ghost base: set<int>, ghost owner: map<int, nat>)
    requires Tracks(vec, addrs, os, socks) && Ledger(socks, os.open, base, owner) && |socks| == |vec|
    modifies Objects(vec), os`open
    ensures os.open == base
  {
    hide Ledger, Tracks;
    ghost var socks', owner' := socks, owner;
    var rest := vec;
    for i := 0 to |vec|
      invariant Tracks(rest, addrs, os, socks') && Ledger(socks', os.open, base, owner')
      invariant |rest| == |vec| == |socks'|
      invariant forall j :: 0 <= j < i ==> rest[j] == null
      invariant forall j :: i <= j < |vec| ==> rest[j] == vec[j]
    {
      if rest[i] != null {
        owner' := CloseOne(rest, addrs, os, i, socks', base, owner');
        socks' := socks'[i := INVALID_SOCKET];
        rest := rest[i := null];
      }
    }
    NothingOwned(rest, addrs, os, socks', base, owner');
  }

  /** One attempt's turn: what is left of the attempts, the ledger and the history behind it. */
  method TakeTurn(vec: Attempts, ghost addrs: seq<Address>, os: Os, i: nat, ghost index: nat, ghost history: History,
                  ghost past: History, lost: bool, ghost socks: seq<int>, ghost base: set<int>,
                  ghost owner: map<int, nat>)
    returns (verdict: Verdict, won: int, vec': Attempts, lost': bool,
             ghost socks': seq<int>, ghost owner': map<int, nat>, ghost past': History)
    requires Tracks(vec, addrs, os, socks) && Ledger(socks, os.open, base, owner) && i < index <= |vec| == |socks|
    requires forall j :: i <= j < index && vec[j] != null ==> vec[j].status != EStart
    requires AllAtHead(vec, 0, i, true) && AllAtHead(vec, index, |vec|, false) && Seen(os)
    requires LostOnly(history, past, lost)
    modifies {vec[i]}, os`open, os`now, os`sent, os`received
    ensures os.now >= old(os.now) && Seen(os)
    ensures |vec'| == |vec| == |socks'| && vec' in {vec, vec[i := null]}
    ensures vec[i] != null && vec'[i] == null ==> if verdict == Won then Passed(vec[i]) else GaveUp(vec[i])
    ensures Tracks(vec', addrs, os, socks') && LostOnly(history, past', lost')
    ensures forall j :: i < j < index && vec'[j] != null ==> vec'[j].status != EStart
    ensures verdict != Won ==>
              && Ledger(socks', os.open, base, owner') && |owner'| <= |owner|
              && AllAtHead(vec', 0, i + 1, true) && AllAtHead(vec', index, |vec|, false)
    ensures verdict == Won ==>
              && vec[i] != null && vec'[i] == null && Ledger(socks', os.open, base + {won}, owner')
              && won != INVALID_SOCKET && won in os.open && won !in base && won in os.good
              && won in os.peer && os.peer[won] == addrs[i]
  {
    hide Ledger, Tracks, AtHead, GaveUp, Passed, LostOnly, ConnectCheckFSM.Valid;
    DistinctAttempts(vec, addrs, os, socks);
    verdict, won, vec', lost', socks', owner', past' := Waiting, INVALID_SOCKET, vec, lost, socks, owner, past;
    if vec[i] == null {
      return;
    }
    verdict, won, owner' := AfterSelectOne(vec, addrs, os, i, socks, base, owner);
    if verdict != Waiting {
      vec', socks' := vec[i := null], socks[i := INVALID_SOCKET];
    }
    if verdict == Ended {
      LostMore(history, past, lost, i);
      lost', past' := true, past + [Lost(i)];
    }
  }

  /** The look at all started attempts after a select, up to the first winner. */
  method AfterSelectAll(vec: Attempts, ghost addrs: seq<Address>, os: Os, index: nat, ghost history: History,
                        ghost socks: seq<int>, ghost base: set<int>, ghost owner: map<int, nat>)
    returns (vec': Attempts, won: int, winner: int, lost: bool,
             ghost history': History, ghost socks': seq<int>, ghost owner': map<int, nat>)
    requires Tracks(vec, addrs, os, socks) && Ledger(socks, os.open, base, owner) && index <= |vec| == |socks|
    requires forall i :: 0 <= i < index && vec[i] != null ==> vec[i].status != EStart
    requires AllAtHead(vec, index, |vec|, false) && Seen(os)
    modifies Objects(vec), os`open, os`now, os`sent, os`received
    ensures os.now >= old(os.now)
    ensures |vec'| == |vec| == |socks'| && forall i :: 0 <= i < |vec| ==> vec'[i] == null || vec'[i] == vec[i]
    ensures forall i :: index <= i < |vec| ==> vec'[i] == vec[i]
    ensures forall i :: 0 <= i < index && vec[i] != null && vec'[i] == null ==> i == winner || GaveUp(vec[i])
    ensures Tracks(vec', addrs, os, socks')
    ensures won == INVALID_SOCKET ==>
              && winner == -1 && Ledger(socks', os.open, base, owner') && |owner'| <= |owner|
              && AllAtHead(vec', 0, index, true) && AllAtHead(vec', index, |vec|, false)
    ensures won != INVALID_SOCKET ==>
              && 0 <= winner < index && vec[winner] != null && vec'[winner] == null
              && Ledger(socks', os.open, base + {won}, owner')
              && won in os.open && won !in base && won in os.peer && os.peer[won] == addrs[winner]
              && won in os.good && Passed(vec[winner])
    ensures LostOnly(history, history', lost)
  {
    NoneLost(history);
    hide Ledger, Tracks, AtHead, GaveUp, Passed, LostOnly, ConnectCheckFSM.Valid;
    DistinctAttempts(vec, addrs, os, socks);
    vec', socks', owner', history' := vec, socks, owner, history;
    won, winner, lost := INVALID_SOCKET, -1, false;
    var i := 0;
    while i < index
      invariant i <= index && os.now >= old(os.now) && won == INVALID_SOCKET && winner == -1
      invariant |vec'| == |vec| == |socks'| && forall i :: 0 <= i < |vec| ==> vec'[i] == null || vec'[i] == vec[i]
      invariant Seen(os) && forall j :: i <= j < |vec| ==> vec'[j] == vec[j]
      invariant forall j :: 0 <= j < i && vec[j] != null && vec'[j] == null ==> GaveUp(vec[j])
      invariant Tracks(vec', addrs, os, socks') && Ledger(socks', os.open, base, owner') && |owner'| <= |owner|
      invariant forall j :: i <= j < index && vec'[j] != null ==> vec'[j].status != EStart
      invariant AllAtHead(vec', 0, i, true) && AllAtHead(vec', index, |vec|, false)
      invariant LostOnly(history, history', lost)
    {
      var verdict, w;
      verdict, w, vec', lost, socks', owner', history' :=
        TakeTurn(vec', addrs, os, i, index, history, history', lost, socks', base, owner');
      if verdict == Won {
        won, winner := w, i;
        break;
      }
      i := i + 1;
    }
  }

  lemma DistinctAttempts(vec: Attempts, addrs: seq<Address>, os: Os, socks: seq<int>)
    requires Tracks(vec, addrs, os, socks)
    ensures forall i, j :: 0 <= i < j < |vec| && vec[i] != null ==> vec[i] != vec[j]
  {
  }

  /** `h'` is `h` with lost attempts added, if any: the starts and their pace are the same. */
  ghost predicate LostOnly(h: History, h': History, lost: bool) {
    && StartCount(h') == StartCount(h) && (StartCount(h) > 0 ==> LastStart(h') == LastStart(h))
    && LostSinceStart(h') == (LostSinceStart(h) || lost) && Rounds(h') == Rounds(h)
    && (h != [] ==> h' != [] && h'[0] == h[0]) && (forall e :: e in h' && e.Waited? ==> e in h)
    && forall p :: Timed(h, p) ==> Timed(h', p)
  }

  lemma NoneLost(h: History)
    ensures LostOnly(h, h, false)
  {
  }

  lemma LostMore(h: History, h': History, lost: bool, i: nat)
    requires LostOnly(h, h', lost)
    ensures LostOnly(h, h' + [Lost(i)], true)
  {
    hide Timed, StartCount, LastStart, Rounds, LostSinceStart;
    LostKeepsPace(h', i);
  }

  lemma LostKeepsPace(h: History, i: nat)
    ensures var h' := h + [Lost(i)];
            && StartCount(h') == StartCount(h) && LostSinceStart(h') && Rounds(h') == Rounds(h)
            && (StartCount(h) > 0 ==> LastStart(h') == LastStart(h))
            && forall p :: Timed(h, p) ==> Timed(h', p)
  {
    assert (h + [Lost(i)])[..|h|] == h;
  }

  lemma StartCounts(h: History, index: nat, looked: nat, at: nat, running: nat)
    ensures var h' := h + [Started(index, looked, at, running)];
            && StartCount(h') == StartCount(h) + 1 && LastStart(h') == at && !LostSinceStart(h')
            && Rounds(h') == Rounds(h) + 1
  {
    assert (h + [Started(index, looked, at, running)])[..|h|] == h;
  }

  lemma WaitCounts(h: History, looked: nat, running: nat)
    ensures var h' := h + [Waited(looked, running)];
            && StartCount(h') == StartCount(h) && LostSinceStart(h') == LostSinceStart(h) && Rounds(h') == Rounds(h) + 1
            && (StartCount(h) > 0 ==> LastStart(h') == LastStart(h))
  {
    assert (h + [Waited(looked, running)])[..|h|] == h;
  }

  /** The value of `laststart_connecttime`. */
  function StartMark(h: History, p: Plan): nat {
    if StartCount(h) > 0 then LastStart(h) else U64(BeganAt(h) - Max(p.interval, p.errorInterval))
  }

  /** The 32-bit computation decides as the history says. */
  lemma DecidesRight(h: History, p: Plan, curtime: nat)
    requires p.interval < 0x1_0000_0000 && p.errorInterval < 0x1_0000_0000
    requires Behind(h, curtime) && curtime < 0x1_0000_0000_0000_0000
    ensures NextConnectTimeout(Wait(h, p), curtime, StartMark(h, p)) <= 0 <==> DueAt(h, p, curtime)
  {
    hide StartCount, LastStart, BeganAt, LostSinceStart;
    if StartCount(h) > 0 {
      DueExact(Wait(h, p), curtime, LastStart(h));
    } else {
      FirstMark(Wait(h, p), curtime, BeganAt(h), Max(p.interval, p.errorInterval));
    }
  }

  lemma FirstMark(wait: nat, curtime: nat, began: nat, longest: nat)
    requires wait < 0x1_0000_0000 && longest < 0x1_0000_0000 && began <= curtime < 0x1_0000_0000_0000_0000
    ensures NextConnectTimeout(wait, curtime, U64(began - longest)) <= 0 <==> Due32(wait, curtime - began + longest)
  {
    hide U64, Int32, NextConnectTimeout;
    TimeoutIs(wait, curtime, began - longest);
    NotPositive(wait - (curtime - began + longest));
  }

  /** A decision as the history has it keeps the plan. */
  lemma StartKeepsPace(h: History, p: Plan, curtime: nat, at: nat, running: nat)
    requires Timed(h, p) && Behind(h, curtime) && curtime <= at && running <= StartCount(h)
    ensures StartCount(h) < p.count && running < p.maxConnect && DueAt(h, p, curtime) ==>
              Timed(h + [Started(StartCount(h), curtime, at, running)], p)
    ensures !(StartCount(h) < p.count && running < p.maxConnect && DueAt(h, p, curtime)) ==>
              Timed(h + [Waited(curtime, running)], p)
  {
    hide StartCount, LastStart, BeganAt, DueAt;
    assert (h + [Started(StartCount(h), curtime, at, running)])[..|h|] == h;
    assert (h + [Waited(curtime, running)])[..|h|] == h;
  }

  ghost function Firsts(socks: seq<int>, n: nat): set<int>
    requires n <= |socks|
  {
    set i | 0 <= i < n :: socks[i]
  }

  lemma {:induction false} FewFirsts(socks: seq<int>, n: nat)
    requires n <= |socks|
    ensures |Firsts(socks, n)| <= n
  {
    if n > 0 {
      FewFirsts(socks, n - 1);
      assert Firsts(socks, n) == Firsts(socks, n - 1) + {socks[n - 1]};
    } else {
      assert Firsts(socks, 0) == {};
    }
  }

  lemma Within(a: set<int>, b: set<int>)
    requires a <= b
    ensures |a| <= |b|
  {
    assert b == a + (b - a);
  }

  class MultiConnect {
    const timeout_: nat
    const interval_: uint32
    const error_interval_: uint32
    const max_connect_: nat
    var trycount_: nat
    var index_: int
    var index_conn_rtt_: int
    var index_conn_totalcost_: int
    var totalcost_: int

    constructor (timeout: nat, interval: uint32, errorInterval: uint32, maxConnect: nat)
      ensures timeout_ == timeout && interval_ == interval
      ensures error_interval_ == errorInterval && max_connect_ == maxConnect
    {
      timeout_, interval_, error_interval_, max_connect_ := timeout, interval, errorInterval, maxConnect;
      trycount_, index_, index_conn_rtt_, index_conn_totalcost_, totalcost_ := 0, -1, 0, 0, 0;
    }

    /** One machine per address. */
    method MakeAttempts(addrs: seq<Address>, os: Os, hasObserver: bool) returns (vec: Attempts)
      ensures Tracks(vec, addrs, os, seq(|addrs|, _ => INVALID_SOCKET)) && AllAtHead(vec, 0, |vec|, false)
      ensures |vec| == |addrs|
      ensures forall i :: 0 <= i < |vec| ==> vec[i] != null && fresh(vec[i]) && vec[i].address == addrs[i]
    {
      vec := [];
      for i := 0 to |addrs|
        invariant |vec| == i && forall j :: 0 <= j < i ==> vec[j] != null && fresh(vec[j]) && vec[j].address == addrs[j]
        invariant Tracks(vec, addrs[..i], os, seq(i, _ => INVALID_SOCKET)) && AllAtHead(vec, 0, i, false)
      {
        var ic := new ConnectCheckFSM(addrs[i], timeout_, i, hasObserver);
        vec := vec + [ic];
      }
      assert addrs[..|addrs|] == addrs;
    }

    function PlanOf(count: nat): Plan {
      Plan(count, max_connect_, interval_, error_interval_)
    }

    /** The pace kept so far: `laststart` is the latest start, `lasterror` tells whether an attempt failed since. */
    ghost predicate Pace(history: History, count: nat, index: nat, laststart: nat, lasterror: int, now: nat) {
      && history != [] && index == StartCount(history) && Behind(history, now)
      && laststart == StartMark(history, PlanOf(count))
      && (lasterror != 0) == LostSinceStart(history)
      && (forall e :: e in history && e.Waited? ==> e.looked <= now)
      && (now < 0x1_0000_0000_0000_0000 ==> Timed(history, PlanOf(count)))
    }

    /** One more decision was made, by a look at the clock in between, with `running` attempts under way. */
    ghost predicate Decided(h: History, h': History, count: nat, running: nat, started: bool, from: nat, to: nat) {
      exists looked :: from <= looked <= to && DecidedAt(h, h', count, running, started, looked)
    }

    /** An attempt is started if and only if there is one left, there is room for it and it is due. */
    ghost predicate DecidedAt(h: History, h': History, count: nat, running: nat, started: bool, looked: nat) {
      && |h'| == |h| + 1 && h'[..|h|] == h
      && (if started then h'[|h|].Started? && h'[|h|].looked == looked && h'[|h|].running == running
          else h'[|h|] == Waited(looked, running))
      && (looked < 0x1_0000_0000_0000_0000 ==>
            (started <==> StartCount(h) < count && running < max_connect_ && DueAt(h, PlanOf(count), looked)))
    }

    ghost predicate Took(from: nat, to: nat)
      reads this`totalcost_
    {
      totalcost_ == Int32(to - from)
    }

    /** The reported times are this attempt's. */
    ghost predicate Reports(f: ConnectCheckFSM)
      reads this`index_conn_rtt_, this`index_conn_totalcost_
      reads f`startConnectTime, f`endConnectTime, f`checkFinTime
    {
      index_conn_rtt_ == f.Rtt() && index_conn_totalcost_ == f.TotalRtt()
    }

    /** The invariant at the head of every iteration. */
    ghost predicate AtLoopHead(vec: Attempts, addrs: seq<Address>, os: Os, index: nat,
                               socks: seq<int>, base: set<int>, owner: map<int, nat>)
      reads os`open, os`peer, os`good, set i | 0 <= i < |vec| :: vec[i]
    {
      && |vec| == |addrs| == |socks| && index <= |vec|
      && Tracks(vec, addrs, os, socks) && Ledger(socks, os.open, base, owner) && |owner| <= max_connect_
      && AllAtHead(vec, 0, index, true) && AllAtHead(vec, index, |vec|, false)
      && (forall i :: index <= i < |vec| ==> vec[i] != null)
    }

    /** Exactly one more decision was made. */
    ghost predicate OneRound(h: History, h': History) {
      Rounds(h') == Rounds(h) + 1 && BeganAt(h') == BeganAt(h)
    }

    /** Starts the next attempt if one is due and allowed, and says how long to wait at most. */
    method StartDue(count: nat, index: nat, runningCount: nat, laststart: nat, lasterror: int, os: Os,
                    ghost history: History)
      returns (timeout: int, started: bool, laststart': nat, ghost history': History)
      requires Pace(history, count, index, laststart, lasterror, os.now) && runningCount <= index
      modifies os`now
      ensures os.now >= old(os.now)
      ensures Decided(history, history', count, runningCount, started, old(os.now), os.now)
      ensures Rounds(history') == Rounds(history) + 1 && BeganAt(history') == BeganAt(history)
      ensures started ==> runningCount < max_connect_ && index < count
                          && Pace(history', count, index + 1, laststart', 0, os.now)
      ensures !started ==> laststart' == laststart && Pace(history', count, index, laststart', lasterror, os.now)
    {
      laststart', started := laststart, false;
      var curtime := os.TickCount();
      ghost var looked := curtime;
      var interval := if lasterror == 0 then interval_ else error_interval_;
      var nextConnectTimeout := NextConnectTimeout(interval, curtime, laststart);
      timeout := Int32(timeout_);
      if index < count && 0 < nextConnectTimeout && runningCount < max_connect_ {
        timeout := Min(timeout, nextConnectTimeout);
      }
      if index < count && 0 >= nextConnectTimeout && runningCount < max_connect_ {
        if runningCount + 1 < max_connect_ {
          timeout := Min(timeout, Int32(interval_));
        }
        laststart' := os.TickCount();
        started := true;
        history' := history + [Started(index, curtime, laststart', runningCount)];
        PaceStarted(history, count, laststart, lasterror, runningCount, curtime, laststart');
      } else {
        history' := history + [Waited(curtime, runningCount)];
        PaceWaited(history, count, laststart, lasterror, runningCount, curtime);
      }
    }

    /** Only started attempts have sockets. */
    lemma OwnersStarted(vec: Attempts, addrs: seq<Address>, os: Os, index: nat, socks: seq<int>, base: set<int>,
                        owner: map<int, nat>)
      requires AtLoopHead(vec, addrs, os, index, socks, base, owner)
      ensures |owner| <= index
    {
      forall s | s in owner ensures owner[s] < index && s in Firsts(socks, index) {
        assert vec[owner[s]] != null;
      }
      FewFirsts(socks, index);
      assert owner.Keys <= Firsts(socks, index);
      Within(owner.Keys, Firsts(socks, index));
    }

    /** The first half of an iteration: starts an attempt if one is due and prepares the select. */
    method Prepare(vec: Attempts, ghost addrs: seq<Address>, os: Os, index: nat, laststart: nat, lasterror: int,
                   ghost history: History, ghost socks: seq<int>, ghost base: set<int>, ghost owner: map<int, nat>)
      returns (timeout: int, index': nat, laststart': nat, lasterror': int,
               ghost history': History, ghost socks': seq<int>, ghost owner': map<int, nat>)
      requires AtLoopHead(vec, addrs, os, index, socks, base, owner)
      requires Pace(history, |addrs|, index, laststart, lasterror, os.now) && trycount_ == index
      ensures |old(os.open)| >= |base| && index <= index' <= index + 1
      ensures Decided(history, history', |addrs|, |old(os.open)| - |base|, index' > index, old(os.now), os.now)
      ensures Rounds(history') == Rounds(history) + 1 && BeganAt(history') == BeganAt(history)
      modifies this`trycount_, Objects(vec), os`open, os`peer, os`now, os`peak, os`good, os`failed
      ensures timeout >= 0 && trycount_ == index' <= |vec| == |socks'| && os.now >= old(os.now)
      ensures Pace(history', |addrs|, index', laststart', lasterror', os.now)
      ensures os.peak <= Max(old(os.peak), |base| + max_connect_)
      ensures Tracks(vec, addrs, os, socks') && Ledger(socks', os.open, base, owner') && |owner'| <= max_connect_
      ensures forall i :: 0 <= i < index' && vec[i] != null ==> vec[i].status != EStart
      ensures AllAtHead(vec, index', |vec|, false) && index <= index'
    {
      hide Ledger, Tracks, Pace, Timed, Decided, Rounds, BeganAt, ConnectCheckFSM.Valid;
      OwnersStarted(vec, addrs, os, index, socks, base, owner);
      LedgerSize(socks, os.open, base, owner);
      index', lasterror' := index, lasterror;
      var runningCount := CountConnecting(vec, addrs, os, socks, base, owner);
      var started;
      timeout, started, laststart', history' :=
        StartDue(|vec|, index, runningCount, laststart, lasterror, os, history);
      if started {
        index', lasterror', trycount_ := index + 1, 0, index + 1;
      }
      ghost var now := os.now;
      timeout, socks', owner' := PreSelectAll(vec, addrs, os, index', timeout, socks, base, owner);
      timeout := Max(0, timeout);
      PaceLater(history', |vec|, index', laststart', lasterror', os.now);
      DecidedLater(history, history', |vec|, runningCount, started, old(os.now), now, os.now);
    }

    /** One iteration of the connect loop; `stop` tells whether it is the last. */
    method Iterate(vec: Attempts, ghost addrs: seq<Address>, os: Os, index: nat, laststart: nat, lasterror: int,
                   ghost history: History, ghost socks: seq<int>, ghost base: set<int>, ghost owner: map<int, nat>)
      returns (stop: bool, won: int, vec': Attempts, index': nat, laststart': nat, lasterror': int,
               ghost history': History, ghost socks': seq<int>, ghost owner': map<int, nat>)
      requires AtLoopHead(vec, addrs, os, index, socks, base, owner)
      requires Pace(history, |addrs|, index, laststart, lasterror, os.now)
      requires trycount_ == index && index_ == -1
      modifies this, Objects(vec), os
      ensures |vec'| == |vec| && forall i :: 0 <= i < |vec| ==> vec'[i] == null || vec'[i] == vec[i]
      ensures os.peak <= Max(old(os.peak), |base| + max_connect_)
      ensures trycount_ == index' <= |addrs| && Pace(history', |addrs|, index', laststart', lasterror', os.now)
      ensures OneRound(history, history') && os.selects == old(os.selects) + 1 && os.now >= old(os.now)
      ensures won == INVALID_SOCKET ==>
                && index_ == -1 && |vec'| == |socks'|
                && Tracks(vec', addrs, os, socks') && Ledger(socks', os.open, base, owner')
      ensures won != INVALID_SOCKET ==>
                && stop && |vec'| == |socks'|
                && 0 <= index_ < trycount_ && won in os.peer && os.peer[won] == addrs[index_]
                && won in os.open && won !in base
                && Tracks(vec', addrs, os, socks') && Ledger(socks', os.open, base + {won}, owner')
      ensures won != INVALID_SOCKET ==> won in os.good
      ensures forall i :: 0 <= i < |vec| && vec[i] != null && vec'[i] == null ==> i == index_ || GaveUp(vec[i])
      ensures stop && won == INVALID_SOCKET ==>
                os.interrupted || (index' == |addrs| && forall i :: 0 <= i < |vec| ==> vec'[i] == null)
      ensures won != INVALID_SOCKET ==>
                vec[index_] != null && vec'[index_] == null && Passed(vec[index_]) && Reports(vec[index_])
      ensures !stop ==> AtLoopHead(vec', addrs, os, index', socks', base, owner') && os.patience < old(os.patience)
    {
      hide Ledger, Tracks, AtHead, GaveUp, Passed, Pace, Timed, StartCount, LastStart, LostSinceStart, Rounds, BeganAt,
        Decided;
      vec', won, stop := vec, INVALID_SOCKET, true;
      var timeout;
      timeout, index', laststart', lasterror', history', socks', owner' :=
        Prepare(vec, addrs, os, index, laststart, lasterror, history, socks, base, owner);
      var ret, exception, broken := SelectAll(vec, addrs, os, timeout, socks');
      if ret < 0 || exception || broken {
        return;
      }
      stop, won, vec', lasterror', history', socks', owner' :=
        Harvest(vec, addrs, os, index', laststart', lasterror', history', socks', base, owner');
    }

    /** The second half of an iteration: looks at what the select found for each attempt. */
    method Harvest(vec: Attempts, ghost addrs: seq<Address>, os: Os, index: nat, ghost laststart: nat, lasterror: int,
                   ghost history: History, ghost socks: seq<int>, ghost base: set<int>, ghost owner: map<int, nat>)
      returns (stop: bool, won: int, vec': Attempts, lasterror': int,
               ghost history': History, ghost socks': seq<int>, ghost owner': map<int, nat>)
      requires Tracks(vec, addrs, os, socks) && Ledger(socks, os.open, base, owner) && |owner| <= max_connect_
      requires index <= |vec| == |addrs| == |socks| && trycount_ == index && index_ == -1 && Seen(os)
      requires forall i :: 0 <= i < index && vec[i] != null ==> vec[i].status != EStart
      requires AllAtHead(vec, index, |vec|, false) && Pace(history, |addrs|, index, laststart, lasterror, os.now)
      requires forall i :: index <= i < |vec| ==> vec[i] != null
      modifies this`index_, this`index_conn_rtt_, this`index_conn_totalcost_, Objects(vec)
      modifies os`open, os`now, os`sent, os`received
      ensures |vec'| == |vec| == |socks'| && forall i :: 0 <= i < |vec| ==> vec'[i] == null || vec'[i] == vec[i]
      ensures Pace(history', |addrs|, index, laststart, lasterror', os.now) && Tracks(vec', addrs, os, socks')
      ensures Rounds(history') == Rounds(history) && BeganAt(history') == BeganAt(history) && os.now >= old(os.now)
      ensures won == INVALID_SOCKET ==> index_ == -1 && Ledger(socks', os.open, base, owner')
      ensures won != INVALID_SOCKET ==>
                && stop && 0 <= index_ < index && vec[index_] != null && won in os.peer && os.peer[won] == addrs[index_]
                && won in os.open && won !in base && won in os.good && Ledger(socks', os.open, base + {won}, owner')
                && Passed(vec[index_]) && Reports(vec[index_])
      ensures forall i :: 0 <= i < |vec| && vec[i] != null && vec'[i] == null ==> i == index_ || GaveUp(vec[i])
      ensures stop && won == INVALID_SOCKET ==> index == |addrs| && forall i :: 0 <= i < |vec| ==> vec'[i] == null
      ensures won != INVALID_SOCKET ==> vec'[index_] == null
      ensures !stop ==> AtLoopHead(vec', addrs, os, index, socks', base, owner')
    {
      hide Ledger, Tracks, AtHead, GaveUp, Passed, Pace, Timed, StartCount, LastStart, LostSinceStart, Rounds, BeganAt,
        Decided;
      lasterror', stop := lasterror, true;
      var winner, lost;
      vec', won, winner, lost, history', socks', owner' :=
        AfterSelectAll(vec, addrs, os, index, history, socks, base, owner);
      LossKeepsPace(history, history', |vec|, index, laststart, lasterror, lost, os.now);
      if lost {
        lasterror' := -1;
      }
      if won != INVALID_SOCKET {
        index_ := winner;
        index_conn_rtt_, index_conn_totalcost_ := vec[winner].Rtt(), vec[winner].TotalRtt();
        return;
      }
      assert index < |vec| ==> vec'[index] == vec[index] != null;
      stop := forall i :: 0 <= i < |vec'| ==> vec'[i] == null;
    }

    lemma PaceLater(h: History, count: nat, index: nat, laststart: nat, lasterror: int, now: nat)
      ensures forall earlier: nat :: earlier <= now && Pace(h, count, index, laststart, lasterror, earlier) ==>
                Pace(h, count, index, laststart, lasterror, now)
    {
    }

    lemma DecidedLater(h: History, h': History, count: nat, running: nat, started: bool, from: nat, to: nat, later: nat)
      requires Decided(h, h', count, running, started, from, to) && to <= later
      ensures Decided(h, h', count, running, started, from, later)
    {
    }

    lemma LossKeepsPace(h: History, h': History, count: nat, index: nat, laststart: nat, lasterror: int, lost: bool,
                        now: nat)
      requires LostOnly(h, h', lost)
      ensures forall earlier: nat :: earlier <= now && Pace(h, count, index, laststart, lasterror, earlier) ==>
                && Pace(h', count, index, laststart, if lost then -1 else lasterror, now)
                && Rounds(h') == Rounds(h) && BeganAt(h') == BeganAt(h)
    {
    }

    lemma PaceStarted(h: History, count: nat, laststart: nat, lasterror: int, running: nat, looked: nat, at: nat)
      requires exists now: nat :: now <= looked && Pace(h, count, StartCount(h), laststart, lasterror, now)
      requires StartCount(h) < count && running < max_connect_ && running <= StartCount(h) && looked <= at
      requires NextConnectTimeout(if lasterror == 0 then interval_ else error_interval_, looked, laststart) <= 0
      ensures var h' := h + [Started(StartCount(h), looked, at, running)];
              && Pace(h', count, StartCount(h) + 1, at, 0, at) && DecidedAt(h, h', count, running, true, looked)
              && Rounds(h') == Rounds(h) + 1 && BeganAt(h') == BeganAt(h)
    {
      var h' := h + [Started(StartCount(h), looked, at, running)];
      StartCounts(h, StartCount(h), looked, at, running);
      if looked < 0x1_0000_0000_0000_0000 {
        DecidesRight(h, PlanOf(count), looked);
      }
      if at < 0x1_0000_0000_0000_0000 {
        StartKeepsPace(h, PlanOf(count), looked, at, running);
      }
    }

    lemma PaceWaited(h: History, count: nat, laststart: nat, lasterror: int, running: nat, looked: nat)
      requires exists now: nat :: now <= looked && Pace(h, count, StartCount(h), laststart, lasterror, now)
      requires running <= StartCount(h)
      requires StartCount(h) >= count || running >= max_connect_ ||
               NextConnectTimeout(if lasterror == 0 then interval_ else error_interval_, looked, laststart) > 0
      ensures var h' := h + [Waited(looked, running)];
              && Pace(h', count, StartCount(h), laststart, lasterror, looked)
              && DecidedAt(h, h', count, running, false, looked)
              && Rounds(h') == Rounds(h) + 1 && BeganAt(h') == BeganAt(h)
    {
      var h' := h + [Waited(looked, running)];
      WaitCounts(h, looked, running);
      if looked < 0x1_0000_0000_0000_0000 {
        DecidesRight(h, PlanOf(count), looked);
        StartKeepsPace(h, PlanOf(count), looked, looked, running);
      }
    }

    method TryConnect(addrs: seq<Address>, os: Os, hasObserver: bool)
      returns (retsocket: int, ghost history: History, ghost attempts: Attempts)
      modifies this, os
      // Every socket that was opened is closed again, except the one returned.
      ensures retsocket == INVALID_SOCKET ==> os.open == old(os.open)
      ensures retsocket != INVALID_SOCKET ==> retsocket !in old(os.open) && os.open == old(os.open) + {retsocket}
      // It was reported connected. Without one, and unless the caller broke off, all addresses were tried.
      ensures retsocket != INVALID_SOCKET ==> retsocket in os.good
      ensures retsocket == INVALID_SOCKET ==> os.interrupted || trycount_ == |addrs|
      // Its attempt passed its check. Without one, and unless the caller broke off, every attempt gave up.
      ensures |attempts| == |addrs|
      ensures forall i :: 0 <= i < |attempts| ==>
                attempts[i] != null && fresh(attempts[i]) && attempts[i].address == addrs[i]
      ensures retsocket != INVALID_SOCKET ==>
                0 <= index_ < |attempts| && Passed(attempts[index_]) && Reports(attempts[index_])
      ensures retsocket == INVALID_SOCKET ==>
                os.interrupted || forall i :: 0 <= i < |attempts| ==> GaveUp(attempts[i])
      // The result is attributed to the address it was made for.
      ensures retsocket == INVALID_SOCKET <==> index_ == -1
      ensures retsocket != INVALID_SOCKET ==>
                0 <= index_ < trycount_ <= |addrs| && retsocket in os.peer && os.peer[retsocket] == addrs[index_]
      // At no time were more than max_connect_ attempts open.
      ensures os.peak <= Max(old(os.peak), |old(os.open)| + max_connect_)
      // Before every select it was decided whether to start an attempt: one is started exactly when there is one left,
      // there is room for it, and the interval that applies is over. Starts are counted, in order, and spaced.
      ensures trycount_ == StartCount(history) <= |addrs| && Rounds(history) == os.selects - old(os.selects)
      ensures |addrs| > 0 ==> Rounds(history) > 0
      ensures os.now < 0x1_0000_0000_0000_0000 ==> Timed(history, PlanOf(|addrs|))
      ensures interval_ < 0x8000_0000 && error_interval_ < 0x8000_0000 && os.now < 0x1_0000_0000_0000_0000 ==>
                Paced(history, interval_, error_interval_)
      ensures |addrs| > 0 ==> exists from, to :: old(os.now) <= from <= to <= os.now && Took(from, to)
      ensures |addrs| > 0 && max_connect_ > 0 && os.now < 0x1_0000_0000_0000_0000
              && Max(interval_, error_interval_) + os.now - old(os.now) <= 0x8000_0000 ==>
                trycount_ > 0
    {
      hide Ledger, Tracks, Passed, GaveUp, Timed, Paced, AtHead, AllAtHead, Rounds, BeganAt, StartCount, Reports,
        ConnectCheckFSM.Valid;
      trycount_, index_, index_conn_rtt_, index_conn_totalcost_, totalcost_ := 0, -1, 0, 0, 0;
      retsocket, history, attempts := INVALID_SOCKET, [], [];
      if |addrs| == 0 {
        NoHistory(PlanOf(0));
        return;
      }
      var starttime := os.TickCount();
      var vec := MakeAttempts(addrs, os, hasObserver);
      attempts := vec;
      retsocket, history := Race(vec, addrs, os);
      if interval_ < 0x8000_0000 && error_interval_ < 0x8000_0000 && os.now < 0x1_0000_0000_0000_0000 {
        TimedIsPaced(history, PlanOf(|addrs|));
      }
      if max_connect_ > 0 && os.now < 0x1_0000_0000_0000_0000
         && Max(interval_, error_interval_) + os.now - BeganAt(history) <= 0x8000_0000 {
        FirstStarts(history, PlanOf(|addrs|), os.now);
      }
      var endtime: int;
      endtime := os.TickCount();
      totalcost_ := Int32(endtime - starttime);
      assert Took(starttime, endtime);
    }

    lemma NoHistory(p: Plan)
      ensures StartCount([]) == 0 == Rounds([]) && Timed([], p) && Paced([], p.interval, p.errorInterval)
    {
    }

    /** Of the attempts exactly those that gave up are gone, and the winner. */
    ghost predicate Settled(vec: Attempts, attempts: Attempts, winner: int)
      reads set i | 0 <= i < |attempts| :: attempts[i]
    {
      && |vec| == |attempts| && -1 <= winner < |vec| && (winner >= 0 ==> vec[winner] == null)
      && (forall i :: 0 <= i < |vec| ==> attempts[i] != null && (vec[i] == null || vec[i] == attempts[i]))
      && (forall i :: 0 <= i < |vec| && vec[i] == null ==> if i == winner then Passed(attempts[i])
           else GaveUp(attempts[i]))
    }

    /** An iteration, with the attempts that are gone kept in view: they stay as they were when they went. */
    method Turn(vec: Attempts, ghost attempts: Attempts, ghost addrs: seq<Address>, os: Os, index: nat, laststart: nat,
                lasterror: int, ghost history: History, ghost socks: seq<int>, ghost base: set<int>,
                ghost owner: map<int, nat>)
      returns (stop: bool, won: int, vec': Attempts, index': nat, laststart': nat, lasterror': int,
               ghost history': History, ghost socks': seq<int>, ghost owner': map<int, nat>)
      requires AtLoopHead(vec, addrs, os, index, socks, base, owner) && Settled(vec, attempts, -1)
      requires Pace(history, |addrs|, index, laststart, lasterror, os.now) && trycount_ == index && index_ == -1
      requires forall i, j :: 0 <= i < j < |attempts| ==> attempts[i] != attempts[j]
      modifies this, Objects(attempts), os
      ensures Settled(vec', attempts, index_) && os.peak <= Max(old(os.peak), |base| + max_connect_)
      ensures trycount_ == index' <= |addrs| && Pace(history', |addrs|, index', laststart', lasterror', os.now)
      ensures OneRound(history, history') && os.selects == old(os.selects) + 1 && os.now >= old(os.now)
      ensures |vec'| == |socks'| == |addrs| && Tracks(vec', addrs, os, socks')
      ensures won == INVALID_SOCKET ==> index_ == -1 && Ledger(socks', os.open, base, owner')
      ensures won != INVALID_SOCKET ==>
                && stop && 0 <= index_ < trycount_ && won in os.peer && os.peer[won] == addrs[index_] && won in os.good
                && won !in base && Ledger(socks', os.open, base + {won}, owner') && attempts[index_] != null
                && Reports(attempts[index_])
      ensures stop && won == INVALID_SOCKET ==>
                os.interrupted || (index' == |addrs| && forall i :: 0 <= i < |vec'| ==> vec'[i] == null)
      ensures !stop ==> AtLoopHead(vec', addrs, os, index', socks', base, owner') && os.patience < old(os.patience)
    {
      hide Ledger, Tracks, Passed, GaveUp, AtHead, AllAtHead, Pace;
      assert forall i :: 0 <= i < |vec| && vec[i] == null ==> attempts[i] !in Objects(vec) && GaveUp(attempts[i]);
      stop, won, vec', index', laststart', lasterror', history', socks', owner' :=
        Iterate(vec, addrs, os, index, laststart, lasterror, history, socks, base, owner);
      assert forall i :: 0 <= i < |vec| && vec[i] == null ==> GaveUp(attempts[i]);
      assert Settled(vec', attempts, index_);
    }

    /** The race of the attempts, and the cleaning up. */
    method Race(attempts: Attempts, ghost addrs: seq<Address>, os: Os) returns (retsocket: int, ghost history: History)
      requires Tracks(attempts, addrs, os, seq(|addrs|, _ => INVALID_SOCKET)) && |attempts| == |addrs|
      requires AllAtHead(attempts, 0, |attempts|, false) && forall i :: 0 <= i < |attempts| ==> attempts[i] != null
      requires trycount_ == 0 && index_ == -1
      modifies this, Objects(attempts), os
      ensures retsocket == INVALID_SOCKET ==> os.open == old(os.open) && index_ == -1
      ensures retsocket == INVALID_SOCKET ==>
                os.interrupted || (trycount_ == |addrs| && forall i :: 0 <= i < |attempts| ==> GaveUp(attempts[i]))
      ensures retsocket != INVALID_SOCKET ==>
                && retsocket !in old(os.open) && os.open == old(os.open) + {retsocket} && retsocket in os.good
                && 0 <= index_ < trycount_ <= |addrs| && retsocket in os.peer && os.peer[retsocket] == addrs[index_]
                && Passed(attempts[index_]) && Reports(attempts[index_])
      ensures os.peak <= Max(old(os.peak), |old(os.open)| + max_connect_)
      ensures trycount_ == StartCount(history) <= |addrs|
      ensures os.now < 0x1_0000_0000_0000_0000 ==> Timed(history, PlanOf(|addrs|))
      ensures Rounds(history) == os.selects - old(os.selects) > 0 && old(os.now) <= BeganAt(history) <= os.now
      ensures forall e :: e in history && e.Waited? ==> e.looked <= os.now
    {
      hide Ledger, Tracks, Passed, GaveUp, Timed;
      DistinctAttempts(attempts, addrs, os, seq(|addrs|, _ => INVALID_SOCKET));
      ghost var base := os.open;
      var vec;
      ghost var socks, owner;
      vec, retsocket, history, socks, owner := RunLoop(attempts, addrs, os);
      if retsocket != INVALID_SOCKET {
        base := base + {retsocket};
      }
      CloseAll(vec, addrs, os, socks, base, owner);
    }

    /** The connect loop. */
    method RunLoop(attempts: Attempts, ghost addrs: seq<Address>, os: Os)
      returns (vec: Attempts, retsocket: int, ghost history: History, ghost socks: seq<int>, ghost owner: map<int, nat>)
      requires Tracks(attempts, addrs, os, seq(|addrs|, _ => INVALID_SOCKET)) && |attempts| == |addrs|
      requires AllAtHead(attempts, 0, |attempts|, false) && forall i :: 0 <= i < |attempts| ==> attempts[i] != null
      requires forall i, j :: 0 <= i < j < |attempts| ==> attempts[i] != attempts[j]
      requires trycount_ == 0 && index_ == -1
      modifies this, Objects(attempts), os
      ensures Tracks(vec, addrs, os, socks) && |vec| == |socks| == |addrs|
      ensures Ledger(socks, os.open,
                     if retsocket == INVALID_SOCKET then old(os.open) else old(os.open) + {retsocket}, owner)
      ensures Settled(vec, attempts, index_)
      ensures retsocket == INVALID_SOCKET ==>
                index_ == -1 && (os.interrupted
                                 || (trycount_ == |addrs| && forall i :: 0 <= i < |vec| ==> vec[i] == null))
      ensures retsocket != INVALID_SOCKET ==>
                && retsocket !in old(os.open) && retsocket in os.good && 0 <= index_ < trycount_ <= |addrs|
                && retsocket in os.peer && os.peer[retsocket] == addrs[index_]
                && attempts[index_] != null && Reports(attempts[index_])
      ensures os.peak <= Max(old(os.peak), |old(os.open)| + max_connect_)
      ensures trycount_ == StartCount(history) <= |addrs|
      ensures os.now < 0x1_0000_0000_0000_0000 ==> Timed(history, PlanOf(|addrs|))
      ensures Rounds(history) == os.selects - old(os.selects) > 0 && old(os.now) <= BeganAt(history) <= os.now
      ensures forall e :: e in history && e.Waited? ==> e.looked <= os.now
    {
      hide Ledger, Tracks, Passed, GaveUp, AtHead, Timed, LastStart, LostSinceStart, StartMark, Behind;
      ghost var base := os.open;
      vec, retsocket, socks, owner := attempts, INVALID_SOCKET, seq(|addrs|, _ => INVALID_SOCKET), map[];
      NothingOpen(|addrs|, base);
      var curtime := os.TickCount();
      history := [Began(curtime)];
      NothingStarted(|addrs|, curtime);
      var laststart := U64(curtime - Max(interval_, error_interval_));
      var lasterror, stop := 0, false;
      var index: nat := 0;
      while !stop
        invariant trycount_ == index <= |addrs| && Pace(history, |addrs|, index, laststart, lasterror, os.now)
        invariant Settled(vec, attempts, index_) && Tracks(vec, addrs, os, socks) && |vec| == |socks| == |addrs|
        invariant !stop ==> AtLoopHead(vec, addrs, os, index, socks, base, owner) && retsocket == INVALID_SOCKET
        invariant Ledger(socks, os.open, if retsocket == INVALID_SOCKET then base else base + {retsocket}, owner)
        invariant stop && retsocket == INVALID_SOCKET ==>
                    os.interrupted || (index == |addrs| && forall i :: 0 <= i < |vec| ==> vec[i] == null)
        invariant retsocket != INVALID_SOCKET ==>
                    && retsocket !in base && retsocket in os.good && 0 <= index_ < trycount_ <= |addrs|
                    && retsocket in os.peer && os.peer[retsocket] == addrs[index_] && index_ < |attempts|
                    && attempts[index_] != null && Reports(attempts[index_])
        invariant retsocket == INVALID_SOCKET ==> index_ == -1
        invariant os.peak <= Max(old(os.peak), |base| + max_connect_)
        invariant Rounds(history) == os.selects - old(os.selects) && (stop ==> Rounds(history) > 0)
        invariant BeganAt(history) == curtime <= os.now
        decreases !stop, os.patience
      {
        stop, retsocket, vec, index, laststart, lasterror, history, socks, owner :=
          Turn(vec, attempts, addrs, os, index, laststart, lasterror, history, socks, base, owner);
      }
    }

    lemma NothingStarted(count: nat, began: nat)
      ensures Pace([Began(began)], count, 0, U64(began - Max(interval_, error_interval_)), 0, began)
      ensures StartCount([Began(began)]) == 0 == Rounds([Began(began)]) && BeganAt([Began(began)]) == began
    {
      assert [Began(began)][..0] == [];
    }
  }
}
