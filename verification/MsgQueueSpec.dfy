/** The message queue as a step system: what each stretch of code that runs under the queue's mutex does.
    Between two such stretches any other thread may take a step. */
module MsgQueueSpec {

  datatype Timer = Immediately | After(delay: int)

  datatype Msg = Msg(
    seqNo: int, id: int, handlerId: int, timer: Timer, recordTime: int, broadcast: bool, isHandling: bool)

  datatype Handler = Handler(id: int, broadcast: bool)

  /** Where the queue thread is: about to check the exit flag; past the check, about to look for a message; inside the
      `pos`-th handler with message `seqNo`; out of its loop. */
  datatype Thread = Idle | Armed | InHandler(seqNo: int, pos: nat) | Gone

  /** How a message left the queue. Finished: all of the `upTo` handlers there were had been gone through. Dropped: the
      exit flag stopped that behind the first `called` of them. Or it was cancelled. */
  datatype Fate = Finished(msg: Msg, upTo: nat) | Dropped(msg: Msg, called: nat, upTo: nat) | Cancelled

  /** A message taken up by the queue thread, and when. */
  datatype Pick = Pick(msg: Msg, at: int)

  /** A call of a handler with a message. */
  datatype Begin = Begin(seqNo: int, handlerId: int, broadcast: bool)

  /** The queue's fields, the queue thread's position and the history so far. */
  datatype State = State(
    msgs: seq<Msg>, handlers: seq<Handler>, msgSeq: nat, exit: bool, thread: Thread,
    fates: map<int, Fate>, picks: seq<Pick>, begins: seq<Begin>)

  const Initial := State([], [], 0, false, Idle, map[], [], [])

  // ---------- The parts of the steps ----------

  predicate HasHandler(handlers: seq<Handler>, id: int) {
    exists i :: 0 <= i < |handlers| && handlers[i].id == id
  }

  /** `gettickspan`. */
  function Span(from: int, now: int): int {
    if from > now then 0 else now - from
  }

  predicate Due(m: Msg, now: int) {
    m.timer.Immediately? || m.timer.delay <= Span(m.recordTime, now)
  }

  /** What the clock shows when the `i`-th message is looked at. */
  function Reading(times: seq<int>, i: nat): int {
    if i < |times| then times[i] else 0
  }

  /** The position of the first message that is due when it is looked at. */
  function FirstDue(msgs: seq<Msg>, times: seq<int>): (p: nat)
    ensures p <= |msgs| && (p < |msgs| ==> Due(msgs[p], Reading(times, p)))
    ensures forall i :: 0 <= i < p ==> !Due(msgs[i], Reading(times, i))
  {
    if msgs == [] || Due(msgs[0], Reading(times, 0)) then 0
    else 1 + FirstDue(msgs[1..], if times == [] then [] else times[1..])
  }

  predicate Takes(h: Handler, m: Msg) {
    m.handlerId == h.id || (m.broadcast && h.broadcast)
  }

  /** The first handler from position `pos` on that takes `m`; none once the queue is told to exit. */
  function NextHandler(handlers: seq<Handler>, m: Msg, pos: nat, exit: bool): (h: nat)
    requires pos <= |handlers|
    ensures pos <= h <= |handlers| && (h < |handlers| ==> Takes(handlers[h], m) && !exit)
    ensures forall i :: pos <= i < h ==> exit || !Takes(handlers[i], m)
    decreases |handlers| - pos
  {
    if exit then |handlers|
    else if pos == |handlers| || Takes(handlers[pos], m) then pos
    else NextHandler(handlers, m, pos + 1, exit)
  }

  function Without(msgs: seq<Msg>, p: nat): seq<Msg>
    requires p < |msgs|
  {
    msgs[..p] + msgs[p + 1..]
  }

  /** The fate of a message with which the handler loop ends, having got to position `pos`. */
  function Verdict(handlers: seq<Handler>, m: Msg, pos: nat): Fate
    requires pos <= |handlers|
  {
    if NextHandler(handlers, m, pos, false) == |handlers| then Finished(m, |handlers|)
    else Dropped(m, pos, |handlers|)
  }

  /** Goes on with the message at `p`: hands it to the next handler, or, if there is none, removes it. */
  function Dispatch(s: State, p: nat, pos: nat): State
    requires p < |s.msgs| && pos <= |s.handlers|
  {
    var m := s.msgs[p];
    var h := NextHandler(s.handlers, m, pos, s.exit);
    if h == |s.handlers| then
      s.(msgs := Without(s.msgs, p), thread := Idle, fates := s.fates[m.seqNo := Verdict(s.handlers, m, pos)])
    else
      s.(msgs := s.msgs[p := m.(isHandling := true)], thread := InHandler(m.seqNo, h),
         begins := s.begins + [Begin(m.seqNo, s.handlers[h].id, m.broadcast)])
  }

  function Position(msgs: seq<Msg>, seqNo: int): (p: nat)
    ensures p <= |msgs| && (p < |msgs| ==> msgs[p].seqNo == seqNo)
    ensures forall i :: 0 <= i < p ==> msgs[i].seqNo != seqNo
  {
    if msgs == [] || msgs[0].seqNo == seqNo then 0 else 1 + Position(msgs[1..], seqNo)
  }

  // ---------- Cancelling ----------

  /** `cancel_msg_seq`: the message with this number, unless it is being handled. */
  function DropSeq(msgs: seq<Msg>, seqNo: int): seq<Msg> {
    if msgs == [] then []
    else if msgs[0].seqNo == seqNo && msgs[0].isHandling then msgs
    else if msgs[0].seqNo == seqNo then DropSeq(msgs[1..], seqNo)
    else [msgs[0]] + DropSeq(msgs[1..], seqNo)
  }

  /** `cancel_msg(Msg&)`: all messages with this id and handler up to one that is being handled. */
  function DropAlike(msgs: seq<Msg>, id: int, handlerId: int): seq<Msg> {
    if msgs == [] then []
    else if msgs[0].id == id && msgs[0].handlerId == handlerId && msgs[0].isHandling then msgs
    else if msgs[0].id == id && msgs[0].handlerId == handlerId then DropAlike(msgs[1..], id, handlerId)
    else [msgs[0]] + DropAlike(msgs[1..], id, handlerId)
  }

  /** `cancel_msg(handler_id)`: all messages for this handler except one that is being handled. */
  function DropFor(msgs: seq<Msg>, handlerId: int): seq<Msg> {
    if msgs == [] then []
    else if msgs[0].handlerId == handlerId && !msgs[0].isHandling then DropFor(msgs[1..], handlerId)
    else [msgs[0]] + DropFor(msgs[1..], handlerId)
  }

  /** `cancel_msg(msg_id, handler_id)`: the first such message, unless it is being handled. */
  function DropFirst(msgs: seq<Msg>, id: int, handlerId: int): seq<Msg> {
    if msgs == [] then []
    else if msgs[0].id == id && msgs[0].handlerId == handlerId then
      if msgs[0].isHandling then msgs else msgs[1..]
    else [msgs[0]] + DropFirst(msgs[1..], id, handlerId)
  }

  function SeqNos(msgs: seq<Msg>): set<int> {
    set m | m in msgs :: m.seqNo
  }

  /** The state with `rest` left of the queue; what is gone was cancelled. */
  function Cancel(s: State, rest: seq<Msg>): State {
    s.(msgs := rest, fates := s.fates + map q | q in SeqNos(s.msgs) - SeqNos(rest) :: Cancelled)
  }

  // ---------- The steps ----------

  datatype Op =
    | Send(msg: Msg)
    | AddHandler(handler: Handler)
    | CancelSeq(seqNo: int)
    | CancelAlike(id: int, handlerId: int)
    | CancelFor(handlerId: int)
    | CancelFirst(id: int, handlerId: int)
    | SetExit
    | Check                    // the queue thread checks the exit flag
    | Look(times: seq<int>)    // it looks for a message that is due, reading the clock for each message
    | Return                   // the handler that runs returns

  function Step(s: State, op: Op): State {
    match op
    case Send(m) =>
      if !HasHandler(s.handlers, m.handlerId) then s
      else s.(msgs := s.msgs + [m.(seqNo := s.msgSeq, isHandling := false)], msgSeq := s.msgSeq + 1)
    case AddHandler(h) =>
      if HasHandler(s.handlers, h.id) then s else s.(handlers := s.handlers + [h])
    case CancelSeq(q) => if q > s.msgSeq then s else Cancel(s, DropSeq(s.msgs, q))
    case CancelAlike(id, h) => Cancel(s, DropAlike(s.msgs, id, h))
    case CancelFor(h) => Cancel(s, DropFor(s.msgs, h))
    case CancelFirst(id, h) => Cancel(s, DropFirst(s.msgs, id, h))
    case SetExit => s.(exit := true)
    case Check => if s.thread != Idle then s else s.(thread := if s.exit then Gone else Armed)
    case Look(times) =>
      var p := FirstDue(s.msgs, times);
      if s.thread != Armed then s
      else if p == |s.msgs| then s.(thread := Idle)
      else Dispatch(Picking(s, p, times), p, 0)
    case Return =>
      if !s.thread.InHandler? then s
      else
        var p := Position(s.msgs, s.thread.seqNo);
        if p == |s.msgs| || s.thread.pos >= |s.handlers| then s
        else
          Dispatch(s.(msgs := s.msgs[p := s.msgs[p].(isHandling := false)]), p, s.thread.pos + 1)
  }

  /** The state with the message at `p` noted as taken up. */
  function Picking(s: State, p: nat, times: seq<int>): State
    requires p < |s.msgs|
  {
    s.(picks := s.picks + [Pick(s.msgs[p], Reading(times, p))])
  }

  function Run(ops: seq<Op>): State {
    if ops == [] then Initial else Step(Run(ops[..|ops| - 1]), ops[|ops| - 1])
  }

  // ---------- What holds in every state ----------

  ghost predicate Sorted(msgs: seq<Msg>, bound: int) {
    && (forall i :: 0 <= i < |msgs| ==> 0 <= msgs[i].seqNo < bound)
    && (forall i, j :: 0 <= i < j < |msgs| ==> msgs[i].seqNo < msgs[j].seqNo)
  }

  ghost predicate IsCurrent(s: State, q: int) {
    s.thread.InHandler? && s.thread.seqNo == q
  }

  /** Exactly the message that the queue thread is handling is marked so, and it is in the list. */
  ghost predicate InFlight(s: State) {
    && (forall i :: 0 <= i < |s.msgs| ==> (s.msgs[i].isHandling <==> IsCurrent(s, s.msgs[i].seqNo)))
    && (s.thread.InHandler? ==>
          && s.thread.seqNo in SeqNos(s.msgs) && s.thread.pos < |s.handlers|
          && forall m :: m in s.msgs && IsCurrent(s, m.seqNo) ==> Takes(s.handlers[s.thread.pos], m))
  }

  /** Every number given out belongs to a message that is either in the list or has met its fate, never both. */
  ghost predicate Accounted(s: State) {
    && (forall q :: 0 <= q < s.msgSeq <==> q in s.fates || q in SeqNos(s.msgs))
    && s.fates.Keys !! SeqNos(s.msgs)
  }

  ghost predicate HandlersOk(s: State) {
    && (forall i, j :: 0 <= i < j < |s.handlers| ==> s.handlers[i].id != s.handlers[j].id)
    && (forall m :: m in s.msgs ==> HasHandler(s.handlers, m.handlerId))
  }

  /** The number belongs to a message that the thread took up. */
  ghost predicate Taken(s: State, q: int) {
    IsCurrent(s, q) || (q in s.fates && s.fates[q] != Cancelled)
  }

  ghost predicate PicksOk(s: State) {
    && (forall i :: 0 <= i < |s.picks| ==> Due(s.picks[i].msg, s.picks[i].at) && Taken(s, s.picks[i].msg.seqNo))
    && (forall i, j :: 0 <= i < j < |s.picks| ==> s.picks[i].msg.seqNo != s.picks[j].msg.seqNo)
    && (forall i, j :: 0 <= i < j < |s.picks| && s.picks[i].msg.timer.Immediately? && s.picks[j].msg.timer.Immediately?
          ==> s.picks[i].msg.seqNo < s.picks[j].msg.seqNo)
    && (forall i, m :: 0 <= i < |s.picks| && s.picks[i].msg.timer.Immediately?
                       && m in s.msgs && m.timer.Immediately? && !m.isHandling
          ==> s.picks[i].msg.seqNo < m.seqNo)
  }

  ghost predicate Begun(s: State, q: int) {
    exists i :: 0 <= i < |s.begins| && s.begins[i].seqNo == q
  }

  ghost predicate BeginsOk(s: State) {
    && (forall i :: 0 <= i < |s.begins| ==> Taken(s, s.begins[i].seqNo))
    && (forall i, j :: 0 <= i < j < |s.begins| && s.begins[i].seqNo == s.begins[j].seqNo ==> s.begins[i].broadcast)
    && (forall i, m :: 0 <= i < |s.begins| && m in s.msgs && s.begins[i].seqNo == m.seqNo
          ==> s.begins[i].broadcast == m.broadcast)
    && (s.thread.InHandler? ==> Begun(s, s.thread.seqNo))
    && (forall q :: q in s.fates && s.fates[q].Finished? ==> Begun(s, q))
  }

  ghost predicate Inv(s: State) {
    Sorted(s.msgs, s.msgSeq) && InFlight(s) && Accounted(s) && HandlersOk(s) && PicksOk(s) && BeginsOk(s)
  }

  // ---------- Steps of the other threads ----------

  /** The queue with one more message at the end. */
  ghost function Sent(s: State, m: Msg): State {
    s.(msgs := s.msgs + [m], msgSeq := s.msgSeq + 1)
  }

  lemma SentSeqNos(msgs: seq<Msg>, m: Msg)
    ensures SeqNos(msgs + [m]) == SeqNos(msgs) + {m.seqNo}
    ensures forall x :: x in msgs + [m] <==> x in msgs || x == m
  {
    assert forall x :: x in msgs + [m] <==> x in msgs || x == m;
  }

  lemma SentBasics(s: State, m: Msg)
    requires Inv(s) && m.seqNo == s.msgSeq && !m.isHandling && HasHandler(s.handlers, m.handlerId)
    ensures var t := Sent(s, m); Sorted(t.msgs, t.msgSeq) && InFlight(t) && Accounted(t) && HandlersOk(t)
  {
    hide PicksOk, BeginsOk, SeqNos;
    SentSeqNos(s.msgs, m);
  }

  lemma SentHistory(s: State, m: Msg)
    requires Inv(s) && m.seqNo == s.msgSeq && !m.isHandling
    ensures PicksOk(Sent(s, m)) && BeginsOk(Sent(s, m))
  {
    var t := Sent(s, m);
    SentSeqNos(s.msgs, m);
    assert forall q :: Taken(s, q) ==> Taken(t, q) && q < s.msgSeq;
    assert forall q :: Begun(s, q) ==> Begun(t, q);
    hide Accounted, Sorted, HandlersOk, SeqNos, Taken;
    forall i | 0 <= i < |t.picks| ensures t.picks[i].msg.seqNo < s.msgSeq {
      assert Taken(s, s.picks[i].msg.seqNo);
    }
    forall i | 0 <= i < |t.begins| ensures t.begins[i].seqNo < s.msgSeq {
      assert Taken(s, s.begins[i].seqNo);
    }
  }

  lemma SendKeeps(s: State, m: Msg)
    requires Inv(s)
    ensures Inv(Step(s, Send(m)))
  {
    if HasHandler(s.handlers, m.handlerId) {
      var n := m.(seqNo := s.msgSeq, isHandling := false);
      SentBasics(s, n);
      SentHistory(s, n);
    }
  }

  lemma AddHandlerKeeps(s: State, h: Handler)
    requires Inv(s)
    ensures Inv(Step(s, AddHandler(h)))
  {
    if !HasHandler(s.handlers, h.id) {
      var t := Step(s, AddHandler(h));
      forall m | m in t.msgs ensures HasHandler(t.handlers, m.handlerId) {
        var i :| 0 <= i < |s.handlers| && s.handlers[i].id == m.handlerId;
        assert t.handlers[i].id == m.handlerId;
      }
      assert forall q :: Taken(s, q) ==> Taken(t, q);
      assert forall q :: Begun(s, q) ==> Begun(t, q);
    }
  }

  /** What cancelling leaves: some of the messages, in order, with the one being handled among them. */
  ghost predicate IsRest(msgs: seq<Msg>, rest: seq<Msg>) {
    && (forall m :: m in rest ==> m in msgs)
    && (forall m :: m in msgs && m.isHandling ==> m in rest)
    && (forall bound :: Sorted(msgs, bound) ==> Sorted(rest, bound))
  }

  lemma {:induction false} DropSeqRest(msgs: seq<Msg>, q: int)
    ensures IsRest(msgs, DropSeq(msgs, q))
  {
    if msgs != [] && !(msgs[0].seqNo == q && msgs[0].isHandling) {
      DropSeqRest(msgs[1..], q);
      RestStep(msgs, DropSeq(msgs[1..], q));
    }
  }

  lemma {:induction false} DropAlikeRest(msgs: seq<Msg>, id: int, handlerId: int)
    ensures IsRest(msgs, DropAlike(msgs, id, handlerId))
  {
    if msgs != [] && !(msgs[0].id == id && msgs[0].handlerId == handlerId && msgs[0].isHandling) {
      DropAlikeRest(msgs[1..], id, handlerId);
      RestStep(msgs, DropAlike(msgs[1..], id, handlerId));
    }
  }

  lemma {:induction false} DropForRest(msgs: seq<Msg>, handlerId: int)
    ensures IsRest(msgs, DropFor(msgs, handlerId))
  {
    if msgs != [] {
      DropForRest(msgs[1..], handlerId);
      RestStep(msgs, DropFor(msgs[1..], handlerId));
    }
  }

  lemma {:induction false} DropFirstRest(msgs: seq<Msg>, id: int, handlerId: int)
    ensures IsRest(msgs, DropFirst(msgs, id, handlerId))
  {
    if msgs != [] {
      if msgs[0].id == id && msgs[0].handlerId == handlerId {
        RestStep(msgs, msgs[1..]);
      } else {
        DropFirstRest(msgs[1..], id, handlerId);
        RestStep(msgs, DropFirst(msgs[1..], id, handlerId));
      }
    }
  }

  /** What is left of the tail, with the head kept, or dropped if it is not being handled. */
  lemma RestStep(msgs: seq<Msg>, rest: seq<Msg>)
    requires msgs != [] && IsRest(msgs[1..], rest)
    ensures IsRest(msgs, [msgs[0]] + rest)
    ensures !msgs[0].isHandling ==> IsRest(msgs, rest)
  {
    assert forall m :: m in msgs <==> m == msgs[0] || m in msgs[1..];
    assert forall m :: m in [msgs[0]] + rest <==> m == msgs[0] || m in rest;
    forall bound | Sorted(msgs, bound) ensures Sorted([msgs[0]] + rest, bound) && Sorted(rest, bound) {
      assert Sorted(msgs[1..], bound);
      forall i | 0 <= i < |rest| ensures msgs[0].seqNo < rest[i].seqNo {
        assert rest[i] in msgs[1..];
      }
    }
  }

  lemma CancelKeeps(s: State, rest: seq<Msg>)
    requires Inv(s) && IsRest(s.msgs, rest)
    ensures Inv(Cancel(s, rest))
  {
    var t := Cancel(s, rest);
    CancelBasics(s, rest);
    CancelHistory(s, rest);
  }

  lemma RestSeqNos(msgs: seq<Msg>, rest: seq<Msg>)
    requires IsRest(msgs, rest)
    ensures SeqNos(rest) <= SeqNos(msgs)
    ensures forall m :: m in msgs && m.isHandling ==> m.seqNo in SeqNos(rest)
  {
  }

  lemma CancelBasics(s: State, rest: seq<Msg>)
    requires Inv(s) && IsRest(s.msgs, rest)
    ensures var t := Cancel(s, rest); Sorted(t.msgs, t.msgSeq) && InFlight(t) && Accounted(t) && HandlersOk(t)
  {
    hide PicksOk, BeginsOk;
    CancelInFlight(s, rest);
    RestSeqNos(s.msgs, rest);
    hide InFlight, SeqNos;
    var t := Cancel(s, rest);
    assert t.fates.Keys == s.fates.Keys + (SeqNos(s.msgs) - SeqNos(rest));
  }

  lemma CancelInFlight(s: State, rest: seq<Msg>)
    requires Inv(s) && IsRest(s.msgs, rest)
    ensures InFlight(Cancel(s, rest))
  {
    hide PicksOk, BeginsOk, Accounted, HandlersOk;
    var t := Cancel(s, rest);
    forall i | 0 <= i < |rest| ensures rest[i].isHandling <==> IsCurrent(t, rest[i].seqNo) {
      assert rest[i] in s.msgs;
    }
    if s.thread.InHandler? {
      var m :| m in s.msgs && m.seqNo == s.thread.seqNo;
      assert m.isHandling;
    }
  }

  lemma CancelHistory(s: State, rest: seq<Msg>)
    requires Inv(s) && IsRest(s.msgs, rest)
    ensures PicksOk(Cancel(s, rest)) && BeginsOk(Cancel(s, rest))
  {
    hide Sorted, HandlersOk, InFlight;
    var t := Cancel(s, rest);
    forall q | Taken(s, q) ensures Taken(t, q) {}
    assert forall q :: Begun(s, q) ==> Begun(t, q);
    assert forall q :: q in t.fates && t.fates[q].Finished? ==> q in s.fates && s.fates[q].Finished?;
    hide Accounted, SeqNos, Taken;
  }

  // ---------- Steps of the queue thread ----------

  /** The queue thread holds the mutex and is about to hand the message at `p` to the handlers from `pos` on.
      The history already counts the message as taken. */
  ghost predicate Dispatching(s: State, p: nat, pos: nat) {
    && p < |s.msgs| && pos <= |s.handlers|
    && Sorted(s.msgs, s.msgSeq) && Accounted(s) && HandlersOk(s)
    && (forall i :: 0 <= i < |s.msgs| ==> !s.msgs[i].isHandling)
    && PicksOk(AsCurrent(s, p)) && StartedOk(s, s.msgs[p], pos)
  }

  /** The state with the message at `p` marked as the one being handled. */
  ghost function AsCurrent(s: State, p: nat): State
    requires p < |s.msgs|
  {
    s.(msgs := s.msgs[p := s.msgs[p].(isHandling := true)], thread := InHandler(s.msgs[p].seqNo, 0))
  }

  ghost predicate StartedOk(s: State, m: Msg, pos: nat)
    requires pos <= |s.handlers|
  {
    && (forall i :: 0 <= i < |s.begins| ==>
          s.begins[i].seqNo == m.seqNo || (s.begins[i].seqNo in s.fates && s.fates[s.begins[i].seqNo] != Cancelled))
    && (forall i, j :: 0 <= i < j < |s.begins| && s.begins[i].seqNo == s.begins[j].seqNo ==> s.begins[i].broadcast)
    && (forall i :: 0 <= i < |s.begins| && s.begins[i].seqNo == m.seqNo ==> s.begins[i].broadcast == m.broadcast)
    && (forall q :: q in s.fates && s.fates[q].Finished? ==> Begun(s, q))
    && (if pos == 0 then !Begun(s, m.seqNo)
        else Begun(s, m.seqNo) && (m.broadcast || forall h :: pos <= h < |s.handlers| ==> !Takes(s.handlers[h], m)))
  }

  lemma WithoutSorted(msgs: seq<Msg>, p: nat, bound: int)
    requires Sorted(msgs, bound) && p < |msgs|
    ensures Sorted(Without(msgs, p), bound)
  {
    var rest := Without(msgs, p);
    assert forall i :: 0 <= i < |rest| ==> rest[i] == if i < p then msgs[i] else msgs[i + 1];
  }

  lemma WithoutMembers(msgs: seq<Msg>, p: nat, bound: int, m: Msg)
    requires Sorted(msgs, bound) && p < |msgs|
    ensures m in Without(msgs, p) <==> m in msgs && m.seqNo != msgs[p].seqNo
  {
    if m in Without(msgs, p) {
      LeftIsThere(msgs, p, bound, m);
    }
    if m in msgs && m.seqNo != msgs[p].seqNo {
      OthersStay(msgs, p, m);
    }
  }

  lemma LeftIsThere(msgs: seq<Msg>, p: nat, bound: int, m: Msg)
    requires Sorted(msgs, bound) && p < |msgs| && m in Without(msgs, p)
    ensures m in msgs && m.seqNo != msgs[p].seqNo
  {
    var rest := Without(msgs, p);
    var i :| 0 <= i < |rest| && rest[i] == m;
    var k := if i < p then i else i + 1;
    assert msgs[k] == m;
  }

  lemma OthersStay(msgs: seq<Msg>, p: nat, m: Msg)
    requires p < |msgs| && m in msgs && m != msgs[p]
    ensures m in Without(msgs, p)
  {
    var i :| 0 <= i < |msgs| && msgs[i] == m;
    var k := if i < p then i else i - 1;
    assert Without(msgs, p)[k] == m;
  }

  lemma WithoutSeqNos(msgs: seq<Msg>, p: nat, bound: int)
    requires Sorted(msgs, bound) && p < |msgs|
    ensures Sorted(Without(msgs, p), bound)
    ensures SeqNos(Without(msgs, p)) == SeqNos(msgs) - {msgs[p].seqNo}
    ensures forall m :: m in Without(msgs, p) ==> m in msgs && m.seqNo != msgs[p].seqNo
  {
    WithoutSorted(msgs, p, bound);
    var rest := Without(msgs, p);
    hide Without, SeqNos, Sorted;
    forall m ensures m in rest <==> m in msgs && m.seqNo != msgs[p].seqNo {
      WithoutMembers(msgs, p, bound, m);
    }
    SameSeqNos(msgs, rest, msgs[p].seqNo);
  }

  lemma SameSeqNos(msgs: seq<Msg>, rest: seq<Msg>, q: int)
    requires forall m :: m in rest <==> m in msgs && m.seqNo != q
    ensures SeqNos(rest) == SeqNos(msgs) - {q}
  {
  }

  lemma UpdatedSeqNos(msgs: seq<Msg>, p: nat, b: bool)
    requires p < |msgs|
    ensures var msgs' := msgs[p := msgs[p].(isHandling := b)];
            && SeqNos(msgs') == SeqNos(msgs)
            && (forall bound :: Sorted(msgs, bound) ==> Sorted(msgs', bound))
            && forall m :: m in msgs' ==> exists n :: n in msgs && n.(isHandling := m.isHandling) == m
  {
    var msgs' := msgs[p := msgs[p].(isHandling := b)];
    forall m | m in msgs' ensures exists n :: n in msgs && n.(isHandling := m.isHandling) == m {
      var i :| 0 <= i < |msgs'| && msgs'[i] == m;
      assert msgs[i].(isHandling := m.isHandling) == m;
    }
    forall m | m in msgs ensures m.seqNo in SeqNos(msgs') {
      var i :| 0 <= i < |msgs| && msgs[i] == m;
      assert msgs'[i].seqNo == m.seqNo;
    }
  }

  /** No handler is left: the message leaves the queue. */
  lemma DispatchEnds(s: State, p: nat, pos: nat)
    requires Dispatching(s, p, pos) && NextHandler(s.handlers, s.msgs[p], pos, s.exit) == |s.handlers|
    ensures Inv(Dispatch(s, p, pos))
  {
    VerdictHolds(s, p, pos);
    EndBasics(s, p, pos);
    EndHistory(s, p, pos);
  }

  /** A message is finished only if a handler was called with it: there is always one that takes it. */
  lemma VerdictHolds(s: State, p: nat, pos: nat)
    requires Dispatching(s, p, pos)
    ensures Verdict(s.handlers, s.msgs[p], pos).Finished? ==> Begun(s, s.msgs[p].seqNo)
  {
    var m := s.msgs[p];
    assert m in s.msgs;
    var i :| 0 <= i < |s.handlers| && s.handlers[i].id == m.handlerId;
    assert Takes(s.handlers[i], m);
  }

  lemma EndBasics(s: State, p: nat, pos: nat)
    requires Dispatching(s, p, pos) && NextHandler(s.handlers, s.msgs[p], pos, s.exit) == |s.handlers|
    ensures var t := Dispatch(s, p, pos); Sorted(t.msgs, t.msgSeq) && InFlight(t) && Accounted(t) && HandlersOk(t)
  {
    hide PicksOk, StartedOk, NextHandler;
    var t := Dispatch(s, p, pos);
    var m := s.msgs[p];
    WithoutSeqNos(s.msgs, p, s.msgSeq);
    assert m in s.msgs && m.seqNo in SeqNos(s.msgs);
    assert t.fates.Keys == s.fates.Keys + {m.seqNo};
    forall i | 0 <= i < |t.msgs| ensures !t.msgs[i].isHandling {
      assert t.msgs[i] in t.msgs;
    }
  }

  lemma EndHistory(s: State, p: nat, pos: nat)
    requires Dispatching(s, p, pos) && NextHandler(s.handlers, s.msgs[p], pos, s.exit) == |s.handlers|
    requires Verdict(s.handlers, s.msgs[p], pos).Finished? ==> Begun(s, s.msgs[p].seqNo)
    ensures var t := Dispatch(s, p, pos); PicksOk(t) && BeginsOk(t)
  {
    EndPicks(s, p, pos);
    EndBegins(s, p, pos);
  }

  /** What is left in the list was there before, with another number than the message that leaves. */
  lemma Leftover(s: State, p: nat)
    requires p < |s.msgs| && Sorted(s.msgs, s.msgSeq)
    ensures forall n :: n in Without(s.msgs, p) ==>
              n in s.msgs && n.seqNo in SeqNos(s.msgs) && n.seqNo != s.msgs[p].seqNo && n in AsCurrent(s, p).msgs
    ensures s.msgs[p].seqNo in SeqNos(s.msgs)
  {
    WithoutSeqNos(s.msgs, p, s.msgSeq);
    var c := AsCurrent(s, p);
    forall n | n in Without(s.msgs, p) ensures n in c.msgs {
      var i :| 0 <= i < |s.msgs| && s.msgs[i] == n;
      assert c.msgs[i] == n;
    }
    assert s.msgs[p] in s.msgs;
  }

  lemma EndPicks(s: State, p: nat, pos: nat)
    requires Dispatching(s, p, pos) && NextHandler(s.handlers, s.msgs[p], pos, s.exit) == |s.handlers|
    ensures PicksOk(Dispatch(s, p, pos))
  {
    var t := Dispatch(s, p, pos);
    var c := AsCurrent(s, p);
    Leftover(s, p);
    assert forall q :: Taken(c, q) ==> Taken(t, q);
    hide Sorted, HandlersOk, NextHandler, Without, SeqNos, StartedOk, Taken;
  }

  lemma EndBegins(s: State, p: nat, pos: nat)
    requires Dispatching(s, p, pos) && NextHandler(s.handlers, s.msgs[p], pos, s.exit) == |s.handlers|
    requires Verdict(s.handlers, s.msgs[p], pos).Finished? ==> Begun(s, s.msgs[p].seqNo)
    ensures BeginsOk(Dispatch(s, p, pos))
  {
    assert Verdict(s.handlers, s.msgs[p], pos) != Cancelled;
    hide PicksOk, NextHandler, Verdict, Without;
    var t := Dispatch(s, p, pos);
    Leftover(s, p);
    assert forall q :: Begun(s, q) ==> Begun(t, q);
    hide Sorted, HandlersOk, SeqNos, Begun;
  }

  /** A handler is called with the message. */
  lemma DispatchBegins(s: State, p: nat, pos: nat)
    requires Dispatching(s, p, pos) && NextHandler(s.handlers, s.msgs[p], pos, s.exit) < |s.handlers|
    ensures Inv(Dispatch(s, p, pos))
  {
    BeginBasics(s, p, pos);
    BeginHistory(s, p, pos);
  }

  lemma BeginBasics(s: State, p: nat, pos: nat)
    requires Dispatching(s, p, pos) && NextHandler(s.handlers, s.msgs[p], pos, s.exit) < |s.handlers|
    ensures var t := Dispatch(s, p, pos); Sorted(t.msgs, t.msgSeq) && InFlight(t) && Accounted(t) && HandlersOk(t)
  {
    hide PicksOk, StartedOk, NextHandler;
    BeginInFlight(s, p, pos);
    hide InFlight, SeqNos;
    var t := Dispatch(s, p, pos);
    UpdatedSeqNos(s.msgs, p, true);
    forall m | m in t.msgs ensures HasHandler(t.handlers, m.handlerId) {
      var n :| n in s.msgs && n.(isHandling := m.isHandling) == m;
    }
  }

  lemma BeginInFlight(s: State, p: nat, pos: nat)
    requires Dispatching(s, p, pos) && NextHandler(s.handlers, s.msgs[p], pos, s.exit) < |s.handlers|
    ensures InFlight(Dispatch(s, p, pos))
  {
    hide PicksOk, StartedOk, Accounted, HandlersOk, NextHandler, Verdict;
    var t := Dispatch(s, p, pos);
    UpdatedSeqNos(s.msgs, p, true);
    assert s.msgs[p] in s.msgs;
    forall m | m in t.msgs && IsCurrent(t, m.seqNo) ensures Takes(t.handlers[t.thread.pos], m) {
      var i :| 0 <= i < |t.msgs| && t.msgs[i] == m;
      assert i == p;
    }
  }

  lemma BeginHistory(s: State, p: nat, pos: nat)
    requires Dispatching(s, p, pos) && NextHandler(s.handlers, s.msgs[p], pos, s.exit) < |s.handlers|
    ensures var t := Dispatch(s, p, pos); PicksOk(t) && BeginsOk(t)
  {
    BeginPicks(s, p, pos);
    BeginFlags(s, p, pos);
    BeginBegins(s, p, pos);
  }

  lemma BeginPicks(s: State, p: nat, pos: nat)
    requires Dispatching(s, p, pos) && NextHandler(s.handlers, s.msgs[p], pos, s.exit) < |s.handlers|
    ensures PicksOk(Dispatch(s, p, pos))
  {
    hide NextHandler, StartedOk, Sorted, Accounted, HandlersOk;
    assert forall q :: Taken(AsCurrent(s, p), q) <==> Taken(Dispatch(s, p, pos), q);
    hide Taken;
  }

  /** The calls recorded for a message that is in the list agree with it. */
  lemma BeginFlags(s: State, p: nat, pos: nat)
    requires Dispatching(s, p, pos) && NextHandler(s.handlers, s.msgs[p], pos, s.exit) < |s.handlers|
    ensures var t := Dispatch(s, p, pos);
            forall i, n :: 0 <= i < |t.begins| && n in t.msgs && t.begins[i].seqNo == n.seqNo
              ==> t.begins[i].broadcast == n.broadcast
  {
    hide PicksOk, HandlersOk, NextHandler;
    var t := Dispatch(s, p, pos);
    var m := s.msgs[p];
    assert forall q :: q in SeqNos(s.msgs) ==> q !in s.fates;
    forall i, n | 0 <= i < |t.begins| && n in t.msgs && t.begins[i].seqNo == n.seqNo
      ensures t.begins[i].broadcast == n.broadcast
    {
      var k :| 0 <= k < |t.msgs| && t.msgs[k] == n;
      assert s.msgs[k] in s.msgs && s.msgs[k].seqNo in SeqNos(s.msgs);
      assert i < |s.begins| ==> k == p;
    }
  }

  lemma BeginBegins(s: State, p: nat, pos: nat)
    requires Dispatching(s, p, pos) && NextHandler(s.handlers, s.msgs[p], pos, s.exit) < |s.handlers|
    requires var t := Dispatch(s, p, pos);
             forall i, n :: 0 <= i < |t.begins| && n in t.msgs && t.begins[i].seqNo == n.seqNo
               ==> t.begins[i].broadcast == n.broadcast
    ensures BeginsOk(Dispatch(s, p, pos))
  {
    hide PicksOk, HandlersOk, Accounted, SeqNos, Sorted;
    var t := Dispatch(s, p, pos);
    forall q | Begun(s, q) ensures Begun(t, q) {
      var i :| 0 <= i < |s.begins| && s.begins[i].seqNo == q;
      assert t.begins[i].seqNo == q;
    }
    assert t.begins[|s.begins|].seqNo == s.msgs[p].seqNo;
    assert StartedOk(s, s.msgs[p], pos);
    var h := NextHandler(s.handlers, s.msgs[p], pos, s.exit);
    assert Takes(s.handlers[h], s.msgs[p]);
  }

  lemma LookKeeps(s: State, times: seq<int>)
    requires Inv(s)
    ensures Inv(Step(s, Look(times)))
  {
    hide Inv, Dispatching, NextHandler, Dispatch, FirstDue;
    var p := FirstDue(s.msgs, times);
    if s.thread == Armed && p < |s.msgs| {
      var t := Picking(s, p, times);
      LookStarts(s, p, times);
      if NextHandler(t.handlers, t.msgs[p], 0, t.exit) == |t.handlers| {
        DispatchEnds(t, p, 0);
      } else {
        DispatchBegins(t, p, 0);
      }
    } else if s.thread == Armed {
      WaitKeeps(s, Idle);
    }
  }

  lemma LookStarts(s: State, p: nat, times: seq<int>)
    requires Inv(s) && s.thread == Armed && p == FirstDue(s.msgs, times) < |s.msgs|
    ensures Dispatching(Picking(s, p, times), p, 0)
  {
    LookPicks(s, p, times);
    LookStarted(s, p, times);
    hide PicksOk, BeginsOk, StartedOk, AsCurrent, FirstDue;
  }

  lemma LookStarted(s: State, p: nat, times: seq<int>)
    requires Inv(s) && s.thread == Armed && p < |s.msgs|
    ensures StartedOk(Picking(s, p, times), s.msgs[p], 0)
  {
    hide PicksOk, Sorted, HandlersOk;
    var t := Picking(s, p, times);
    var m := s.msgs[p];
    assert m in s.msgs && m.seqNo in SeqNos(s.msgs) && m.seqNo !in s.fates;
    assert forall q :: Begun(s, q) <==> Begun(t, q);
    forall i | 0 <= i < |s.begins| ensures s.begins[i].seqNo != m.seqNo {
      assert Taken(s, s.begins[i].seqNo);
    }
  }

  lemma LookPicks(s: State, p: nat, times: seq<int>)
    requires Inv(s) && s.thread == Armed && p == FirstDue(s.msgs, times) < |s.msgs|
    ensures PicksOk(AsCurrent(Picking(s, p, times), p))
  {
    hide Inv, Due, Taken, FirstDue;
    var m := s.msgs[p];
    var c := AsCurrent(Picking(s, p, times), p);
    var last := |s.picks|;
    assert Due(m, Reading(times, p)) && Taken(c, m.seqNo) by { PickIsDue(s, p, times); }
    forall i | 0 <= i < last
      ensures Due(c.picks[i].msg, c.picks[i].at) && Taken(c, c.picks[i].msg.seqNo) && c.picks[i].msg.seqNo != m.seqNo
      ensures c.picks[i].msg.timer.Immediately? && m.timer.Immediately? ==> c.picks[i].msg.seqNo < m.seqNo
    {
      EarlierPick(s, p, times, i);
    }
    forall i, j | 0 <= i < j < last ensures InOrder(c.picks[i].msg, c.picks[j].msg) {
      EarlierPicks(s, i, j);
    }
    forall i, n | 0 <= i <= last && c.picks[i].msg.timer.Immediately?
                  && n in c.msgs && n.timer.Immediately? && !n.isHandling
      ensures c.picks[i].msg.seqNo < n.seqNo
    {
      StillWaiting(s, p, times, n);
      if i < last {
        WaitingBehind(s, i, n);
      }
    }
  }

  ghost predicate InOrder(a: Msg, b: Msg) {
    a.seqNo != b.seqNo && (a.timer.Immediately? && b.timer.Immediately? ==> a.seqNo < b.seqNo)
  }

  lemma PickIsDue(s: State, p: nat, times: seq<int>)
    requires p == FirstDue(s.msgs, times) < |s.msgs|
    ensures Due(s.msgs[p], Reading(times, p)) && Taken(AsCurrent(Picking(s, p, times), p), s.msgs[p].seqNo)
  {
  }

  lemma EarlierPick(s: State, p: nat, times: seq<int>, i: nat)
    requires Inv(s) && s.thread == Armed && p < |s.msgs| && i < |s.picks|
    ensures var m, k, c := s.msgs[p], s.picks[i], AsCurrent(Picking(s, p, times), p);
            Due(k.msg, k.at) && Taken(c, k.msg.seqNo) && InOrder(k.msg, m)
  {
    hide HandlersOk, BeginsOk;
    var m := s.msgs[p];
    assert m in s.msgs && m.seqNo in SeqNos(s.msgs) && m.seqNo !in s.fates;
    assert Taken(s, s.picks[i].msg.seqNo);
  }

  lemma EarlierPicks(s: State, i: nat, j: nat)
    requires Inv(s) && i < j < |s.picks|
    ensures InOrder(s.picks[i].msg, s.picks[j].msg)
  {
    hide HandlersOk, BeginsOk, InFlight, Accounted, Sorted;
  }

  lemma WaitingBehind(s: State, i: nat, n: Msg)
    requires Inv(s) && i < |s.picks| && s.picks[i].msg.timer.Immediately?
    requires n in s.msgs && n.timer.Immediately? && !n.isHandling
    ensures s.picks[i].msg.seqNo < n.seqNo
  {
    hide HandlersOk, BeginsOk, InFlight, Accounted, Sorted;
  }

  /** The first due message comes behind no immediate one that is still waiting. */
  lemma StillWaiting(s: State, p: nat, times: seq<int>, n: Msg)
    requires Inv(s) && s.thread == Armed && p == FirstDue(s.msgs, times) < |s.msgs|
    requires n in AsCurrent(s, p).msgs && n.timer.Immediately? && !n.isHandling
    ensures n in s.msgs && s.msgs[p].seqNo < n.seqNo
  {
    hide HandlersOk, BeginsOk, PicksOk, Accounted;
    var c := AsCurrent(s, p);
    var k :| 0 <= k < |c.msgs| && c.msgs[k] == n;
    assert k != p && s.msgs[k] == n && Due(n, Reading(times, k));
  }

  lemma ReturnKeeps(s: State)
    requires Inv(s)
    ensures Inv(Step(s, Return))
  {
    hide Inv, Dispatching, NextHandler, Dispatch;
    if s.thread.InHandler? {
      CurrentIsThere(s);
      var p := Position(s.msgs, s.thread.seqNo);
      var t := s.(msgs := s.msgs[p := s.msgs[p].(isHandling := false)]);
      ReturnGoesOn(s, p);
      if NextHandler(t.handlers, t.msgs[p], s.thread.pos + 1, t.exit) == |t.handlers| {
        DispatchEnds(t, p, s.thread.pos + 1);
      } else {
        DispatchBegins(t, p, s.thread.pos + 1);
      }
    }
  }

  /** The message being handled is in the list, whatever happened while its handler ran. */
  lemma CurrentIsThere(s: State)
    requires Inv(s) && s.thread.InHandler?
    ensures var p := Position(s.msgs, s.thread.seqNo);
            p < |s.msgs| && s.msgs[p].seqNo == s.thread.seqNo && s.msgs[p].isHandling && s.thread.pos < |s.handlers|
  {
    var m :| m in s.msgs && m.seqNo == s.thread.seqNo;
    var i :| 0 <= i < |s.msgs| && s.msgs[i] == m;
  }

  lemma ReturnGoesOn(s: State, p: nat)
    requires Inv(s) && s.thread.InHandler? && p < |s.msgs| && s.msgs[p].seqNo == s.thread.seqNo
    requires s.msgs[p].isHandling && s.thread.pos < |s.handlers|
    ensures Dispatching(s.(msgs := s.msgs[p := s.msgs[p].(isHandling := false)]), p, s.thread.pos + 1)
  {
    var t := s.(msgs := s.msgs[p := s.msgs[p].(isHandling := false)]);
    UpdatedSeqNos(s.msgs, p, false);
    assert s.msgs[p] in s.msgs;
    ReturnBasics(s, p);
    ReturnStarted(s, p);
    assert PicksOk(AsCurrent(t, p)) by {
      var c := AsCurrent(t, p);
      assert c.msgs == s.msgs;
      assert forall q :: Taken(s, q) <==> Taken(c, q);
    }
  }

  lemma ReturnBasics(s: State, p: nat)
    requires Inv(s) && s.thread.InHandler? && p < |s.msgs| && s.msgs[p].seqNo == s.thread.seqNo
    ensures var t := s.(msgs := s.msgs[p := s.msgs[p].(isHandling := false)]);
            && Sorted(t.msgs, t.msgSeq) && Accounted(t) && HandlersOk(t)
            && forall i :: 0 <= i < |t.msgs| ==> !t.msgs[i].isHandling
  {
    hide PicksOk, BeginsOk;
    var t := s.(msgs := s.msgs[p := s.msgs[p].(isHandling := false)]);
    UpdatedSeqNos(s.msgs, p, false);
    forall m | m in t.msgs ensures HasHandler(t.handlers, m.handlerId) {
      var n :| n in s.msgs && n.(isHandling := m.isHandling) == m;
    }
    forall i | 0 <= i < |t.msgs| ensures !t.msgs[i].isHandling {
      if i != p { assert s.msgs[i].seqNo != s.msgs[p].seqNo; }
    }
  }

  lemma ReturnStarted(s: State, p: nat)
    requires Inv(s) && s.thread.InHandler? && p < |s.msgs| && s.msgs[p].seqNo == s.thread.seqNo
    ensures var t := s.(msgs := s.msgs[p := s.msgs[p].(isHandling := false)]);
            s.thread.pos < |s.handlers| && StartedOk(t, t.msgs[p], s.thread.pos + 1)
  {
    hide PicksOk, Accounted, Sorted;
    var t := s.(msgs := s.msgs[p := s.msgs[p].(isHandling := false)]);
    assert s.msgs[p] in s.msgs && IsCurrent(s, s.msgs[p].seqNo);
    assert forall q :: Begun(s, q) <==> Begun(t, q);
    assert Takes(s.handlers[s.thread.pos], s.msgs[p]);
  }

  lemma StepKeeps(s: State, op: Op)
    requires Inv(s)
    ensures Inv(Step(s, op))
  {
    hide Inv, Sorted, InFlight, Accounted, HandlersOk, PicksOk, BeginsOk, Dispatch;
    match op
    case Send(m) => SendKeeps(s, m);
    case AddHandler(h) => AddHandlerKeeps(s, h);
    case CancelSeq(q) => if q <= s.msgSeq { DropSeqRest(s.msgs, q); CancelKeeps(s, DropSeq(s.msgs, q)); }
    case CancelAlike(id, h) => DropAlikeRest(s.msgs, id, h); CancelKeeps(s, DropAlike(s.msgs, id, h));
    case CancelFor(h) => DropForRest(s.msgs, h); CancelKeeps(s, DropFor(s.msgs, h));
    case CancelFirst(id, h) => DropFirstRest(s.msgs, id, h); CancelKeeps(s, DropFirst(s.msgs, id, h));
    case SetExit => ExitKeeps(s);
    case Check => WaitKeeps(s, if s.exit then Gone else Armed);
    case Look(times) => LookKeeps(s, times);
    case Return => ReturnKeeps(s);
  }

  /** The thread moves on between messages. */
  lemma WaitKeeps(s: State, thread: Thread)
    requires Inv(s)
    ensures !s.thread.InHandler? && !thread.InHandler? ==> Inv(s.(thread := thread))
  {
    var t := s.(thread := thread);
    if !s.thread.InHandler? && !thread.InHandler? {
      assert forall q :: IsCurrent(s, q) <==> IsCurrent(t, q);
      assert forall q :: Taken(s, q) <==> Taken(t, q);
      assert forall q :: Begun(s, q) <==> Begun(t, q);
    }
  }

  lemma ExitKeeps(s: State)
    requires Inv(s)
    ensures Inv(s.(exit := true))
  {
    var t := s.(exit := true);
    assert forall q :: Taken(s, q) <==> Taken(t, q);
    assert forall q :: Begun(s, q) <==> Begun(t, q);
  }

  /** Whatever the threads do and in whatever order, the invariant holds. */
  lemma {:induction false} Always(ops: seq<Op>)
    ensures Inv(Run(ops))
  {
    hide Inv;
    if ops == [] {
      InitialOk();
    } else {
      Always(ops[..|ops| - 1]);
      StepKeeps(Run(ops[..|ops| - 1]), ops[|ops| - 1]);
    }
  }

  lemma InitialOk()
    ensures Inv(Initial)
  {
  }

  // ---------- What the queue promises, in every run ----------

  /** A message stays in the list until its handler has returned, whatever the other threads cancel meanwhile. */
  lemma InFlightStays(ops: seq<Op>)
    requires Run(ops).thread.InHandler?
    ensures var s := Run(ops);
            exists i :: 0 <= i < |s.msgs| && s.msgs[i].seqNo == s.thread.seqNo && s.msgs[i].isHandling
  {
    Always(ops);
    CurrentIsThere(Run(ops));
  }

  /** When a wait for an issued number finds it gone from the list, that message has been handled, has been
      cancelled, or was dropped because the queue was told to exit; it is not being handled. */
  lemma WaitedFor(ops: seq<Op>, q: int)
    requires 0 <= q < Run(ops).msgSeq && q !in SeqNos(Run(ops).msgs)
    ensures var s := Run(ops);
            && q in s.fates && !IsCurrent(s, q)
            && (s.fates[q].Finished? ==> Begun(s, q))
            && (s.fates[q] == Cancelled ==> !Begun(s, q))
            && (s.fates[q].Dropped? ==> s.exit)
  {
    Always(ops);
    DroppedOnExit(ops, q);
    var s := Run(ops);
    if Begun(s, q) {
      var i :| 0 <= i < |s.begins| && s.begins[i].seqNo == q;
      assert Taken(s, s.begins[i].seqNo);
    }
  }

  lemma {:induction false} DroppedOnExit(ops: seq<Op>, q: int)
    ensures q in Run(ops).fates && Run(ops).fates[q].Dropped? ==> Run(ops).exit
  {
    hide Step;
    if ops != [] {
      DroppedOnExit(ops[..|ops| - 1], q);
      DropNeedsExit(Run(ops[..|ops| - 1]), ops[|ops| - 1], q);
    }
  }

  lemma DropNeedsExit(s: State, op: Op, q: int)
    requires q in s.fates && s.fates[q].Dropped? ==> s.exit
    ensures var t := Step(s, op); q in t.fates && t.fates[q].Dropped? ==> t.exit
  {
    hide Without, Position, FirstDue, SeqNos, DropSeq, DropAlike, DropFor, DropFirst, HasHandler;
  }

  /** A message that is not a broadcast is handed to a handler at most once. */
  lemma AtMostOnce(ops: seq<Op>, i: nat, j: nat)
    requires i < j < |Run(ops).begins| && !Run(ops).begins[j].broadcast
    ensures Run(ops).begins[i].seqNo != Run(ops).begins[j].seqNo
  {
    var s := Run(ops);
    if s.begins[i].seqNo == s.begins[j].seqNo {
      Always(ops);
      SameFlag(ops, i, j);
      RepeatedOnly(s, i, j);
    }
  }

  lemma RepeatedOnly(s: State, i: nat, j: nat)
    requires Inv(s) && i < j < |s.begins| && s.begins[i].seqNo == s.begins[j].seqNo
    ensures s.begins[i].broadcast
  {
  }

  lemma {:induction false} SameFlag(ops: seq<Op>, i: nat, j: nat)
    requires i < j < |Run(ops).begins| && Run(ops).begins[i].seqNo == Run(ops).begins[j].seqNo
    ensures Run(ops).begins[i].broadcast == Run(ops).begins[j].broadcast
  {
    hide Inv, Step;
    if ops != [] {
      var before, op := ops[..|ops| - 1], ops[|ops| - 1];
      var s := Run(before);
      Always(before);
      StepKeeps(s, op);
      BeginsGrow(s, op);
      if j < |s.begins| {
        SameFlag(before, i, j);
      } else {
        NewBegin(s, op);
        FlagAgrees(Step(s, op), i, j);
      }
    }
  }

  lemma FlagAgrees(t: State, i: nat, j: nat)
    requires Inv(t) && i < j < |t.begins| && t.begins[i].seqNo == t.begins[j].seqNo
    requires exists m :: m in t.msgs && m.seqNo == t.begins[j].seqNo && m.broadcast == t.begins[j].broadcast
    ensures t.begins[i].broadcast == t.begins[j].broadcast
  {
  }

  lemma BeginsGrow(s: State, op: Op)
    ensures s.begins <= Step(s, op).begins && |Step(s, op).begins| <= |s.begins| + 1
  {
  }

  /** A step that calls a handler leaves the called message in the list. */
  lemma NewBegin(s: State, op: Op)
    requires Inv(s) && |Step(s, op).begins| > |s.begins|
    ensures var t := Step(s, op);
            exists m :: m in t.msgs && m.seqNo == t.begins[|s.begins|].seqNo
                    && m.broadcast == t.begins[|s.begins|].broadcast
  {
    hide Inv;
    var t := Step(s, op);
    var p := Position(t.msgs, t.thread.seqNo);
    StepKeeps(s, op);
    CurrentIsThere(t);
    var u := if op.Look? then FirstDue(s.msgs, op.times) else Position(s.msgs, s.thread.seqNo);
    assert t.msgs[u].seqNo == t.begins[|s.begins|].seqNo && t.msgs[u].broadcast == t.begins[|s.begins|].broadcast;
  }

  /** Messages are taken up when they are due, no message twice, and immediate ones in the order they were sent. */
  lemma PickOrder(ops: seq<Op>, i: nat, j: nat)
    requires i < j < |Run(ops).picks|
    ensures var a, b := Run(ops).picks[i], Run(ops).picks[j];
            && a.msg.seqNo != b.msg.seqNo
            && (a.msg.timer.Immediately? && b.msg.timer.Immediately? ==> a.msg.seqNo < b.msg.seqNo)
  {
    Always(ops);
  }

  /** A delayed message's wait: nothing of it is left at `now`. */
  lemma DueMeans(m: Msg, now: int)
    ensures Due(m, now) <==> m.timer.Immediately? || m.timer.delay <= 0 || now - m.recordTime >= m.timer.delay
  {
  }

  /** In every run a message that is not immediate is taken up only when its delay is over. */
  lemma WaitsOut(ops: seq<Op>, i: nat)
    requires i < |Run(ops).picks|
    ensures var p := Run(ops).picks[i];
            p.msg.timer.After? && p.msg.timer.delay > 0 ==> p.at - p.msg.recordTime >= p.msg.timer.delay
  {
    Always(ops);
  }

  /** The delay of this message is not over at the time it is looked at. */
  ghost predicate Waits(msgs: seq<Msg>, times: seq<int>, i: nat)
    requires i < |msgs|
  {
    && msgs[i].timer.After? && msgs[i].timer.delay > 0
    && Reading(times, i) - msgs[i].recordTime < msgs[i].timer.delay
  }

  /** The first message that is due is the first that does not wait. */
  lemma FirstDueMeans(msgs: seq<Msg>, times: seq<int>)
    ensures var p := FirstDue(msgs, times);
            (forall i :: 0 <= i < p ==> Waits(msgs, times, i)) && (p < |msgs| ==> !Waits(msgs, times, p))
  {
    hide FirstDue;
    var p := FirstDue(msgs, times);
    forall i | 0 <= i < p ensures Waits(msgs, times, i) {
      assert !Due(msgs[i], Reading(times, i));
    }
  }

  /** A look takes nothing up if and only if the delays of all messages are not over; otherwise the first message that
      is immediate, or whose delay is over. */
  lemma LookExactly(s: State, times: seq<int>)
    requires s.thread == Armed
    ensures var t := Step(s, Look(times));
            if forall i :: 0 <= i < |s.msgs| ==> Waits(s.msgs, times, i) then t == s.(thread := Idle)
            else exists p :: 0 <= p < |s.msgs| && !Waits(s.msgs, times, p)
                             && (forall i :: 0 <= i < p ==> Waits(s.msgs, times, i))
                             && t.picks == s.picks + [Pick(s.msgs[p], Reading(times, p))]
  {
    hide Waits, FirstDue;
    FirstDueMeans(s.msgs, times);
    var p := FirstDue(s.msgs, times);
    if p < |s.msgs| {
      assert !Waits(s.msgs, times, p);
    }
  }

  /** A fate is final. */
  lemma FateIsFinal(ops: seq<Op>, op: Op, q: int)
    requires q in Run(ops).fates
    ensures q in Run(ops + [op]).fates && Run(ops + [op]).fates[q] == Run(ops).fates[q]
  {
    hide Inv, Step;
    Always(ops);
    assert (ops + [op])[..|ops|] == ops;
    FateStays(Run(ops), op, q);
  }

  lemma FateStays(s: State, op: Op, q: int)
    requires Inv(s) && q in s.fates
    ensures q in Step(s, op).fates && Step(s, op).fates[q] == s.fates[q]
  {
    hide HandlersOk, PicksOk, BeginsOk, Sorted, InFlight, Dispatch, SeqNos;
    if op.Look? && FirstDue(s.msgs, op.times) < |s.msgs| {
      var p := FirstDue(s.msgs, op.times);
      StillListed(s, p);
      DispatchFate(Picking(s, p, op.times), p, 0, q);
    }
    if op.Return? && s.thread.InHandler? {
      CurrentIsThere(s);
      var p := Position(s.msgs, s.thread.seqNo);
      StillListed(s, p);
      DispatchFate(s.(msgs := s.msgs[p := s.msgs[p].(isHandling := false)]), p, s.thread.pos + 1, q);
    }
  }

  lemma StillListed(s: State, p: nat)
    requires Accounted(s) && p < |s.msgs|
    ensures s.msgs[p].seqNo !in s.fates
  {
    assert s.msgs[p] in s.msgs;
  }

  lemma DispatchFate(s: State, p: nat, pos: nat, q: int)
    requires p < |s.msgs| && pos <= |s.handlers| && s.msgs[p].seqNo !in s.fates && q in s.fates
    ensures var t := Dispatch(s, p, pos); q in t.fates && t.fates[q] == s.fates[q]
  {
  }

  /** Cancelling a number removes that message and no other, unless it is being handled. */
  lemma {:induction false} CancelSeqExact(msgs: seq<Msg>, q: int, m: Msg)
    requires exists bound :: Sorted(msgs, bound)
    ensures m in DropSeq(msgs, q) <==> m in msgs && (m.seqNo != q || m.isHandling)
  {
    if msgs != [] {
      var bound :| Sorted(msgs, bound);
      assert Sorted(msgs[1..], bound);
      assert m in msgs <==> m == msgs[0] || m in msgs[1..];
      if !(msgs[0].seqNo == q && msgs[0].isHandling) {
        CancelSeqExact(msgs[1..], q, m);
      }
    }
  }

  /** Cancelling a handler's messages removes exactly those that are not being handled. */
  lemma {:induction false} CancelForExact(msgs: seq<Msg>, handlerId: int, m: Msg)
    ensures m in DropFor(msgs, handlerId) <==> m in msgs && (m.handlerId != handlerId || m.isHandling)
  {
    if msgs != [] {
      assert m in msgs <==> m == msgs[0] || m in msgs[1..];
      CancelForExact(msgs[1..], handlerId, m);
    }
  }

  /** Cancelling alike messages removes exactly those in front of the first alike one that is being handled. */
  lemma {:induction false} CancelAlikeExact(msgs: seq<Msg>, id: int, handlerId: int)
    ensures exists k: nat :: IsStop(msgs, id, handlerId, k)
                              && IsCut(msgs, DropAlike(msgs, id, handlerId), id, handlerId, k)
  {
    if msgs == [] || (Alike(msgs[0], id, handlerId) && msgs[0].isHandling) {
      assert IsStop(msgs, id, handlerId, 0) && IsCut(msgs, DropAlike(msgs, id, handlerId), id, handlerId, 0);
    } else {
      CancelAlikeExact(msgs[1..], id, handlerId);
      var rest := DropAlike(msgs[1..], id, handlerId);
      var k: nat :| IsStop(msgs[1..], id, handlerId, k) && IsCut(msgs[1..], rest, id, handlerId, k);
      CutNext(msgs, rest, id, handlerId, k);
      assert IsStop(msgs, id, handlerId, k + 1);
    }
  }

  lemma CutNext(msgs: seq<Msg>, rest: seq<Msg>, id: int, handlerId: int, k: nat)
    requires msgs != [] && IsCut(msgs[1..], rest, id, handlerId, k)
    ensures IsCut(msgs, if Alike(msgs[0], id, handlerId) then rest else [msgs[0]] + rest, id, handlerId, k + 1)
  {
    assert msgs[1..][k..] == msgs[k + 1..];
    assert msgs[..k + 1] == [msgs[0]] + msgs[1..][..k];
    assert forall m :: m in [msgs[0]] + rest <==> m == msgs[0] || m in rest;
    assert forall m :: m in msgs[..k + 1] <==> m == msgs[0] || m in msgs[1..][..k];
  }

  /** `rest` is what is left when the alike messages among the first `k` are gone. */
  ghost predicate IsCut(msgs: seq<Msg>, rest: seq<Msg>, id: int, handlerId: int, k: nat) {
    && k <= |msgs|
    && forall m :: m in rest <==> (m in msgs[..k] && !Alike(m, id, handlerId)) || m in msgs[k..]
  }

  /** Cancelling one alike message removes the first of them, unless it is being handled or there is none; no other
      goes. */
  lemma {:induction false} CancelFirstExact(msgs: seq<Msg>, id: int, handlerId: int)
    ensures var p := FirstAlike(msgs, id, handlerId);
            DropFirst(msgs, id, handlerId) == if p < |msgs| && !msgs[p].isHandling then Without(msgs, p) else msgs
  {
    if msgs != [] && !Alike(msgs[0], id, handlerId) {
      CancelFirstExact(msgs[1..], id, handlerId);
      var p := FirstAlike(msgs[1..], id, handlerId);
      if p < |msgs[1..]| {
        WithoutNext(msgs, p);
      }
      assert [msgs[0]] + msgs[1..] == msgs;
    } else if msgs != [] {
      assert Without(msgs, 0) == msgs[1..];
    }
  }

  lemma WithoutNext(msgs: seq<Msg>, p: nat)
    requires p + 1 < |msgs|
    ensures [msgs[0]] + Without(msgs[1..], p) == Without(msgs, p + 1)
  {
  }

  /** The position of the first alike message, or the end. */
  function FirstAlike(msgs: seq<Msg>, id: int, handlerId: int): (p: nat)
    ensures p <= |msgs| && (p < |msgs| ==> Alike(msgs[p], id, handlerId))
    ensures forall i :: 0 <= i < p ==> !Alike(msgs[i], id, handlerId)
  {
    if msgs == [] || Alike(msgs[0], id, handlerId) then 0 else 1 + FirstAlike(msgs[1..], id, handlerId)
  }

  predicate Alike(m: Msg, id: int, handlerId: int) {
    m.id == id && m.handlerId == handlerId
  }

  /** The position of the first alike message that is being handled, or the end. */
  ghost predicate IsStop(msgs: seq<Msg>, id: int, handlerId: int, k: nat) {
    && k <= |msgs|
    && (k < |msgs| ==> Alike(msgs[k], id, handlerId) && msgs[k].isHandling)
    && forall i :: 0 <= i < k ==> !(Alike(msgs[i], id, handlerId) && msgs[i].isHandling)
  }
}
