/** Which handlers are called with a message, and what the exit flag means for it. */
module MsgQueueCalls {
  import opened MsgQueueSpec

  /** How often the handler was called with the message. */
  function Calls(begins: seq<Begin>, q: int, handlerId: int): nat {
    if begins == [] then 0
    else
      var b := begins[|begins| - 1];
      Calls(begins[..|begins| - 1], q, handlerId) + if b.seqNo == q && b.handlerId == handlerId then 1 else 0
  }

  /** Of the handlers before position `c` exactly those that take `m` were called with it, each once; the others were
      not called. */
  ghost predicate Called(begins: seq<Begin>, handlers: seq<Handler>, m: Msg, c: nat) {
    forall i :: 0 <= i < |handlers| ==>
      Calls(begins, m.seqNo, handlers[i].id) == if i < c && Takes(handlers[i], m) then 1 else 0
  }

  /** Some handler from `c` up to `n` takes the message. */
  ghost predicate SomeTakes(handlers: seq<Handler>, m: Msg, c: nat, n: nat) {
    exists i :: c <= i < n && i < |handlers| && Takes(handlers[i], m)
  }

  /** What a fate says about the calls. */
  ghost predicate FateOk(s: State, q: int, fate: Fate) {
    match fate
    case Finished(m, n) => m.seqNo == q && n <= |s.handlers| && Called(s.begins, s.handlers, m, n)
    case Dropped(m, c, n) =>
      m.seqNo == q && c <= n <= |s.handlers| && Called(s.begins, s.handlers, m, c) && SomeTakes(s.handlers, m, c, n)
    case Cancelled => true
  }

  ghost predicate FatesOk(s: State) {
    forall q :: q in s.fates ==> FateOk(s, q, s.fates[q])
  }

  ghost predicate CallersKnown(s: State) {
    forall i :: 0 <= i < |s.begins| ==> HasHandler(s.handlers, s.begins[i].handlerId)
  }

  ghost predicate CurrentOk(s: State) {
    forall m :: m in s.msgs && IsCurrent(s, m.seqNo) ==> Called(s.begins, s.handlers, m, s.thread.pos + 1)
  }

  ghost predicate CallsOk(s: State) {
    FatesOk(s) && CallersKnown(s) && CurrentOk(s)
  }

  lemma {:induction false} NoCalls(begins: seq<Begin>, q: int, handlerId: int)
    requires forall i :: 0 <= i < |begins| ==> begins[i].seqNo != q || begins[i].handlerId != handlerId
    ensures Calls(begins, q, handlerId) == 0
  {
    if begins != [] {
      NoCalls(begins[..|begins| - 1], q, handlerId);
    }
  }

  lemma NotCalled(s: State, m: Msg)
    requires !Begun(s, m.seqNo)
    ensures Called(s.begins, s.handlers, m, 0)
  {
    forall i | 0 <= i < |s.handlers| ensures Calls(s.begins, m.seqNo, s.handlers[i].id) == 0 {
      NoCalls(s.begins, m.seqNo, s.handlers[i].id);
    }
  }

  /** A step that calls no handler and adds none. */
  lemma CallsKept(s: State, t: State)
    requires CallsOk(s) && t.begins == s.begins && t.handlers == s.handlers
    requires forall q :: q in t.fates ==> t.fates[q] == Cancelled || (q in s.fates && t.fates[q] == s.fates[q])
    requires forall m :: m in t.msgs && IsCurrent(t, m.seqNo) ==> m in s.msgs && t.thread == s.thread
    ensures CallsOk(t)
  {
    hide Called, SomeTakes;
  }

  lemma ThreadInRange(s: State)
    requires Inv(s)
    ensures s.thread.InHandler? ==> s.thread.pos < |s.handlers|
  {
  }

  lemma AddHandlerCalls(s: State, h: Handler)
    requires CallsOk(s) && !HasHandler(s.handlers, h.id) && (s.thread.InHandler? ==> s.thread.pos < |s.handlers|)
    ensures CallsOk(s.(handlers := s.handlers + [h]))
  {
    var t := s.(handlers := s.handlers + [h]);
    forall i | 0 <= i < |t.begins| ensures HasHandler(t.handlers, t.begins[i].handlerId) {
      assert HasHandler(s.handlers, s.begins[i].handlerId);
      var k :| 0 <= k < |s.handlers| && s.handlers[k].id == s.begins[i].handlerId;
      assert t.handlers[k].id == s.begins[i].handlerId;
    }
    forall m: Msg, c: nat | c <= |s.handlers| && Called(s.begins, s.handlers, m, c)
      ensures Called(t.begins, t.handlers, m, c)
    {
      NewcomerNotCalled(s, h, m.seqNo);
    }
    forall m: Msg, c: nat, n: nat | SomeTakes(s.handlers, m, c, n) ensures SomeTakes(t.handlers, m, c, n) {
      var i :| c <= i < n && i < |s.handlers| && Takes(s.handlers[i], m);
      assert Takes(t.handlers[i], m);
    }
    hide Called, SomeTakes;
  }

  lemma NewcomerNotCalled(s: State, h: Handler, q: int)
    requires CallersKnown(s) && !HasHandler(s.handlers, h.id)
    ensures Calls(s.begins, q, h.id) == 0
  {
    forall i | 0 <= i < |s.begins| ensures s.begins[i].handlerId != h.id {
      assert HasHandler(s.handlers, s.begins[i].handlerId);
    }
    NoCalls(s.begins, q, h.id);
  }

  /** The handler loop goes on with a message that was handed to exactly the handlers before `pos` that take it. */
  lemma DispatchCalls(s: State, p: nat, pos: nat)
    requires Dispatching(s, p, pos) && FatesOk(s) && CallersKnown(s)
    requires Called(s.begins, s.handlers, s.msgs[p], pos)
    ensures CallsOk(Dispatch(s, p, pos))
  {
    if NextHandler(s.handlers, s.msgs[p], pos, s.exit) == |s.handlers| {
      EndCalls(s, p, pos);
    } else {
      BeginCalls(s, p, pos);
    }
  }

  lemma EndCalls(s: State, p: nat, pos: nat)
    requires Dispatching(s, p, pos) && FatesOk(s) && CallersKnown(s)
    requires Called(s.begins, s.handlers, s.msgs[p], pos)
    requires NextHandler(s.handlers, s.msgs[p], pos, s.exit) == |s.handlers|
    ensures CallsOk(Dispatch(s, p, pos))
  {
    var m, t := s.msgs[p], Dispatch(s, p, pos);
    hide Dispatching;
    var h := NextHandler(s.handlers, m, pos, false);
    assert FateOk(t, m.seqNo, Verdict(s.handlers, m, pos)) by {
      if h < |s.handlers| {
        assert SomeTakes(s.handlers, m, pos, |s.handlers|);
      }
    }
    hide Called, SomeTakes, NextHandler, Verdict;
  }

  lemma BeginCalls(s: State, p: nat, pos: nat)
    requires Dispatching(s, p, pos) && FatesOk(s) && CallersKnown(s)
    requires Called(s.begins, s.handlers, s.msgs[p], pos)
    requires NextHandler(s.handlers, s.msgs[p], pos, s.exit) < |s.handlers|
    ensures CallsOk(Dispatch(s, p, pos))
  {
    var m, t := s.msgs[p], Dispatch(s, p, pos);
    var h := NextHandler(s.handlers, m, pos, s.exit);
    assert m in s.msgs && m.seqNo in SeqNos(s.msgs) && m.seqNo !in s.fates;
    assert t.begins[..|s.begins|] == s.begins;
    assert forall q, id :: Calls(t.begins, q, id)
                           == Calls(s.begins, q, id) + if q == m.seqNo && id == s.handlers[h].id then 1 else 0;
    assert Called(t.begins, t.handlers, m, h + 1);
    hide Calls, NextHandler, StartedOk, PicksOk, SomeTakes, AsCurrent;
    CurrentCalled(s, t, p, h);
    CallerKnown(s, t, h);
    OthersCalled(s, t, m.seqNo);
  }

  /** A call with one message does not change what the others' fates say. */
  lemma OthersCalled(s: State, t: State, q: int)
    requires FatesOk(s) && q !in s.fates && t.fates == s.fates && t.handlers == s.handlers
    requires forall r, id :: r != q ==> Calls(t.begins, r, id) == Calls(s.begins, r, id)
    ensures FatesOk(t)
  {
    hide Calls, SomeTakes;
    forall r | r in t.fates ensures FateOk(t, r, t.fates[r]) {
      assert FateOk(s, r, s.fates[r]);
    }
  }

  lemma CallerKnown(s: State, t: State, h: nat)
    requires CallersKnown(s) && t.handlers == s.handlers && h < |s.handlers| && |t.begins| == |s.begins| + 1
    requires t.begins[..|s.begins|] == s.begins && t.begins[|s.begins|].handlerId == s.handlers[h].id
    ensures CallersKnown(t)
  {
    forall i | 0 <= i < |t.begins| ensures HasHandler(t.handlers, t.begins[i].handlerId) {
      assert i < |s.begins| ==> t.begins[i] == s.begins[i];
      assert i == |s.begins| ==> t.begins[i].handlerId == t.handlers[h].id;
    }
  }

  lemma CurrentCalled(s: State, t: State, p: nat, h: nat)
    requires p < |s.msgs| && Sorted(s.msgs, s.msgSeq) && Called(t.begins, t.handlers, s.msgs[p], h + 1)
    requires t.msgs == s.msgs[p := s.msgs[p].(isHandling := true)] && t.thread == InHandler(s.msgs[p].seqNo, h)
    ensures CurrentOk(t)
  {
    forall m | m in t.msgs && IsCurrent(t, m.seqNo) ensures Called(t.begins, t.handlers, m, h + 1) {
      var i :| 0 <= i < |t.msgs| && t.msgs[i] == m;
      assert i == p;
    }
  }

  lemma LookCalls(s: State, times: seq<int>)
    requires Inv(s) && CallsOk(s)
    ensures CallsOk(Step(s, Look(times)))
  {
    hide Inv, Called, Dispatching, FatesOk, CallersKnown, CurrentOk, Dispatch, FirstDue, Picking;
    var p := FirstDue(s.msgs, times);
    if s.thread == Armed && p < |s.msgs| {
      hide Step;
      LookReady(s, p, times);
      DispatchCalls(Picking(s, p, times), p, 0);
    } else if s.thread == Armed {
      IdleCalls(s);
    }
  }

  lemma IdleCalls(s: State)
    requires CallsOk(s) && s.thread == Armed
    ensures CallsOk(s.(thread := Idle))
  {
    CallsKept(s, s.(thread := Idle));
  }

  /** Taking up a message is a dispatch to all handlers. */
  lemma LookReady(s: State, p: nat, times: seq<int>)
    requires Inv(s) && CallsOk(s) && s.thread == Armed && p == FirstDue(s.msgs, times) < |s.msgs|
    ensures var t := Picking(s, p, times);
            && |t.msgs| == |s.msgs| && Dispatching(t, p, 0) && FatesOk(t) && CallersKnown(t)
            && Called(t.begins, t.handlers, t.msgs[p], 0) && Step(s, Look(times)) == Dispatch(t, p, 0)
  {
    hide Inv, Called, Dispatching, FatesOk, CallersKnown, Dispatch, FirstDue, Step;
    LookStarts(s, p, times);
    NotTakenYet(s, p);
    NotCalled(Picking(s, p, times), s.msgs[p]);
    PickingCalls(s, p, times);
  }

  /** Noting a message as taken up changes no call. */
  lemma PickingCalls(s: State, p: nat, times: seq<int>)
    requires CallsOk(s) && s.thread == Armed && p == FirstDue(s.msgs, times) < |s.msgs|
    ensures var t := Picking(s, p, times);
            FatesOk(t) && CallersKnown(t) && Step(s, Look(times)) == Dispatch(t, p, 0)
  {
    LookDispatches(s, p, times);
    hide Dispatch, FirstDue, SomeTakes, Called;
  }

  /** A message that waits has been handed to nobody. */
  lemma NotTakenYet(s: State, p: nat)
    requires Inv(s) && p < |s.msgs| && !IsCurrent(s, s.msgs[p].seqNo)
    ensures !Begun(s, s.msgs[p].seqNo)
  {
    assert s.msgs[p] in s.msgs && s.msgs[p].seqNo in SeqNos(s.msgs);
    forall i | 0 <= i < |s.begins| ensures s.begins[i].seqNo != s.msgs[p].seqNo {
      assert Taken(s, s.begins[i].seqNo);
    }
  }

  /** So far exactly the handlers up to the one that runs had the message that take it. */
  lemma CurrentCalls(s: State, p: nat)
    requires CallsOk(s) && s.thread.InHandler? && p < |s.msgs| && s.msgs[p].seqNo == s.thread.seqNo
    ensures var m := s.msgs[p].(isHandling := false);
            Called(s.begins, s.handlers, m, s.thread.pos + 1)
  {
    hide FatesOk, CallersKnown;
    assert s.msgs[p] in s.msgs && IsCurrent(s, s.msgs[p].seqNo);
    assert forall h :: Takes(h, s.msgs[p]) <==> Takes(h, s.msgs[p].(isHandling := false));
  }

  lemma ReturnCalls(s: State)
    requires Inv(s) && CallsOk(s)
    ensures CallsOk(Step(s, Return))
  {
    hide Inv, Called, Dispatching, FatesOk, CallersKnown, CurrentOk, Dispatch, Position;
    if s.thread.InHandler? {
      hide Step;
      ReturnReady(s);
      var p := Position(s.msgs, s.thread.seqNo);
      DispatchCalls(s.(msgs := s.msgs[p := s.msgs[p].(isHandling := false)]), p, s.thread.pos + 1);
    }
  }

  /** The handler's return is a dispatch to those behind it. */
  lemma ReturnReady(s: State)
    requires Inv(s) && CallsOk(s) && s.thread.InHandler?
    ensures var p := Position(s.msgs, s.thread.seqNo);
            && p < |s.msgs|
            && var t := s.(msgs := s.msgs[p := s.msgs[p].(isHandling := false)]);
            && Dispatching(t, p, s.thread.pos + 1) && FatesOk(t) && CallersKnown(t)
            && Called(t.begins, t.handlers, t.msgs[p], s.thread.pos + 1)
            && Step(s, Return) == Dispatch(t, p, s.thread.pos + 1)
  {
    hide Dispatch;
    CurrentIsThere(s);
    var p := Position(s.msgs, s.thread.seqNo);
    ReturnGoesOn(s, p);
    CurrentCalls(s, p);
    hide Inv, Called, SomeTakes, Dispatching, Position;
  }

  lemma CancelCalls(s: State, rest: seq<Msg>)
    requires Inv(s) && CallsOk(s) && IsRest(s.msgs, rest)
    ensures CallsOk(Cancel(s, rest))
  {
    hide FatesOk, CallersKnown, CurrentOk, PicksOk, BeginsOk;
    assert forall q :: q in s.fates ==> q !in SeqNos(s.msgs);
    CallsKept(s, Cancel(s, rest));
  }

  lemma SendCalls(s: State, m: Msg)
    requires Inv(s) && CallsOk(s)
    ensures CallsOk(Step(s, Send(m)))
  {
    hide FatesOk, CallersKnown, CurrentOk, PicksOk, BeginsOk;
    var t := Step(s, Send(m));
    assert s.thread.InHandler? ==> s.thread.seqNo < s.msgSeq;
    forall n | n in t.msgs && IsCurrent(t, n.seqNo) ensures n in s.msgs {
      assert t != s ==> n in s.msgs || n.seqNo == s.msgSeq;
    }
    CallsKept(s, t);
  }

  lemma StepCalls(s: State, op: Op)
    requires Inv(s) && CallsOk(s)
    ensures CallsOk(Step(s, op))
  {
    hide CallsOk, Inv, Dispatch;
    match op
    case Send(m) => SendCalls(s, m);
    case AddHandler(h) => if !HasHandler(s.handlers, h.id) { ThreadInRange(s); AddHandlerCalls(s, h); }
    case CancelSeq(q) => if q <= s.msgSeq { DropSeqRest(s.msgs, q); CancelCalls(s, DropSeq(s.msgs, q)); }
    case CancelAlike(id, h) => DropAlikeRest(s.msgs, id, h); CancelCalls(s, DropAlike(s.msgs, id, h));
    case CancelFor(h) => DropForRest(s.msgs, h); CancelCalls(s, DropFor(s.msgs, h));
    case CancelFirst(id, h) => DropFirstRest(s.msgs, id, h); CancelCalls(s, DropFirst(s.msgs, id, h));
    case SetExit => CallsKept(s, s.(exit := true));
    case Check => if s.thread == Idle { CallsKept(s, s.(thread := if s.exit then Gone else Armed)); }
    case Look(times) => LookCalls(s, times);
    case Return => ReturnCalls(s);
  }

  lemma {:induction false} AlwaysCalls(ops: seq<Op>)
    ensures CallsOk(Run(ops))
  {
    hide CallsOk, Step, Inv;
    if ops == [] {
      NothingCalled();
    } else {
      AlwaysCalls(ops[..|ops| - 1]);
      Always(ops[..|ops| - 1]);
      StepCalls(Run(ops[..|ops| - 1]), ops[|ops| - 1]);
    }
  }

  lemma NothingCalled()
    ensures CallsOk(Run([]))
  {
  }

  // ---------- What that means, in every run ----------

  /** With a finished message every handler that takes it was called exactly once, and no other; handlers added later
      are not called with it. */
  lemma FinishedMeans(ops: seq<Op>, q: int, i: nat)
    requires q in Run(ops).fates && Run(ops).fates[q].Finished? && i < |Run(ops).handlers|
    ensures var s := Run(ops);
            var f := s.fates[q];
            f.msg.seqNo == q && f.upTo <= |s.handlers|
            && Calls(s.begins, q, s.handlers[i].id) == if i < f.upTo && Takes(s.handlers[i], f.msg) then 1 else 0
  {
    AlwaysCalls(ops);
    assert FateOk(Run(ops), q, Run(ops).fates[q]);
  }

  /** With a dropped message the handlers up to some place were called as for a finished one. Behind it at least one
      takes the message, and none was called: the later handlers of a broadcast, or the only handler of any message. */
  lemma DroppedMeans(ops: seq<Op>, q: int, i: nat)
    requires q in Run(ops).fates && Run(ops).fates[q].Dropped? && i < |Run(ops).handlers|
    ensures var s := Run(ops);
            var f := s.fates[q];
            f.msg.seqNo == q && f.called <= f.upTo <= |s.handlers| && SomeTakes(s.handlers, f.msg, f.called, f.upTo)
            && Calls(s.begins, q, s.handlers[i].id) == if i < f.called && Takes(s.handlers[i], f.msg) then 1 else 0
  {
    AlwaysCalls(ops);
    assert FateOk(Run(ops), q, Run(ops).fates[q]);
  }

  // ---------- The exit flag ----------

  /** A message that is taken up is handed to a handler exactly when the exit flag is not set at that moment. */
  lemma TakenUp(s: State, times: seq<int>)
    requires Inv(s) && s.thread == Armed && FirstDue(s.msgs, times) < |s.msgs|
    ensures var q := s.msgs[FirstDue(s.msgs, times)].seqNo;
            var t := Step(s, Look(times));
            && (Begun(t, q) <==> !s.exit)
            && (s.exit ==> q in t.fates && t.fates[q].Dropped? && t.fates[q].called == 0)
  {
    hide Inv, FirstDue, Dispatch, Step, NextHandler;
    var p := FirstDue(s.msgs, times);
    NotTakenYet(s, p);
    SomeoneTakes(s, p);
    LookDispatches(s, p, times);
    FirstDispatch(Picking(s, p, times), p);
  }

  lemma LookDispatches(s: State, p: nat, times: seq<int>)
    requires s.thread == Armed && p == FirstDue(s.msgs, times) < |s.msgs|
    ensures Step(s, Look(times)) == Dispatch(Picking(s, p, times), p, 0)
  {
    hide Dispatch, FirstDue;
  }

  /** The first dispatch of a message that some handler takes. */
  lemma FirstDispatch(s: State, p: nat)
    requires p < |s.msgs| && !Begun(s, s.msgs[p].seqNo)
    requires NextHandler(s.handlers, s.msgs[p], 0, false) < |s.handlers|
    ensures var q := s.msgs[p].seqNo;
            var t := Dispatch(s, p, 0);
            && (Begun(t, q) <==> !s.exit)
            && (s.exit ==> q in t.fates && t.fates[q].Dropped? && t.fates[q].called == 0)
  {
    var t := Dispatch(s, p, 0);
    if s.exit {
      assert t.begins == s.begins;
    } else {
      assert t.begins[|s.begins|].seqNo == s.msgs[p].seqNo;
    }
  }

  lemma SomeoneTakes(s: State, p: nat)
    requires Inv(s) && p < |s.msgs|
    ensures NextHandler(s.handlers, s.msgs[p], 0, false) < |s.handlers|
  {
    assert s.msgs[p] in s.msgs;
    assert HasHandler(s.handlers, s.msgs[p].handlerId);
    var i :| 0 <= i < |s.handlers| && s.handlers[i].id == s.msgs[p].handlerId;
    assert Takes(s.handlers[i], s.msgs[p]);
  }

  /** The `k`-th step took the message up and found the exit flag set. */
  ghost predicate TakenInExit(ops: seq<Op>, q: int, k: nat) {
    k < |ops| && LookTakes(Run(ops[..k]), ops[k], q) && Run(ops[..k]).exit
  }

  ghost predicate LookTakes(s: State, op: Op, q: int) {
    && op.Look? && s.thread == Armed && FirstDue(s.msgs, op.times) < |s.msgs|
    && s.msgs[FirstDue(s.msgs, op.times)].seqNo == q
  }

  /** The message is gone, was not cancelled, and no handler was ever called with it. */
  ghost predicate Unhandled(s: State, q: int) {
    q in s.fates && s.fates[q] != Cancelled && !Begun(s, q)
  }

  /** An issued message that is gone was neither handled nor cancelled if and only if the look that took it up found the
      exit flag set. */
  lemma {:induction false} UnhandledExactly(ops: seq<Op>, q: int)
    ensures Unhandled(Run(ops), q) <==> exists k :: TakenInExit(ops, q, k)
  {
    hide Inv, Step, Unhandled, LookTakes;
    if ops == [] {
      assert !Unhandled(Run(ops), q) by { NothingUnhandled(q); }
    } else {
      var before, op := ops[..|ops| - 1], ops[|ops| - 1];
      var s := Run(before);
      Always(before);
      UnhandledExactly(before, q);
      UnhandledStep(s, op, q);
      forall k: nat | k < |before| ensures TakenInExit(before, q, k) <==> TakenInExit(ops, q, k) {
        assert ops[..k] == before[..k] && ops[k] == before[k];
      }
      assert TakenInExit(ops, q, |before|) <==> LookTakes(s, op, q) && s.exit;
    }
  }

  /** When a wait for an issued number ends, no handler was called with its message if and only if it was cancelled, or
      the look that took it up found the exit flag set. */
  lemma WaitedForExactly(ops: seq<Op>, q: int)
    requires 0 <= q < Run(ops).msgSeq && q !in SeqNos(Run(ops).msgs)
    ensures q in Run(ops).fates
    ensures !Begun(Run(ops), q) <==> Run(ops).fates[q] == Cancelled || exists k :: TakenInExit(ops, q, k)
  {
    hide Step, SeqNos;
    WaitedFor(ops, q);
    UnhandledExactly(ops, q);
  }

  lemma NothingUnhandled(q: int)
    ensures !Unhandled(Run([]), q)
  {
  }

  /** A step leaves a message unhandled exactly when it was so before or the step takes it up with the flag set. */
  lemma UnhandledStep(s: State, op: Op, q: int)
    requires Inv(s)
    ensures Unhandled(Step(s, op), q) <==> Unhandled(s, q) || (LookTakes(s, op, q) && s.exit)
  {
    hide Inv, Step;
    if q in s.fates {
      FateStays(s, op, q);
      NoLateCall(s, op, q);
      GoneIsNotTaken(s, op, q);
    } else if LookTakes(s, op, q) {
      TakenUp(s, op.times);
    } else {
      GoneOtherwise(s, op, q);
    }
  }

  /** Nobody is called with a message that is gone. */
  lemma NoLateCall(s: State, op: Op, q: int)
    requires Inv(s) && q in s.fates
    ensures Begun(Step(s, op), q) <==> Begun(s, q)
  {
    hide Inv, Step;
    var t := Step(s, op);
    BeginsGrow(s, op);
    FateStays(s, op, q);
    StepKeeps(s, op);
    if |t.begins| > |s.begins| {
      NewBegin(s, op);
      var m :| m in t.msgs && m.seqNo == t.begins[|s.begins|].seqNo;
      InListIsNotGone(t, m);
    }
    assert forall i :: 0 <= i < |s.begins| ==> t.begins[i] == s.begins[i];
  }

  lemma InListIsNotGone(t: State, m: Msg)
    requires Inv(t) && m in t.msgs
    ensures m.seqNo !in t.fates
  {
    assert m.seqNo in SeqNos(t.msgs);
  }

  lemma GoneIsNotTaken(s: State, op: Op, q: int)
    requires Inv(s) && q in s.fates
    ensures !LookTakes(s, op, q)
  {
    if op.Look? && FirstDue(s.msgs, op.times) < |s.msgs| {
      InListIsNotGone(s, s.msgs[FirstDue(s.msgs, op.times)]);
    }
  }

  /** A message that goes otherwise than by being taken up was cancelled, or a handler had been called with it. */
  lemma GoneOtherwise(s: State, op: Op, q: int)
    requires Inv(s) && q !in s.fates && !LookTakes(s, op, q)
    ensures !Unhandled(Step(s, op), q)
  {
    hide PicksOk, HandlersOk, Sorted, SeqNos, NextHandler, Verdict;
    if op.Return? && s.thread.InHandler? {
      CurrentIsThere(s);
      var t := Step(s, op);
      assert s.begins <= t.begins by { BeginsGrow(s, op); }
      if q == s.thread.seqNo {
        var i :| 0 <= i < |s.begins| && s.begins[i].seqNo == q;
        assert t.begins[i].seqNo == q;
      }
    }
  }

  /** Once the flag is set no handler is called any more. */
  lemma {:induction false} NoCallAfterExit(ops: seq<Op>, more: seq<Op>)
    requires Run(ops).exit
    ensures Run(ops + more).exit && Run(ops + more).begins == Run(ops).begins
  {
    hide Step;
    if more == [] {
      assert ops + more == ops;
    } else {
      var most := more[..|more| - 1];
      NoCallAfterExit(ops, most);
      assert ops + more == (ops + most) + [more[|more| - 1]];
      OneMore(ops + most, more[|more| - 1]);
      QuietStep(Run(ops + most), more[|more| - 1]);
    }
  }

  lemma QuietStep(s: State, op: Op)
    requires s.exit
    ensures Step(s, op).exit && Step(s, op).begins == s.begins
  {
  }

  /** At most one message is ever dropped, and then the queue thread does nothing more. */
  ghost predicate DroppedOk(s: State) {
    forall q :: q in s.fates && s.fates[q].Dropped? ==>
      && s.exit && (s.thread == Idle || s.thread == Gone)
      && forall r :: r in s.fates && s.fates[r].Dropped? ==> r == q
  }

  lemma {:induction false} OneDropped(ops: seq<Op>)
    ensures DroppedOk(Run(ops))
  {
    if ops != [] {
      OneDropped(ops[..|ops| - 1]);
      DroppedStep(Run(ops[..|ops| - 1]), ops[|ops| - 1]);
    }
  }

  lemma DroppedStep(s: State, op: Op)
    requires DroppedOk(s)
    ensures DroppedOk(Step(s, op))
  {
    hide Without, Position, FirstDue, SeqNos, DropSeq, DropAlike, DropFor, DropFirst;
    var t := Step(s, op);
    assert forall q :: q in t.fates && t.fates[q].Dropped? && q !in s.fates ==> s.exit;
  }

  /** A queue that is told to exit between a message's being sent and its being taken up drops it: its waiters wake up
      although no handler was called with it. */
  lemma DroppedRun()
    ensures var m := Msg(-1, 7, 1, Immediately, 0, false, false);
            var s := Run([AddHandler(Handler(1, false)), Send(m), Check, SetExit, Look([])]);
            && 0 < s.msgSeq && 0 !in SeqNos(s.msgs) && 0 in s.fates && s.fates[0].Dropped? && !Begun(s, 0)
  {
    var m := Msg(-1, 7, 1, Immediately, 0, false, false);
    var ops := [AddHandler(Handler(1, false)), Send(m), Check, SetExit, Look([])];
    var s1 := Initial.(handlers := [Handler(1, false)]);
    var s2 := s1.(msgs := [m.(seqNo := 0)], msgSeq := 1);
    var s4 := s2.(thread := Armed, exit := true);
    assert ops == [ops[0]] + [ops[1]] + [ops[2]] + [ops[3]] + [ops[4]];
    assert Step(Initial, ops[0]) == s1 by { assert !HasHandler([], 1); }
    assert Step(s1, ops[1]) == s2 by { assert s1.handlers[0].id == m.handlerId; }
    assert Step(Step(s2, ops[2]), ops[3]) == s4;
    OneMore([], ops[0]);
    OneMore([ops[0]], ops[1]);
    OneMore([ops[0]] + [ops[1]], ops[2]);
    OneMore([ops[0]] + [ops[1]] + [ops[2]], ops[3]);
    OneMore([ops[0]] + [ops[1]] + [ops[2]] + [ops[3]], ops[4]);
    assert [] + [ops[0]] == [ops[0]];
    assert FirstDue(s4.msgs, []) == 0;
    assert Takes(s4.handlers[0], s4.msgs[0]);
  }

  lemma OneMore(ops: seq<Op>, op: Op)
    ensures Run(ops + [op]) == Step(Run(ops), op)
  {
    assert (ops + [op])[..|ops|] == ops;
  }
}
