/** What the queue keeps of the messages and handlers that it was given, and what every cancel takes away. */
module MsgQueueSent {
  import opened MsgQueueSpec
  import opened MsgQueueCalls

  // ---------- Messages stay as they were sent ----------

  /** A handler with this id was added. */
  ghost predicate Added(ops: seq<Op>, id: int) {
    exists k :: 0 <= k < |ops| && ops[k].AddHandler? && ops[k].handler.id == id
  }

  /** The messages whose sending was accepted: those for which a handler had been added. */
  ghost function SentMsgs(ops: seq<Op>): seq<Msg> {
    if ops == [] then []
    else
      var before, op := ops[..|ops| - 1], ops[|ops| - 1];
      SentMsgs(before) + if op.Send? && Added(before, op.msg.handlerId) then [op.msg] else []
  }

  /** The message is the one sent under its number. */
  ghost predicate AsSent(m: Msg, sent: seq<Msg>) {
    0 <= m.seqNo < |sent| && m.(isHandling := false) == sent[m.seqNo].(seqNo := m.seqNo, isHandling := false)
  }

  ghost predicate FateAsSent(f: Fate, sent: seq<Msg>) {
    f == Cancelled || AsSent(f.msg, sent)
  }

  ghost predicate AllAsSent(s: State, sent: seq<Msg>) {
    && s.msgSeq == |sent|
    && (forall m :: m in s.msgs ==> AsSent(m, sent))
    && (forall q :: q in s.fates ==> FateAsSent(s.fates[q], sent))
    && (forall p :: p in s.picks ==> AsSent(p.msg, sent))
  }

  lemma {:induction false} HandlerWasAdded(ops: seq<Op>, id: int)
    ensures HasHandler(Run(ops).handlers, id) <==> Added(ops, id)
  {
    if ops != [] {
      var before, op := ops[..|ops| - 1], ops[|ops| - 1];
      HandlerWasAdded(before, id);
      HandlersAfter(Run(before), op, id);
      assert forall k :: 0 <= k < |before| ==> before[k] == ops[k];
    }
  }

  lemma HandlersAfter(s: State, op: Op, id: int)
    ensures HasHandler(Step(s, op).handlers, id) <==>
              HasHandler(s.handlers, id) || (op.AddHandler? && op.handler.id == id)
  {
    hide FirstDue, Position, NextHandler, Verdict, DropSeq, DropAlike, DropFor, DropFirst;
    if op.AddHandler? && !HasHandler(s.handlers, op.handler.id) {
      var hs := s.handlers + [op.handler];
      assert hs[|s.handlers|] == op.handler && forall i :: 0 <= i < |s.handlers| ==> hs[i] == s.handlers[i];
    }
  }

  lemma SendAsSent(s: State, sent: seq<Msg>, m: Msg)
    requires AllAsSent(s, sent)
    ensures AllAsSent(Step(s, Send(m)), if HasHandler(s.handlers, m.handlerId) then sent + [m] else sent)
  {
    if HasHandler(s.handlers, m.handlerId) {
      var t := Step(s, Send(m));
      var now := sent + [m];
      assert forall x :: AsSent(x, sent) ==> AsSent(x, now);
      forall x | x in t.msgs ensures AsSent(x, now) {
        if x !in s.msgs { assert x == m.(seqNo := s.msgSeq, isHandling := false); }
      }
      assert forall q :: q in t.fates ==> FateAsSent(s.fates[q], sent);
    }
  }

  lemma CancelAsSent(s: State, sent: seq<Msg>, rest: seq<Msg>)
    requires AllAsSent(s, sent) && IsRest(s.msgs, rest)
    ensures AllAsSent(Cancel(s, rest), sent)
  {
    hide AsSent;
    var t := Cancel(s, rest);
    forall q | q in t.fates ensures FateAsSent(t.fates[q], sent) {
      if q in s.fates && t.fates[q] != Cancelled { assert t.fates[q] == s.fates[q]; }
    }
  }

  lemma DispatchAsSent(s: State, sent: seq<Msg>, p: nat, pos: nat)
    requires AllAsSent(s, sent) && p < |s.msgs| && pos <= |s.handlers|
    ensures AllAsSent(Dispatch(s, p, pos), sent)
  {
    hide NextHandler;
    var t := Dispatch(s, p, pos);
    var m := s.msgs[p];
    assert m in s.msgs && AsSent(m, sent);
    forall x | x in t.msgs ensures AsSent(x, sent) {
      if x !in s.msgs { assert x == m.(isHandling := true); }
    }
    forall q | q in t.fates ensures FateAsSent(t.fates[q], sent) {
      if q != m.seqNo { assert FateAsSent(s.fates[q], sent); }
    }
  }

  lemma LookAsSent(s: State, sent: seq<Msg>, times: seq<int>)
    requires AllAsSent(s, sent)
    ensures AllAsSent(Step(s, Look(times)), sent)
  {
    hide Dispatch, FirstDue, AsSent;
    var p := FirstDue(s.msgs, times);
    if s.thread == Armed && p < |s.msgs| {
      assert s.msgs[p] in s.msgs;
      DispatchAsSent(Picking(s, p, times), sent, p, 0);
    }
  }

  lemma ReturnAsSent(s: State, sent: seq<Msg>)
    requires AllAsSent(s, sent)
    ensures AllAsSent(Step(s, Return), sent)
  {
    hide Dispatch, Position, FateAsSent;
    if s.thread.InHandler? {
      var p := Position(s.msgs, s.thread.seqNo);
      if p < |s.msgs| && s.thread.pos < |s.handlers| {
        var t := s.(msgs := s.msgs[p := s.msgs[p].(isHandling := false)]);
        assert s.msgs[p] in s.msgs && AsSent(s.msgs[p], sent);
        assert forall x :: x in t.msgs ==> x in s.msgs || x == s.msgs[p].(isHandling := false);
        hide AsSent;
        DispatchAsSent(t, sent, p, s.thread.pos + 1);
      }
    }
  }

  /** In every run the messages waiting, taken up, finished or dropped are those that were sent under their numbers, and
      numbers are given in the order of sending. */
  lemma {:induction false} KeptAsSent(ops: seq<Op>)
    ensures AllAsSent(Run(ops), SentMsgs(ops))
  {
    hide AllAsSent, Step, Added;
    if ops != [] {
      var before, op := ops[..|ops| - 1], ops[|ops| - 1];
      KeptAsSent(before);
      assert SentMsgs(before) + [] == SentMsgs(before);
      if op.Send? {
        assert op == Send(op.msg);
        HandlerWasAdded(before, op.msg.handlerId);
        SendAsSent(Run(before), SentMsgs(before), op.msg);
      } else {
        OtherAsSent(Run(before), SentMsgs(before), op);
      }
    } else {
      NoneSent();
    }
  }

  lemma NoneSent()
    ensures AllAsSent(Initial, [])
  {
  }

  lemma OtherAsSent(s: State, sent: seq<Msg>, op: Op)
    requires AllAsSent(s, sent) && !op.Send?
    ensures AllAsSent(Step(s, op), sent)
  {
    hide FirstDue, Position, Dispatch, Cancel, DropSeq, DropAlike, DropFor, DropFirst, IsRest;
    match op
    case CancelSeq(q) =>
      DropSeqRest(s.msgs, q);
      CancelAsSent(s, sent, DropSeq(s.msgs, q));
    case CancelAlike(id, h) =>
      DropAlikeRest(s.msgs, id, h);
      CancelAsSent(s, sent, DropAlike(s.msgs, id, h));
    case CancelFor(h) =>
      DropForRest(s.msgs, h);
      CancelAsSent(s, sent, DropFor(s.msgs, h));
    case CancelFirst(id, h) =>
      DropFirstRest(s.msgs, id, h);
      CancelAsSent(s, sent, DropFirst(s.msgs, id, h));
    case Look(times) => LookAsSent(s, sent, times);
    case Return => ReturnAsSent(s, sent);
    case _ =>
  }

  // ---------- What a cancel takes away ----------

  /** What is left after a cancel, and that only what is gone is noted as cancelled. */
  ghost predicate Cancels(s: State, t: State) {
    && t == s.(msgs := t.msgs, fates := t.fates)
    && (forall m :: m in s.msgs && m !in t.msgs ==> m.seqNo in t.fates && t.fates[m.seqNo] == Cancelled)
    && (forall q :: q in s.fates ==> q in t.fates && t.fates[q] == s.fates[q])
  }

  lemma CancelNotes(s: State, rest: seq<Msg>)
    requires Inv(s) && IsRest(s.msgs, rest)
    ensures Cancels(s, Cancel(s, rest))
  {
    hide PicksOk, BeginsOk, HandlersOk, InFlight;
    forall m | m in s.msgs && m !in rest ensures m.seqNo in SeqNos(s.msgs) - SeqNos(rest) {
      if m.seqNo in SeqNos(rest) {
        SameNumber(s.msgs, s.msgSeq, m, rest);
      }
    }
  }

  lemma SameNumber(msgs: seq<Msg>, bound: int, m: Msg, rest: seq<Msg>)
    requires Sorted(msgs, bound) && m in msgs && m.seqNo in SeqNos(rest) && forall x :: x in rest ==> x in msgs
    ensures m in rest
  {
    var x :| x in rest && x.seqNo == m.seqNo;
    assert x in msgs;
    var i :| 0 <= i < |msgs| && msgs[i] == m;
    var j :| 0 <= j < |msgs| && msgs[j] == x;
    assert i == j;
  }

  lemma StepIsCancel(s: State, id: int, handlerId: int)
    ensures Step(s, CancelFor(handlerId)) == Cancel(s, DropFor(s.msgs, handlerId))
    ensures Step(s, CancelAlike(id, handlerId)) == Cancel(s, DropAlike(s.msgs, id, handlerId))
    ensures Step(s, CancelFirst(id, handlerId)) == Cancel(s, DropFirst(s.msgs, id, handlerId))
    ensures Cancel(s, DropFor(s.msgs, handlerId)).msgs == DropFor(s.msgs, handlerId)
    ensures Cancel(s, DropAlike(s.msgs, id, handlerId)).msgs == DropAlike(s.msgs, id, handlerId)
    ensures Cancel(s, DropFirst(s.msgs, id, handlerId)).msgs == DropFirst(s.msgs, id, handlerId)
  {
    hide DropFor, DropAlike, DropFirst;
  }

  /** In every run, cancelling a number cancels that message unless it is being handled, and no other. */
  lemma CancelsSeq(ops: seq<Op>, q: int, m: Msg)
    ensures var s := Run(ops);
            var t := Step(s, CancelSeq(q));
            Cancels(s, t) && (m in t.msgs <==> m in s.msgs && (m.seqNo != q || m.isHandling))
  {
    Always(ops);
    var s := Run(ops);
    DropSeqRest(s.msgs, q);
    CancelNotes(s, DropSeq(s.msgs, q));
    assert Sorted(s.msgs, s.msgSeq);
    CancelSeqExact(s.msgs, q, m);
  }

  /** Cancelling a handler's messages cancels those not being handled, and no others. */
  lemma CancelsFor(ops: seq<Op>, handlerId: int, m: Msg)
    ensures var s := Run(ops);
            var t := Step(s, CancelFor(handlerId));
            Cancels(s, t) && (m in t.msgs <==> m in s.msgs && (m.handlerId != handlerId || m.isHandling))
  {
    hide Inv, Cancels, IsRest, DropFor, FirstDue, Position, Dispatch, Cancel, Run;
    Always(ops);
    var s := Run(ops);
    DropForRest(s.msgs, handlerId);
    StepIsCancel(s, 0, handlerId);
    CancelNotes(s, DropFor(s.msgs, handlerId));
    CancelForExact(s.msgs, handlerId, m);
  }

  /** Cancelling alike messages cancels those in front of the first one being handled, and no others. */
  lemma CancelsAlike(ops: seq<Op>, id: int, handlerId: int)
    ensures var s := Run(ops);
            var t := Step(s, CancelAlike(id, handlerId));
            && Cancels(s, t)
            && exists k: nat :: IsStop(s.msgs, id, handlerId, k) && IsCut(s.msgs, t.msgs, id, handlerId, k)
  {
    hide Inv, Cancels, IsRest, DropAlike, IsStop, IsCut, FirstDue, Position, Dispatch, Cancel, Run;
    Always(ops);
    var s := Run(ops);
    DropAlikeRest(s.msgs, id, handlerId);
    StepIsCancel(s, id, handlerId);
    CancelNotes(s, DropAlike(s.msgs, id, handlerId));
    CancelAlikeExact(s.msgs, id, handlerId);
  }

  /** Cancelling one alike message cancels the first of them, unless it is being handled, and no other. */
  lemma CancelsFirst(ops: seq<Op>, id: int, handlerId: int)
    ensures var s := Run(ops);
            var t := Step(s, CancelFirst(id, handlerId));
            var p := FirstAlike(s.msgs, id, handlerId);
            Cancels(s, t) && t.msgs == if p < |s.msgs| && !s.msgs[p].isHandling then Without(s.msgs, p) else s.msgs
  {
    hide Inv, Cancels, IsRest, DropFirst, FirstAlike, FirstDue, Position, Dispatch, Cancel, Run;
    Always(ops);
    var s := Run(ops);
    DropFirstRest(s.msgs, id, handlerId);
    StepIsCancel(s, id, handlerId);
    CancelNotes(s, DropFirst(s.msgs, id, handlerId));
    CancelFirstExact(s.msgs, id, handlerId);
  }

  // ---------- Whom a message reaches ----------

  /** A finished message was handed, exactly once, to the handler it was sent to, and, if it was a broadcast, to every
      handler for broadcasts, of those there were; and to no other. */
  lemma Reaches(ops: seq<Op>, q: int, i: nat)
    requires q in Run(ops).fates && Run(ops).fates[q].Finished? && i < |Run(ops).handlers|
    ensures var s := Run(ops);
            var h, sent := s.handlers[i], SentMsgs(ops);
            && 0 <= q < |sent| && s.fates[q].upTo <= |s.handlers|
            && Calls(s.begins, q, h.id) == if i < s.fates[q].upTo
                                              && (h.id == sent[q].handlerId || (h.broadcast && sent[q].broadcast))
                                           then 1 else 0
  {
    FinishedMeans(ops, q, i);
    KeptAsSent(ops);
    assert FateAsSent(Run(ops).fates[q], SentMsgs(ops));
  }
}
