/** The queue object. Each method is one stretch of code under the mutex; it takes the step of the same name. */
module MsgQueues {
  import opened MsgQueueSpec

  // What each cancel does with the first message of the rest.

  lemma SeqFirst(kept: seq<Msg>, rest: seq<Msg>, q: int)
    ensures rest == [] ==> DropSeq(rest, q) == []
    ensures rest != [] && rest[0].seqNo == q && rest[0].isHandling ==> DropSeq(rest, q) == rest
    ensures rest != [] && rest[0].seqNo == q && !rest[0].isHandling ==> DropSeq(rest, q) == DropSeq(rest[1..], q)
    ensures rest != [] && rest[0].seqNo != q ==> kept + DropSeq(rest, q) == kept + [rest[0]] + DropSeq(rest[1..], q)
  {
  }

  lemma AlikeFirst(kept: seq<Msg>, rest: seq<Msg>, id: int, handlerId: int)
    ensures rest == [] ==> DropAlike(rest, id, handlerId) == []
    ensures rest != [] && Alike(rest[0], id, handlerId) && rest[0].isHandling ==> DropAlike(rest, id, handlerId) == rest
    ensures rest != [] && Alike(rest[0], id, handlerId) && !rest[0].isHandling ==>
              DropAlike(rest, id, handlerId) == DropAlike(rest[1..], id, handlerId)
    ensures rest != [] && !Alike(rest[0], id, handlerId) ==>
              kept + DropAlike(rest, id, handlerId) == kept + [rest[0]] + DropAlike(rest[1..], id, handlerId)
  {
  }

  lemma ForFirst(kept: seq<Msg>, rest: seq<Msg>, handlerId: int)
    ensures rest == [] ==> DropFor(rest, handlerId) == []
    ensures rest != [] && rest[0].handlerId == handlerId && !rest[0].isHandling ==>
              DropFor(rest, handlerId) == DropFor(rest[1..], handlerId)
    ensures rest != [] && !(rest[0].handlerId == handlerId && !rest[0].isHandling) ==>
              kept + DropFor(rest, handlerId) == kept + [rest[0]] + DropFor(rest[1..], handlerId)
  {
  }

  lemma FirstOf(kept: seq<Msg>, rest: seq<Msg>, id: int, handlerId: int)
    ensures rest == [] ==> DropFirst(rest, id, handlerId) == []
    ensures rest != [] && Alike(rest[0], id, handlerId) && rest[0].isHandling ==>
              kept + DropFirst(rest, id, handlerId) == kept + rest
    ensures rest != [] && Alike(rest[0], id, handlerId) && !rest[0].isHandling ==>
              kept + DropFirst(rest, id, handlerId) == kept + rest[1..]
    ensures rest != [] && !Alike(rest[0], id, handlerId) ==>
              kept + DropFirst(rest, id, handlerId) == kept + [rest[0]] + DropFirst(rest[1..], id, handlerId)
  {
  }

  class MsgQueue {
    var msgs: seq<Msg>
    var handlers: seq<Handler>
    var msgSeq: nat
    var exit: bool
    var thread: Thread
    ghost var fates: map<int, Fate>
    ghost var picks: seq<Pick>
    ghost var begins: seq<Begin>

    ghost function View(): State
      reads this
    {
      State(msgs, handlers, msgSeq, exit, thread, fates, picks, begins)
    }

    constructor ()
      ensures View() == Initial
    {
      msgs, handlers, msgSeq, exit, thread := [], [], 0, false, Idle;
      fates, picks, begins := map[], [], [];
    }

    method FindHandler(id: int) returns (found: bool)
      ensures found == HasHandler(handlers, id)
    {
      found := false;
      for i := 0 to |handlers|
        invariant found == HasHandler(handlers[..i], id)
      {
        assert forall k :: 0 <= k < i ==> handlers[..i + 1][k] == handlers[..i][k];
        ghost var upTo := handlers[..i + 1];
        assert upTo[i] == handlers[i];
        if handlers[i].id == id {
          found := true;
        }
      }
      assert handlers[..|handlers|] == handlers;
    }

    /** `send_msg`: the number given to the message, or -1 if nothing handles it. */
    method SendMsg(m: Msg) returns (r: int)
      requires !m.isHandling
      modifies this
      ensures View() == Step(old(View()), Send(m))
      ensures r == if HasHandler(old(handlers), m.handlerId) then old(msgSeq) else -1
    {
      var found := FindHandler(m.handlerId);
      if !found { return -1; }
      msgs := msgs + [m.(seqNo := msgSeq)];
      r := msgSeq;
      msgSeq := msgSeq + 1;
    }

    method Subscribe(h: Handler)
      modifies this
      ensures View() == Step(old(View()), AddHandler(h))
    {
      var found := FindHandler(h.id);
      if !found {
        handlers := handlers + [h];
      }
    }

    method CancelMsgSeq(q: int)
      modifies this
      ensures View() == Step(old(View()), CancelSeq(q))
    {
      if q > msgSeq { return; }
      EraseSeq(q);
      fates := Cancel(old(View()), msgs).fates;
    }

    method EraseSeq(q: int)
      modifies this`msgs
      ensures msgs == DropSeq(old(msgs), q)
    {
      hide DropSeq;
      ghost var kept, rest := [], msgs;
      var i := 0;
      while i < |msgs|
        invariant i == |kept| && msgs == kept + rest
        invariant DropSeq(old(msgs), q) == kept + DropSeq(rest, q)
        decreases |rest|
      {
        SeqFirst(kept, rest, q);
        assert msgs[i] == rest[0] && msgs[..i] == kept && msgs[i + 1..] == rest[1..];
        if msgs[i].seqNo == q {
          if msgs[i].isHandling {
            return;
          }
          msgs := msgs[..i] + msgs[i + 1..];
          assert msgs == kept + rest[1..];
        } else {
          kept := kept + [msgs[i]];
          i := i + 1;
        }
        rest := rest[1..];
      }
      SeqFirst(kept, [], q);
      assert rest == [] && kept + [] == kept;
    }

    method CancelMsg(id: int, handlerId: int)
      modifies this
      ensures View() == Step(old(View()), CancelAlike(id, handlerId))
    {
      EraseAlike(id, handlerId);
      fates := Cancel(old(View()), msgs).fates;
    }

    method EraseAlike(id: int, handlerId: int)
      modifies this`msgs
      ensures msgs == DropAlike(old(msgs), id, handlerId)
    {
      hide DropAlike;
      ghost var kept, rest := [], msgs;
      var i := 0;
      while i < |msgs|
        invariant i == |kept| && msgs == kept + rest
        invariant DropAlike(old(msgs), id, handlerId) == kept + DropAlike(rest, id, handlerId)
        decreases |rest|
      {
        AlikeFirst(kept, rest, id, handlerId);
        assert msgs[i] == rest[0] && msgs[..i] == kept && msgs[i + 1..] == rest[1..];
        if id == msgs[i].id && handlerId == msgs[i].handlerId {
          if msgs[i].isHandling {
            return;
          }
          msgs := msgs[..i] + msgs[i + 1..];
          assert msgs == kept + rest[1..];
        } else {
          kept := kept + [msgs[i]];
          i := i + 1;
        }
        rest := rest[1..];
      }
      AlikeFirst(kept, [], id, handlerId);
      assert rest == [] && kept + [] == kept;
    }

    method CancelHandler(handlerId: int)
      modifies this
      ensures View() == Step(old(View()), CancelFor(handlerId))
    {
      EraseFor(handlerId);
      fates := Cancel(old(View()), msgs).fates;
    }

    method EraseFor(handlerId: int)
      modifies this`msgs
      ensures msgs == DropFor(old(msgs), handlerId)
    {
      hide DropFor;
      ghost var kept, rest := [], msgs;
      var i := 0;
      while i < |msgs|
        invariant i == |kept| && msgs == kept + rest
        invariant DropFor(old(msgs), handlerId) == kept + DropFor(rest, handlerId)
        decreases |rest|
      {
        ForFirst(kept, rest, handlerId);
        assert msgs[i] == rest[0] && msgs[..i] == kept && msgs[i + 1..] == rest[1..];
        if handlerId == msgs[i].handlerId && !msgs[i].isHandling {
          msgs := msgs[..i] + msgs[i + 1..];
          assert msgs == kept + rest[1..];
        } else {
          kept := kept + [msgs[i]];
          i := i + 1;
        }
        rest := rest[1..];
      }
      ForFirst(kept, [], handlerId);
      assert rest == [] && kept + [] == kept;
    }

    method CancelOne(id: int, handlerId: int) returns (found: bool)
      modifies this
      ensures View() == Step(old(View()), CancelFirst(id, handlerId))
      ensures found <==> |msgs| < |old(msgs)|
    {
      found := EraseFirst(id, handlerId);
      fates := Cancel(old(View()), msgs).fates;
    }

    method EraseFirst(id: int, handlerId: int) returns (found: bool)
      modifies this`msgs
      ensures msgs == DropFirst(old(msgs), id, handlerId)
      ensures found <==> |msgs| < |old(msgs)|
    {
      hide DropFirst;
      var i := 0;
      found := false;
      while i < |msgs|
        invariant i <= |msgs| && msgs == old(msgs) && !found
        invariant DropFirst(msgs, id, handlerId) == msgs[..i] + DropFirst(msgs[i..], id, handlerId)
      {
        FirstOf(msgs[..i], msgs[i..], id, handlerId);
        ghost var left := msgs[..i] + msgs[i..][1..];
        if id == msgs[i].id && handlerId == msgs[i].handlerId {
          if msgs[i].isHandling {
            assert msgs[..i] + msgs[i..] == msgs;
            return;
          }
          found := true;
          msgs := msgs[..i] + msgs[i + 1..];
          assert msgs == left;
          return;
        }
        assert msgs[..i] + [msgs[i..][0]] == msgs[..i + 1] && msgs[i..][1..] == msgs[i + 1..];
        i := i + 1;
      }
      FirstOf(msgs, msgs[i..], id, handlerId);
      assert msgs[..i] + [] == msgs;
    }

    /** The flag is set before `quit` sends its wake-up message. */
    method RaiseExit()
      modifies this
      ensures View() == Step(old(View()), SetExit)
    {
      exit := true;
    }

    /** One turn of `wait_done_seq_done`: whether it has to go on waiting. */
    method MustWait(q: int) returns (wait: bool)
      ensures wait <==> q in SeqNos(msgs)
    {
      wait := false;
      for i := 0 to |msgs|
        invariant wait <==> exists k :: 0 <= k < i && msgs[k].seqNo == q
      {
        if q == msgs[i].seqNo {
          wait := true;
        }
      }
      assert forall k :: 0 <= k < |msgs| ==> msgs[k] in msgs;
    }

    /** One turn of `wait_all_msg_done`. */
    method MustWaitFor(handlerId: int) returns (wait: bool)
      ensures wait <==> exists m :: m in msgs && m.handlerId == handlerId
    {
      wait := false;
      for i := 0 to |msgs|
        invariant wait <==> exists k :: 0 <= k < i && msgs[k].handlerId == handlerId
      {
        if handlerId == msgs[i].handlerId {
          wait := true;
        }
      }
      assert forall k :: 0 <= k < |msgs| ==> msgs[k] in msgs;
    }

    /** One turn of `wait_msg_done`. */
    method MustWaitForMsg(id: int, handlerId: int) returns (wait: bool)
      ensures wait <==> exists m :: m in msgs && Alike(m, id, handlerId)
    {
      wait := false;
      for i := 0 to |msgs|
        invariant wait <==> exists k :: 0 <= k < i && Alike(msgs[k], id, handlerId)
      {
        if id == msgs[i].id && handlerId == msgs[i].handlerId {
          wait := true;
        }
      }
      assert forall k :: 0 <= k < |msgs| ==> msgs[k] in msgs;
    }

    /** The head of the queue thread's loop; `go` tells whether it goes on. */
    method CheckExit() returns (go: bool)
      requires thread == Idle
      modifies this`thread
      ensures View() == Step(old(View()), Check) && (go <==> !exit)
    {
      go := !exit;
      thread := if exit then Gone else Armed;
    }

    /** The queue thread's search for a message that is due, and the handler loop up to the first call. */
    method TakeNext(times: seq<int>)
      requires thread == Armed
      modifies this
      ensures View() == Step(old(View()), Look(times))
    {
      hide Dispatch, FirstDue;
      var p := Scan(times);
      if p == |msgs| {
        thread := Idle;
        return;
      }
      picks := picks + [Pick(msgs[p], Reading(times, p))];
      HandOn(p, 0);
    }

    method Scan(times: seq<int>) returns (p: nat)
      ensures p == FirstDue(msgs, times)
      ensures forall i :: 0 <= i < p ==> Waits(msgs, times, i)
      ensures p < |msgs| ==> !Waits(msgs, times, p)
    {
      hide Waits, FirstDue;
      FirstDueMeans(msgs, times);
      ghost var left := times;
      assert msgs[0..] == msgs;
      for i := 0 to |msgs|
        invariant left == if i <= |times| then times[i..] else []
        invariant FirstDue(msgs, times) == i + FirstDue(msgs[i..], left)
      {
        NextDue(msgs, times, i);
        left := if i + 1 <= |times| then times[i + 1..] else [];
        if msgs[i].timer.Immediately? {
          return i;
        }
        var now := Reading(times, i);
        var cost := if msgs[i].recordTime > now then 0 else now - msgs[i].recordTime;
        if msgs[i].timer.delay <= cost {
          return i;
        }
      }
      NoneDue(left);
      return |msgs|;
    }

    lemma NextDue(msgs: seq<Msg>, times: seq<int>, i: nat)
      requires i < |msgs|
      ensures var left := if i <= |times| then times[i..] else [];
              FirstDue(msgs[i..], left)
              == if Due(msgs[i], Reading(times, i)) then 0
                 else 1 + FirstDue(msgs[i + 1..], if i + 1 <= |times| then times[i + 1..] else [])
    {
      hide Due;
      var left := if i <= |times| then times[i..] else [];
      assert msgs[i..][1..] == msgs[i + 1..] && Reading(left, 0) == Reading(times, i);
      assert (if left == [] then [] else left[1..]) == if i + 1 <= |times| then times[i + 1..] else [];
    }

    lemma NoneDue(times: seq<int>)
      ensures FirstDue([], times) == 0
    {
    }

    /** The handler has returned; the handler loop goes on behind it. */
    method HandlerReturned()
      requires thread.InHandler? && thread.pos < |handlers|
      requires exists i :: 0 <= i < |msgs| && msgs[i].seqNo == thread.seqNo
      modifies this
      ensures View() == Step(old(View()), Return)
    {
      hide NextHandler, Dispatch;
      var p := 0;
      while msgs[p].seqNo != thread.seqNo
        invariant p < |msgs| && exists i :: p <= i < |msgs| && msgs[i].seqNo == thread.seqNo
        invariant Position(msgs, thread.seqNo) == p + Position(msgs[p..], thread.seqNo)
        decreases |msgs| - p
      {
        assert msgs[p..][1..] == msgs[p + 1..];
        p := p + 1;
      }
      msgs := msgs[p := msgs[p].(isHandling := false)];
      HandOn(p, thread.pos + 1);
    }

    /** The handler loop from position `from` on, up to a call or to its end, where the message is removed. */
    method HandOn(p: nat, from: nat)
      requires p < |msgs| && from <= |handlers|
      modifies this
      ensures View() == Dispatch(old(View()), p, from)
    {
      var h := from;
      while h < |handlers| && !exit
        invariant from <= h <= |handlers| && View() == old(View())
        invariant NextHandler(handlers, msgs[p], from, exit) == NextHandler(handlers, msgs[p], h, exit)
      {
        if msgs[p].handlerId == handlers[h].id || (msgs[p].broadcast && handlers[h].broadcast) {
          begins := begins + [Begin(msgs[p].seqNo, handlers[h].id, msgs[p].broadcast)];
          thread := InHandler(msgs[p].seqNo, h);
          msgs := msgs[p := msgs[p].(isHandling := true)];
          return;
        }
        h := h + 1;
      }
      fates := fates[msgs[p].seqNo := Verdict(handlers, msgs[p], from)];
      msgs := msgs[..p] + msgs[p + 1..];
      thread := Idle;
    }
  }
}
