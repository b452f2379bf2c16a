/** The TCP client's write path over its list of buffers, and the connected state machine's two buffers. */
module TcpClients {
  import opened Bytes
  import opened AutoBuffers
  import opened TcpClientSpec
  import Sockets
  import opened Channels

  /** The buffers are sound and distinct, share no bytes, and hold these texts. */
  ghost predicate Hold(buffers: seq<AutoBuffer>, texts: seq<Text>)
    reads buffers, set i | 0 <= i < |buffers| :: buffers[i].data
  {
    && |texts| == |buffers|
    && (forall i :: 0 <= i < |buffers| ==> buffers[i].Valid() && buffers[i].View() == texts[i])
    && (forall i, j :: 0 <= i < j < |buffers| ==> buffers[i] != buffers[j] && buffers[i].data != buffers[j].data)
  }

  lemma HoldMore(buffers: seq<AutoBuffer>, texts: seq<Text>, b: AutoBuffer)
    requires Hold(buffers, texts) && b.Valid()
    requires forall i :: 0 <= i < |buffers| ==> buffers[i] != b && buffers[i].data != b.data
    ensures Hold(buffers + [b], texts + [b.View()])
  {
  }

  lemma PushIs(s: State, room: nat, fatal: bool, n: nat)
    requires s.phase == Waiting(true) && s.queue != [] && s.queue[0].pos < |s.queue[0].bytes|
    requires n == if room < |s.queue[0].bytes| - s.queue[0].pos then room else |s.queue[0].bytes| - s.queue[0].pos
    ensures var f := s.queue[0];
            Step(s, Writable(room, fatal)) == if n == 0 && fatal then s.(status := IoError, phase := Ended)
              else s.(queue := s.queue[0 := Text(f.bytes, f.pos + n)], sent := s.sent + f.bytes[f.pos..f.pos + n],
                      phase := Looking)
  {
  }

  class TcpClient {
    var status: Status
    var buffers: seq<AutoBuffer>
    var lastId: int
    var writeId: int
    var phase: Phase
    ghost var texts: seq<Text>
    ghost var accepted: seq<seq<byte>>
    ghost var ids: seq<int>
    ghost var sent: seq<byte>
    ghost var wrote: seq<Wrote>
    ghost var drained: seq<nat>

    ghost predicate Valid()
      reads this, buffers, set i | 0 <= i < |buffers| :: buffers[i].data
    {
      Hold(buffers, texts)
    }

    ghost function View(): State
      reads this
    {
      State(status, texts, lastId, writeId, phase, accepted, ids, sent, wrote, drained)
    }

    constructor ()
      ensures Valid() && View() == Initial
    {
      status, buffers, lastId, writeId, phase := Connected, [], 0, 0, Looking;
      texts, accepted, ids, sent, wrote, drained := [], [], [], [], [], [];
    }

    /** `Write`: a copy of the bytes goes to the end of the queue. `sawConnected` is what the writer read before it had
        the lock. */
    method Write(data: seq<byte>, sawConnected: bool) returns (id: int)
      requires Valid()
      modifies this
      ensures Valid() && View() == Step(old(View()), TcpClientSpec.Write(data, sawConnected))
      ensures id == if sawConnected then lastId else -1
    {
      if !sawConnected { return -1; }
      var b := new AutoBuffer(128);
      b.Put(0, data);
      assert b.View() == Text(data, 0);
      id := Enqueue(b);
    }

    /** `WritePostData`: the caller gives the bytes away. */
    method WritePostData(data: array<byte>, sawConnected: bool) returns (id: int)
      requires Valid() && forall i :: 0 <= i < |buffers| ==> buffers[i].data != data
      modifies this
      ensures Valid() && View() == Step(old(View()), TcpClientSpec.Write(data[..], sawConnected))
      ensures id == if sawConnected then lastId else -1
    {
      if !sawConnected { return -1; }
      var b := new AutoBuffer(128);
      b.Attach(data);
      id := Enqueue(b);
    }

    method Enqueue(b: AutoBuffer) returns (id: int)
      requires Valid() && b.Valid() && b.View().pos == 0
      requires forall i :: 0 <= i < |buffers| ==> buffers[i] != b && buffers[i].data != b.data
      modifies this
      ensures Valid() && View() == Step(old(View()), TcpClientSpec.Write(b.View().bytes, true)) && id == lastId
      ensures b.View() == old(b.View()) && buffers == old(buffers) + [b]
    {
      HoldMore(buffers, texts, b);
      hide Hold;
      buffers := buffers + [b];
      lastId := lastId + 1;
      texts, accepted, ids := texts + [b.View()], accepted + [b.View().bytes], ids + [lastId];
      id := lastId;
    }

    method PrepareSelect()
      requires Valid() && phase == Looking
      modifies this`phase
      ensures Valid() && View() == Step(old(View()), Look)
    {
      phase := Waiting(buffers != []);
    }

    /** The socket is writable: sends from the front buffer, or removes it when it has been sent. */
    method OnWritable(room: nat, fatal: bool)
      requires Valid() && phase == Waiting(true) && buffers != []
      modifies this, buffers
      ensures Valid() && View() == Step(old(View()), Writable(room, fatal))
    {
      var front := buffers[0];
      var size := front.length;
      if front.pos < size {
        SendSome(room, fatal);
      } else {
        buffers := buffers[1..];
        texts := texts[1..];
        phase := Removed(size);
      }
    }

    method SendSome(room: nat, fatal: bool)
      requires Valid() && phase == Waiting(true) && buffers != [] && buffers[0].pos < buffers[0].length
      modifies this, buffers[0]
      ensures Valid() && View() == Step(old(View()), Writable(room, fatal))
    {
      FrontText();
      var front := buffers[0];
      var n := if room < front.length - front.pos then room else front.length - front.pos;
      PushIs(View(), room, fatal, n);
      hide Hold, Step, View;
      if n == 0 && fatal {
        Fail();
      } else {
        Advance(n);
      }
    }

    /** What the front buffer holds. */
    lemma FrontText()
      requires Valid() && buffers != []
      ensures |texts| == |buffers| && buffers[0].Valid() && buffers[0].View() == texts[0]
      ensures texts[0].pos == buffers[0].pos && |texts[0].bytes| == buffers[0].length && View().queue == texts
      ensures View().phase == phase
    {
    }

    method Fail()
      requires Valid()
      modifies this`status, this`phase
      ensures Valid() && View() == old(View()).(status := IoError, phase := Ended)
    {
      status, phase := IoError, Ended;
    }

    /** Notes what was sent of the front buffer and moves its position on. */
    method Advance(n: nat)
      requires Valid() && buffers != [] && buffers[0].pos + n <= buffers[0].length
      modifies this`texts, this`sent, this`phase, buffers[0]
      ensures Valid()
      ensures old(texts) != [] && old(texts)[0].pos + n <= |old(texts)[0].bytes|
      ensures var f := old(texts)[0];
              View() == old(View()).(queue := old(texts)[0 := Text(f.bytes, f.pos + n)],
                                     sent := old(sent) + f.bytes[f.pos..f.pos + n], phase := Looking)
    {
      FrontText();
      hide Hold;
      ghost var f := texts[0];
      MoveFront(n);
      sent, phase := sent + f.bytes[f.pos..f.pos + n], Looking;
    }

    method MoveFront(n: nat)
      requires Valid() && buffers != [] && buffers[0].pos + n <= buffers[0].length
      modifies this`texts, buffers[0]
      ensures Valid() && old(texts) != []
      ensures texts == old(texts)[0 := Text(old(texts)[0].bytes, old(texts)[0].pos + n)]
    {
      texts := texts[0 := Text(texts[0].bytes, texts[0].pos + n)];
      if n > 0 {
        buffers[0].Seek(n, Cur);
      }
    }

    /** OnWrote. */
    method ReportWrote()
      requires Valid() && phase.Removed?
      modifies this`writeId, this`wrote, this`phase
      ensures Valid() && View() == Step(old(View()), Report)
    {
      writeId := writeId + 1;
      wrote := wrote + [Wrote(writeId, phase.size)];
      phase := Reported;
    }

    /** With the lock taken again: OnAllWrote, if nothing has been added meanwhile. */
    method ReportDrained() returns (all: bool)
      requires Valid() && phase == Reported
      modifies this`drained, this`phase
      ensures Valid() && View() == Step(old(View()), CheckDrained) && (all <==> buffers == [])
    {
      all := buffers == [];
      if all {
        drained := drained + [|accepted|];
      }
      phase := Looking;
    }
  }

  // ---------- The connected state machine's buffers ----------

  /** `TcpClientFSM` in state EReadWrite. `written` is all that was put into the send buffer. */
  class Streams {
    const sendBuf: AutoBuffer
    const recvBuf: AutoBuffer
    var requestSend: bool
    var ended: bool
    var remoteClose: bool
    ghost var written: seq<byte>
    ghost var sent: seq<byte>
    ghost var received: seq<byte>

    /** What went out and what is still in the send buffer are all that was written; the receive buffer is all that
        came in. */
    ghost predicate Valid()
      reads this, sendBuf, recvBuf, sendBuf.data, recvBuf.data
    {
      && sendBuf != recvBuf && sendBuf.Valid() && recvBuf.Valid() && sendBuf.data != recvBuf.data
      && sent + sendBuf.View().bytes == written
      && recvBuf.View().bytes == received
    }

    ghost function Chan(): Channel
      requires Valid()
      reads this, sendBuf, recvBuf, sendBuf.data, recvBuf.data
    {
      Channel(sendBuf.View().bytes, recvBuf.View().bytes, requestSend, remoteClose, ended)
    }

    constructor ()
      ensures Valid() && written == [] && received == [] && !ended && Chan() == Quiet
    {
      sendBuf := new AutoBuffer(128);
      recvBuf := new AutoBuffer(128);
      requestSend, ended, remoteClose := false, false, false;
      written, sent, received := [], [], [];
    }

    /** The write half of `AfterReadWriteSelect`: the observer's bytes, if it asked to send, and then what there is room
        for goes out and is dropped from the front. It is the machine's step for the send's answer. */
    method SendPart(request: seq<byte>, room: nat, fatal: bool) returns (ghost answer: Sockets.Answer)
      requires Valid() && !ended
      modifies this, sendBuf, sendBuf.data
      ensures Valid() && received == old(received) && (sendBuf.data == old(sendBuf.data) || fresh(sendBuf.data))
      ensures written == old(written) + (if old(requestSend) && old(sendBuf.length) == 0 then request else [])
      ensures sent == written[..if |old(sent)| + room < |written| then |old(sent)| + room else |written|]
      ensures ended <==> sent == old(sent) && fatal
      ensures Chan() == Pushed(Asked(old(Chan()), request), answer)
    {
      hide Asked, Pushed;
      Ask(request);
      answer := Flush(room, fatal);
    }

    method Ask(request: seq<byte>)
      requires Valid() && !ended
      modifies this`requestSend, this`written, sendBuf, sendBuf.data
      ensures Valid() && (sendBuf.data == old(sendBuf.data) || fresh(sendBuf.data))
      ensures written == old(written) + (if old(requestSend) && old(sendBuf.length) == 0 then request else [])
      ensures Chan() == Asked(old(Chan()), request)
    {
      if requestSend && sendBuf.length == 0 {
        requestSend := false;
        sendBuf.Put(sendBuf.length, request);
        written := written + request;
      }
    }

    method Flush(room: nat, fatal: bool) returns (ghost answer: Sockets.Answer)
      requires Valid() && !ended
      modifies this`sent, this`ended, sendBuf, sendBuf.data
      ensures Valid() && (sendBuf.data == old(sendBuf.data) || fresh(sendBuf.data))
      ensures sent == written[..if |old(sent)| + room < |written| then |old(sent)| + room else |written|]
      ensures ended <==> sent == old(sent) && fatal
      ensures Chan() == Pushed(old(Chan()), answer)
    {
      var n := if room < sendBuf.length then room else sendBuf.length;
      ghost var bytes := sendBuf.View().bytes;
      answer := Sockets.Answer(n, [], if fatal then 0 else Sockets.EAGAIN);
      SplitAt(sent, bytes, written, n);
      if n > 0 {
        var left := sendBuf.Move(-n);
        assert sendBuf.View().bytes == bytes[n..];
        sent := sent + bytes[..n];
      } else if fatal {
        ended := true;
      }
    }

    /** Sending the first `n` of the bytes left moves them over. */
    lemma SplitAt(sent: seq<byte>, bytes: seq<byte>, written: seq<byte>, n: nat)
      requires sent + bytes == written && n <= |bytes|
      ensures sent + bytes[..n] == written[..|sent| + n] && (sent + bytes[..n]) + bytes[n..] == written
      ensures |sent + bytes[..n]| == |sent| + n && (n == 0 ==> sent == written[..|sent|])
    {
    }

    method MakeRoom()
      requires Valid()
      modifies recvBuf, recvBuf.data
      ensures Valid() && Chan() == old(Chan()) && recvBuf.capacity - recvBuf.length >= 8 * 1024
      ensures recvBuf.pos == old(recvBuf.pos) && (recvBuf.data == old(recvBuf.data) || fresh(recvBuf.data))
    {
      if 8 * 1024 > recvBuf.capacity - recvBuf.length {
        recvBuf.AddCapacity(16 * 1024 - (recvBuf.capacity - recvBuf.length));
      }
    }

    /** Puts what came in behind what there is. */
    method Keep(came: seq<byte>)
      requires Valid() && came != [] && |came| <= recvBuf.capacity - recvBuf.length
      modifies this`received, recvBuf, recvBuf.data
      ensures Valid() && received == old(received) + came && recvBuf.pos == old(recvBuf.pos)
      ensures recvBuf.data == old(recvBuf.data) && Chan() == old(Chan()).(recv := old(Chan()).recv + came)
    {
      ghost var was := recvBuf.View().bytes;
      CopyTo(recvBuf.data, recvBuf.length, came);
      recvBuf.SetLength(recvBuf.pos, recvBuf.length + |came|);
      received := received + came;
      assert recvBuf.View().bytes == was + came;
    }

    /** The read half: room is made first, at least eight KiB, and what has arrived is put behind what there is. No
        bytes and `eof` is the peer's close. It is the machine's step for the receive's answer. */
    method ReceivePart(arrived: seq<byte>, eof: bool, fatal: bool)
      returns (room: nat, ghost answer: Sockets.Answer)
      requires Valid() && !ended
      modifies this, recvBuf, recvBuf.data
      ensures Valid() && written == old(written) && sent == old(sent)
      ensures recvBuf.data == old(recvBuf.data) || fresh(recvBuf.data)
      ensures room >= 8192 && received == old(received) + arrived[..if room < |arrived| then room else |arrived|]
      ensures recvBuf.pos == old(recvBuf.pos)
      ensures ended <==> arrived == [] && (eof || fatal)
      ensures Chan() == Pulled(old(Chan()), answer)
    {
      MakeRoom();
      room := recvBuf.capacity - recvBuf.length;
      var n := if room < |arrived| then room else |arrived|;
      answer := Sockets.Answer(if n == 0 && !eof then -1 else n, arrived[..n], if fatal then 0 else Sockets.EAGAIN);
      if n > 0 {
        Keep(arrived[..n]);
      } else if eof {
        ended := true;
        remoteClose := true;
      } else if fatal {
        ended := true;
      }
    }
  }
}
