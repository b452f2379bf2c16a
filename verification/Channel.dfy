/** What sending and receiving do to the two buffers of a connected state machine, as values. The machine in
    `TcpClientFsm` and the buffer objects in `TcpClients` both take these steps. */
module Channels {
  import opened Bytes
  import opened Sockets

  datatype Channel = Channel(
    send: seq<byte>, recv: seq<byte>, requestSend: bool, remoteClose: bool, ended: bool)

  /** The observer fills the empty send buffer, if that was requested. */
  function Asked(c: Channel, request: seq<byte>): Channel {
    if c.requestSend && c.send == [] then c.(requestSend := false, send := request) else c
  }

  /** What a send's answer makes of it: what was sent goes, and an error ends it. */
  function Pushed(c: Channel, a: Answer): Channel {
    if 0 < a.ret then c.(send := c.send[if a.ret < |c.send| then a.ret else |c.send|..])
    else if a.errno == EAGAIN then c
    else c.(ended := true)
  }

  /** What a receive's answer makes of it: what came in goes behind; the peer's close or an error ends it. */
  function Pulled(c: Channel, a: Answer): Channel {
    if 0 < a.ret then c.(recv := c.recv + a.data)
    else if a.ret == 0 then c.(ended := true, remoteClose := true)
    else if a.errno == EAGAIN then c
    else c.(ended := true)
  }

  // ---------- Whole runs ----------

  datatype Io = Want | Push(request: seq<byte>, answer: Answer) | Pull(answer: Answer)

  const Quiet := Channel([], [], false, false, false)

  function RunOf(ios: seq<Io>): Channel {
    if ios == [] then Quiet
    else
      var c := RunOf(ios[..|ios| - 1]);
      match ios[|ios| - 1]
      case Want => c.(requestSend := true)
      case Push(request, a) => Pushed(Asked(c, request), a)
      case Pull(a) => Pulled(c, a)
  }

  /** What was put into the send buffer. */
  function Written(ios: seq<Io>): seq<byte> {
    if ios == [] then []
    else
      var before, io := ios[..|ios| - 1], ios[|ios| - 1];
      var c := RunOf(before);
      Written(before) + if io.Push? && c.requestSend && c.send == [] then io.request else []
  }

  /** How many bytes the sends took. */
  function Taken(ios: seq<Io>): nat {
    if ios == [] then 0
    else
      var before, io := ios[..|ios| - 1], ios[|ios| - 1];
      Taken(before) + if io.Push? && 0 < io.answer.ret
                      then Min(io.answer.ret, |Asked(RunOf(before), io.request).send|) else 0
  }

  /** What the receives brought. */
  function Arrived(ios: seq<Io>): seq<byte> {
    if ios == [] then []
    else
      var io := ios[|ios| - 1];
      Arrived(ios[..|ios| - 1]) + if io.Pull? && 0 < io.answer.ret then io.answer.data else []
  }

  /** Over every mix of requests, partial sends and receives the send buffer holds what was written and not yet taken,
      and the receive buffer all that arrived, in order. */
  lemma {:induction false} ChannelConserves(ios: seq<Io>)
    ensures Taken(ios) <= |Written(ios)| && RunOf(ios).send == Written(ios)[Taken(ios)..]
    ensures RunOf(ios).recv == Arrived(ios)
  {
    SendConserves(ios);
    ReceiveConserves(ios);
  }

  lemma {:induction false} ReceiveConserves(ios: seq<Io>)
    ensures RunOf(ios).recv == Arrived(ios)
  {
    if ios != [] {
      ReceiveConserves(ios[..|ios| - 1]);
    }
  }

  lemma {:induction false} SendConserves(ios: seq<Io>)
    ensures Taken(ios) <= |Written(ios)| && RunOf(ios).send == Written(ios)[Taken(ios)..]
  {
    if ios != [] {
      var before, io := ios[..|ios| - 1], ios[|ios| - 1];
      SendConserves(before);
      if io.Push? {
        hide Asked, Pushed, Min;
        AskWrites(RunOf(before), io.request, Written(before), Taken(before));
        PushTakes(Asked(RunOf(before), io.request), io.answer, Written(ios), Taken(before));
      }
    }
  }

  /** A request goes behind what was written. */
  lemma AskWrites(c: Channel, request: seq<byte>, written: seq<byte>, taken: nat)
    requires taken <= |written| && c.send == written[taken..]
    ensures var more := if c.requestSend && c.send == [] then request else [];
            Asked(c, request).send == (written + more)[taken..]
  {
  }

  /** A push takes bytes off the front of what was written and not yet taken. */
  lemma PushTakes(c: Channel, a: Answer, written: seq<byte>, taken: nat)
    requires taken <= |written| && c.send == written[taken..]
    ensures var more := if 0 < a.ret then Min(a.ret, |c.send|) else 0;
            taken + more <= |written| && Pushed(c, a).send == written[taken + more..]
  {
  }
}
