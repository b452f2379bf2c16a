/** One connection attempt: the client state machine together with the check that `MultiConnect` puts on top of it. */
module TcpClientFsm {
  import opened Bytes
  import opened Sockets
  import opened Channels

  datatype Status = EStart | EConnecting | EReadWrite | EEnd
  datatype CheckStatus = ECheckInit | ECheckOK | ECheckFail

  /** What the observer answered when it was asked to fill the send buffer, and what it said of the bytes received. */
  datatype Request = Unasked | Filled | Refused
  datatype Judgement = Unjudged | Accepted(data: seq<byte>) | Rejected(data: seq<byte>)

  /** What the answers decide about a check that was asked for. */
  function Decision(request: Request, judged: Judgement): CheckStatus {
    match judged
    case Accepted(_) => ECheckOK
    case Rejected(_) => ECheckFail
    case Unjudged => if request == Refused then ECheckFail else ECheckInit
  }

  /** What is left of a time-out, as the code computes it. */
  function TimeLeft(start: nat, timeout: nat, now: int): int {
    Int32(start + timeout - now)
  }

  /** A time-out that has not passed counts as passed exactly when 2^31 milliseconds or more of it are left; one that
      has counts so for another 2^31. */
  lemma TimeLeftExact(start: nat, timeout: nat, now: nat)
    requires timeout < 0x1_0000_0000 && start <= now
    ensures now < start + timeout ==>
              (TimeLeft(start, timeout, now) <= 0 <==> timeout - (now - start) >= 0x8000_0000)
    ensures start + timeout <= now <= start + timeout + 0x8000_0000 ==> TimeLeft(start, timeout, now) <= 0
  {
  }

  /** A time-out of 2^31 milliseconds has passed at once. */
  lemma TimedOutAtOnce(start: nat)
    ensures TimeLeft(start, 0x8000_0000, start) <= 0
  {
  }

  class ConnectCheckFSM {
    const address: Address
    const index: nat
    const connectTimeout: nat
    const hasObserver: bool
    ghost const mustVerify: bool  // the observer asked to verify this address
    var status: Status
    var lastStatus: Status
    var error: int
    var remoteClose: bool
    var requestSend: bool
    var sock: int
    var startConnectTime: nat
    var endConnectTime: nat
    var checkStatus: CheckStatus
    var checkFinTime: nat
    var sendBuf: seq<byte>
    var recvBuf: seq<byte>
    ghost var ended: bool  // a look found that the attempt had ended
    ghost var request: Request  // the observer's answer on the connection
    ghost var judged: Judgement  // the observer's answer to the latest bytes

    /** The attempt has a socket whenever it needs one, and its socket is open and connecting to its address; it
        counts as connected only after its socket was reported so; it has met no error unless it has ended; and a
        check that was asked for is decided by the observer's answers: it is passed only if the observer accepted
        something that was received. */
    ghost predicate Valid(os: Os)
      reads this, os`open, os`peer, os`good
    {
      && (sock == INVALID_SOCKET ==> status == EStart || status == EEnd)
      && (sock != INVALID_SOCKET ==> sock in os.open && sock >= 0 && status != EStart)
      && (status == EConnecting || status == EReadWrite ==> sock in os.peer && os.peer[sock] == address)
      && (status == EReadWrite ==> sock in os.good)
      && (status != EEnd ==> error == 0 && !remoteClose)
      && (!hasObserver ==> checkStatus == ECheckOK)
      && checkStatus == (if mustVerify then Decision(request, judged) else ECheckOK)
      && (status == EStart || status == EConnecting ==> request == Unasked && judged == Unjudged)
      && (judged.Accepted? ==> [] != judged.data <= recvBuf)
    }

    /** The two buffers, and whether the attempt has ended. */
    ghost function Chan(): Channel
      reads this
    {
      Channel(sendBuf, recvBuf, requestSend, remoteClose, status == EEnd)
    }

    constructor (address: Address, connectTimeout: nat, index: nat, hasObserver: bool)
      ensures this.address == address && this.index == index
      ensures status == EStart && sock == INVALID_SOCKET && checkStatus != ECheckFail
      ensures !hasObserver ==> checkStatus == ECheckOK
      ensures this.hasObserver == hasObserver && error == 0 && !remoteClose && (mustVerify <==> checkStatus != ECheckOK)
      ensures checkStatus == (if mustVerify then Decision(request, judged) else ECheckOK)
      ensures request == Unasked && judged == Unjudged
    {
      this.address, this.index, this.connectTimeout, this.hasObserver := address, index, connectTimeout, hasObserver;
      status, lastStatus, error, remoteClose, requestSend := EStart, EStart, 0, false, false;
      sock, startConnectTime, endConnectTime, checkFinTime := INVALID_SOCKET, 0, 0, 0;
      sendBuf, recvBuf, ended, request, judged := [], [], false, Unasked, Unjudged;
      var shouldVerify: bool := *;
      checkStatus := if hasObserver && shouldVerify then ECheckInit else ECheckOK;
      mustVerify := hasObserver && shouldVerify;
    }

    function Rtt(): int
      reads this`startConnectTime, this`endConnectTime
    {
      Int32(endConnectTime - startConnectTime)
    }

    function TotalRtt(): int
      reads this`startConnectTime, this`checkFinTime
    {
      Int32(checkFinTime - startConnectTime)
    }

    /** For times below 2^28 milliseconds: a connected attempt may be quiet for a second at least, and for longer only
        up to six times what the connecting took and until the connect time-out from its start. */
    lemma QuietFor()
      requires startConnectTime <= endConnectTime < startConnectTime + 0x1000_0000 && connectTimeout < 0x1000_0000
      ensures var rtt, r := endConnectTime - startConnectTime, ReadWriteAbsTimeout();
              && r >= 1000 && (r > 1000 ==> r <= 6 * rtt && rtt + r <= connectTimeout)
              && (r == 1000 || r == 6 * rtt || rtt + r == connectTimeout)
    {
    }

    function ReadWriteAbsTimeout(): int
      reads this`startConnectTime, this`endConnectTime
    {
      Max(1000, Min(6 * Rtt(), Int32(connectTimeout) - Rtt()))
    }

    method Timeout(os: Os) returns (timeout: int)
      modifies os`now
      ensures os.now >= old(os.now)
      ensures status == EStart ==> timeout == INT_MAX
    {
      if status == EConnecting {
        var now := os.TickCount();
        return TimeLeft(startConnectTime, connectTimeout, now);
      }
      if status == EReadWrite {
        var now := os.TickCount();
        return Int32(endConnectTime + ReadWriteAbsTimeout() - now);
      }
      return if status == EEnd then 0 else INT_MAX;
    }

    /** Closes the socket, if there is one. An attempt that had not ended yet ends. */
    method Close(os: Os)
      requires Valid(os)
      modifies this`sock, this`status, this`lastStatus, this`error, os`open
      ensures sock == INVALID_SOCKET
      ensures os.open == if old(sock) == INVALID_SOCKET then old(os.open) else old(os.open) - {old(sock)}
      ensures error == old(error) && (old(sock) != INVALID_SOCKET ==> status == EEnd)
      ensures lastStatus == if old(sock) != INVALID_SOCKET && error == 0 && !remoteClose
                            then old(status) else old(lastStatus)
    {
      if sock == INVALID_SOCKET {
        return;
      }
      if remoteClose || error != 0 {
        os.Close(sock);
        sock := INVALID_SOCKET;
        return;
      }
      os.Close(sock);
      sock := INVALID_SOCKET;
      lastStatus := status;
      status := EEnd;
      error := 0;
    }

    /** A started attempt has a new socket, connecting to its address, or has ended with the error that was met. */
    twostate predicate Began(os: Os)
      reads this, os
    {
      && (status == EConnecting || status == EEnd) && checkStatus == old(checkStatus) && os.now >= old(os.now)
      && (sock == INVALID_SOCKET ==> os.open == old(os.open) && os.peer == old(os.peer) && status == EEnd)
      && (sock != INVALID_SOCKET ==> sock !in old(os.open) && os.open == old(os.open) + {sock})
      && (forall s :: s != sock && s in old(os.peer) ==> s in os.peer && os.peer[s] == old(os.peer[s]))
      && os.good == old(os.good) - {sock} && os.peak == Max(old(os.peak), |os.open|)
      && (if status == EEnd then error == os.failed != 0
          else (os.failed == 0 || os.failed == EINPROGRESS) && old(os.now) <= startConnectTime <= os.now)
      && lastStatus == EStart
    }

    method PreSelect(os: Os)
      requires Valid(os) && status != EEnd
      modifies this, os`open, os`peer, os`now, os`peak, os`good, os`failed
      ensures Valid(os) && os.now >= old(os.now)
      ensures old(status) != EStart ==>
                && status == old(status) && sock == old(sock) && checkStatus == old(checkStatus)
                && os.good == old(os.good)
                && os.open == old(os.open) && os.peer == old(os.peer) && os.peak == old(os.peak)
      ensures old(status) == EStart ==> Began(os)
    {
      if status == EStart {
        PreConnectSelect(os);
      }
    }

    method PreConnectSelect(os: Os)
      requires Valid(os) && status == EStart
      modifies this, os`open, os`peer, os`now, os`peak, os`good, os`failed
      ensures Valid(os) && Began(os)
    {
      var ready := OpenSocket(os);
      if ready {
        StartConnect(os);
      }
    }

    /** Opens a non-blocking socket, or ends the attempt. */
    method OpenSocket(os: Os) returns (ready: bool)
      requires Valid(os) && status == EStart
      modifies this`sock, this`error, this`status, this`lastStatus, this`checkFinTime
      modifies os`open, os`now, os`peak, os`good, os`failed
      ensures os.now >= old(os.now) && os.good == old(os.good) - {sock} && os.peak == Max(old(os.peak), |os.open|)
      ensures sock == INVALID_SOCKET ==> os.open == old(os.open) && !ready
      ensures sock != INVALID_SOCKET ==> sock >= 0 && sock !in old(os.open) && os.open == old(os.open) + {sock}
      ensures if ready then status == EStart && error == 0
              else status == EEnd && error == os.failed != 0 && lastStatus == EStart
    {
      ready := false;
      var ret, errno;
      sock, errno := os.Socket();
      if sock == INVALID_SOCKET {
        error := errno;
        lastStatus := status;
        status := EEnd;
        checkFinTime := os.TickCount();
        return;
      }
      ret, errno := os.SetNonBlocking(sock);
      if ret != 0 {
        error := errno;
      }
      if error != 0 {
        lastStatus := status;
        status := EEnd;
        checkFinTime := os.TickCount();
        return;
      }
      ready := true;
    }

    /** Starts connecting to the attempt's address. */
    method StartConnect(os: Os)
      requires status == EStart && error == 0 && sock in os.open
      modifies this`startConnectTime, this`endConnectTime, this`error, this`status, this`lastStatus
      modifies os`peer, os`now, os`failed
      ensures os.now >= old(os.now) && os.peer == old(os.peer)[sock := address] && lastStatus == EStart
      ensures if status == EEnd then error == os.failed != 0
              else status == EConnecting && error == 0 && (os.failed == 0 || os.failed == EINPROGRESS)
                   && old(os.now) <= startConnectTime <= os.now
    {
      startConnectTime := os.TickCount();
      var ret, errno := os.Connect(sock, address);
      if ret != 0 && errno != EINPROGRESS {
        endConnectTime := os.TickCount();
        error := errno;
      }
      lastStatus := status;
      status := if error != 0 then EEnd else EConnecting;
    }

    method AfterSelect(os: Os) returns (ghost t: int)
      requires Valid(os) && (status == EConnecting ==> os.Connected(sock) ==> sock in os.good)
      modifies this, os`now, os`sent, os`received
      ensures Valid(os) && os.now >= old(os.now) && sock == old(sock) && (ended <==> status == EEnd)
      ensures if old(status) == EStart || old(status) == EEnd then status == old(status) else status != EStart
      ensures old(status) == EConnecting ==> ConnectLooked(os, t)
      ensures old(status) == EReadWrite ==> ReadWriteLooked(os, t)
    {
      hide Int32, TimeLeft, ReadWriteAbsTimeout, Chan;
      t := os.now;
      if status == EConnecting {
        t := AfterConnectSelect(os);
      } else if status == EReadWrite {
        t := AfterReadWriteSelect(os);
      }
      MarkEnd(os);
    }

    /** Remembers that the attempt has ended, and when. */
    method MarkEnd(os: Os)
      modifies this`ended, this`checkFinTime, os`now
      ensures (ended <==> status == EEnd) && os.now >= old(os.now)
    {
      ended := status == EEnd;
      if status == EEnd && sock != INVALID_SOCKET {
        checkFinTime := os.TickCount();
      }
    }

    /** The clock showed `t` at some time in between. */
    ghost predicate Showed(from: nat, t: int, to: nat) {
      from <= t <= to
    }

    /** What a look at a connecting attempt makes of it: an exception or a pending error ends it; a writable socket is a
        connection; otherwise it ends when its time is up. The observer can only turn a verification down. */
    twostate predicate ConnectLooked(os: Os, t: int)
      reads this, os
    {
      var r, e := os.ReadyOf(sock), os.SoErrorOf(sock);
      && (if r.exception || e != 0 then status == EEnd && error == e
          else if r.writable then status == EReadWrite
          else if TimeLeft(startConnectTime, connectTimeout, t) <= 0 then status == EEnd && error == ETIMEDOUT
          else status == EConnecting)
      && Showed(old(os.now), t, os.now)
      && lastStatus == (if status == EConnecting then old(lastStatus) else EConnecting)
      && (status != EConnecting ==> Showed(old(os.now), endConnectTime, os.now))
      && (if status == EReadWrite && hasObserver && old(checkStatus) != ECheckOK
          then request != Unasked && checkStatus == (if request == Refused then ECheckFail else old(checkStatus))
          else request == old(request) && checkStatus == old(checkStatus))
      && startConnectTime == old(startConnectTime)
    }

    /** What a look at a connected attempt makes of it. What was sent leaves the send buffer, what came in goes behind
        the received; only then can a verification be decided; a failing send or receive, the peer's close, an exception
        or a quiet time-out end it. */
    twostate predicate ReadWriteLooked(os: Os, t: int)
      reads this, os
    {
      var r := os.ReadyOf(sock);
      var broke := r.writable && os.sent.ret <= 0 && os.sent.errno != EAGAIN;
      && Showed(old(os.now), t, os.now)
      && if r.exception then status == EEnd && error == os.SoErrorOf(sock) && sendBuf == old(sendBuf) && Unread()
         else
           && Sent(os)
           && if broke then status == EEnd && error == os.sent.errno && Unread()
              else if r.readable then Received(os)
              else
                && Unread()
                && if !r.writable && Int32(endConnectTime + ReadWriteAbsTimeout() - t) <= 0
                   then status == EEnd && error == ETIMEDOUT else status == EReadWrite
    }

    twostate predicate Sent(os: Os)
      reads this, os
    {
      sendBuf == if os.ReadyOf(sock).writable && 0 < os.sent.ret <= |old(sendBuf)| then old(sendBuf)[os.sent.ret..]
                 else old(sendBuf)
    }

    twostate predicate Received(os: Os)
      reads this, os
    {
      var got := os.received;
      if got.ret > 0 then
        && recvBuf == old(recvBuf) + got.data && status == EReadWrite
        && (if !hasObserver || old(checkStatus) == ECheckOK
            then checkStatus == old(checkStatus) && judged == old(judged)
            else Judges())
      else
        && Unread()
        && (if got.ret == 0 then status == EEnd && error == 0 && remoteClose
            else if got.errno != EAGAIN then status == EEnd && error == got.errno else status == EReadWrite)
    }

    twostate predicate Unread()
      reads this
    {
      recvBuf == old(recvBuf) && checkStatus == old(checkStatus) && judged == old(judged)
    }

    /** The observer has judged all that was received, and that decides the check. */
    ghost predicate Judges()
      reads this`judged, this`recvBuf, this`checkStatus
    {
      if checkStatus == ECheckOK then judged == Accepted(recvBuf)
      else checkStatus == ECheckFail && judged == Rejected(recvBuf)
    }

    method AfterConnectSelect(os: Os) returns (ghost t: int)
      requires Valid(os) && status == EConnecting && (os.Connected(sock) ==> sock in os.good)
      modifies this, os`now
      ensures Valid(os) && os.now >= old(os.now) && sock == old(sock) && ConnectLooked(os, t)
    {
      hide Int32, TimeLeft, ReadWriteAbsTimeout, Chan;
      var now := os.TickCount();
      t := now;
      var timeout := TimeLeft(startConnectTime, connectTimeout, now);
      var r := os.ReadyOf(sock);
      if r.exception {
        EndConnect(os, os.SoErrorOf(sock), EEnd);
        return;
      }
      error := os.SoErrorOf(sock);
      if error != 0 {
        EndConnect(os, error, EEnd);
        return;
      }
      if r.writable {
        EndConnect(os, 0, EReadWrite);
        OnConnected(os);
        return;
      }
      if timeout <= 0 {
        EndConnect(os, ETIMEDOUT, EEnd);
      }
    }

    /** The connecting is over: with a connection, or with an error. */
    method EndConnect(os: Os, e: int, next: Status)
      modifies this`error, this`endConnectTime, this`lastStatus, this`status, os`now
      ensures error == e && lastStatus == old(status) && status == next
      ensures old(os.now) <= endConnectTime <= os.now
    {
      endConnectTime := os.TickCount();
      error := e;
      lastStatus := status;
      status := next;
    }

    /** The observer fills the send buffer with its request, or refuses to. */
    method OnVerifySend() returns (filled: bool)
      modifies this`sendBuf, this`request
      ensures request == if filled then Filled else Refused
    {
      sendBuf, filled := *, *;
      request := if filled then Filled else Refused;
    }

    /** The observer judges what was received. */
    method OnVerifyRecv(data: seq<byte>) returns (verified: bool)
      modifies this`judged
      ensures judged == if verified then Accepted(data) else Rejected(data)
    {
      verified := *;
      judged := if verified then Accepted(data) else Rejected(data);
    }

    /** Asks the observer for the verification request. The check fails if and only if it refuses. */
    method OnConnected(os: Os)
      requires Valid(os) && status == EReadWrite && request == Unasked && judged == Unjudged
      modifies this`checkFinTime, this`checkStatus, this`sendBuf, this`request, os`now
      ensures Valid(os) && os.now >= old(os.now)
      ensures if !hasObserver || old(checkStatus) == ECheckOK
              then checkStatus == old(checkStatus) && request == old(request)
              else request != Unasked && checkStatus == if request == Refused then ECheckFail else old(checkStatus)
    {
      checkFinTime := os.TickCount();
      if !hasObserver || checkStatus == ECheckOK {
        return;
      }
      var filled := OnVerifySend();
      if !filled {
        checkStatus := ECheckFail;
      }
    }

    /** Lets the observer judge what was received. The check passes if and only if it accepts. */
    method OnRecv(os: Os)
      requires Valid(os) && status == EReadWrite && recvBuf != []
      modifies this`checkFinTime, this`checkStatus, this`judged, os`now
      ensures Valid(os) && os.now >= old(os.now)
      ensures if !hasObserver || old(checkStatus) == ECheckOK
              then checkStatus == old(checkStatus) && judged == old(judged)
              else Judges()
    {
      if !hasObserver || checkStatus == ECheckOK {
        return;
      }
      var verified := OnVerifyRecv(recvBuf);
      checkStatus := if verified then ECheckOK else ECheckFail;
      checkFinTime := os.TickCount();
    }

    method AfterReadWriteSelect(os: Os) returns (ghost t: int)
      requires Valid(os) && status == EReadWrite
      modifies this, os`now, os`sent, os`received
      ensures Valid(os) && os.now >= old(os.now) && sock == old(sock) && ReadWriteLooked(os, t)
    {
      hide Int32, ReadWriteAbsTimeout, Chan, Pushed, Pulled, Asked;
      var now := os.TickCount();
      t := now;
      var timeout := Int32(endConnectTime + ReadWriteAbsTimeout() - now);
      var r := os.ReadyOf(sock);
      if r.exception {
        EndWith(os.SoErrorOf(sock));
        return;
      }
      if r.writable {
        var go := Push(os);
        if !go { return; }
      }
      if r.readable {
        var go := Pull(os);
        if !go { return; }
      }
      if !r.writable && !r.readable && timeout <= 0 {
        EndWith(ETIMEDOUT);
      }
    }

    method EndWith(e: int)
      modifies this`error, this`lastStatus, this`status
      ensures error == e && lastStatus == old(status) && status == EEnd
    {
      error := e;
      lastStatus := status;
      status := EEnd;
    }

    /** The sending part; `go` tells whether the attempt goes on. */
    method Push(os: Os) returns (go: bool)
      requires Valid(os) && status == EReadWrite
      modifies this`requestSend, this`sendBuf, this`error, this`lastStatus, this`status, os`sent
      ensures Valid(os)
      ensures sendBuf == if 0 < os.sent.ret <= |old(sendBuf)| then old(sendBuf)[os.sent.ret..] else old(sendBuf)
      ensures os.sent.ret <= |old(sendBuf)| && (go <==> 0 < os.sent.ret || os.sent.errno == EAGAIN)
      ensures if go then status == EReadWrite else status == EEnd && error == os.sent.errno
      ensures Chan() == Pushed(Asked(old(Chan()), []), os.sent)
    {
      go := true;
      if requestSend && sendBuf == [] {
        requestSend := false;
      }
      var ret, errno := os.Send(sock, sendBuf);
      if 0 < ret {
        sendBuf := sendBuf[ret..];
      } else if errno != EAGAIN {
        EndWith(errno);
        go := false;
      }
    }

    /** The receiving part. */
    method Pull(os: Os) returns (go: bool)
      requires Valid(os) && status == EReadWrite
      modifies this, os`received, os`now
      ensures Valid(os) && os.now >= old(os.now) && sock == old(sock) && sendBuf == old(sendBuf)
      ensures Received(os) && (go <==> status == EReadWrite)
      ensures Chan() == Pulled(old(Chan()), os.received)
    {
      go := true;
      var ret, data, errno := os.Recv(sock);
      if 0 < ret {
        recvBuf := recvBuf + data;
        OnRecv(os);
      } else if ret == 0 {
        EndWith(0);
        remoteClose := true;
        go := false;
      } else if errno != EAGAIN {
        EndWith(errno);
        go := false;
      }
    }
  }
}
