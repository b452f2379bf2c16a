/** The operating system as the network code sees it: a table of open sockets, a clock that never
    runs backwards, and calls whose results are not determined. */
module Sockets {
  import opened Bytes

  const INVALID_SOCKET := -1
  const EINPROGRESS := 115
  const EAGAIN := 11
  const ETIMEDOUT := 110
  const INT_MAX := 0x7FFF_FFFF

  datatype Address = Address(ip: string, port: nat)

  /** Conversion to a 64-bit unsigned number. */
  function U64(x: int): nat {
    x % 0x1_0000_0000_0000_0000
  }

  /** Conversion of an integer to a 32-bit signed one: the low 32 bits, read as two's complement. */
  function Int32(x: int): int {
    var y := x % 0x1_0000_0000;
    if y < 0x8000_0000 then y else y - 0x1_0000_0000
  }

  function Min(a: int, b: int): int {
    if a < b then a else b
  }

  function Max(a: int, b: int): int {
    if a < b then b else a
  }

  /** What a select reports for one socket. */
  datatype Ready = Ready(exception: bool, writable: bool, readable: bool)

  /** What a send or receive answers. */
  datatype Answer = Answer(ret: int, data: seq<byte>, errno: int)

  class Os {
    var open: set<int>            // the sockets that are open
    var peer: map<int, Address>   // the address each socket was last connected to
    var now: nat                  // the tick count
    var patience: nat             // after this many more selects the caller's breaker fires
    ghost var selects: nat        // how many selects there were
    var ready: map<int, Ready>    // what the last select reported
    var soError: map<int, int>    // the error pending on each socket, as SO_ERROR gives it
    ghost var peak: nat           // the most sockets that were ever open
    ghost var good: set<int>      // the sockets that were reported writable, without an exception or an error
    ghost var interrupted: bool   // the last select failed, or the caller broke it off
    ghost var failed: int         // the error of the latest call while connecting, or 0
    ghost var sent: Answer        // the latest send's answer
    ghost var received: Answer    // the latest receive's answer

    function ReadyOf(sock: int): Ready
      reads this`ready
    {
      if sock in ready then ready[sock] else Ready(false, false, false)
    }

    function SoErrorOf(sock: int): int
      reads this`soError
    {
      if sock in soError then soError[sock] else 0
    }

    ghost predicate Connected(sock: int)
      reads this`ready, this`soError
    {
      !ReadyOf(sock).exception && ReadyOf(sock).writable && SoErrorOf(sock) == 0
    }

    method TickCount() returns (t: nat)
      modifies this`now
      ensures t == now && now >= old(now)
    {
      var step: int := *;
      if step > 0 {
        now := now + step;
      }
      t := now;
    }

    /** Opens a socket, or fails. */
    method Socket() returns (sock: int, errno: int)
      modifies this`open, this`peak, this`good, this`failed
      ensures sock == INVALID_SOCKET ==> open == old(open) && errno != 0
      ensures failed == if sock == INVALID_SOCKET then errno else 0
      ensures good == old(good) - {sock}
      ensures sock != INVALID_SOCKET ==> sock >= 0 && sock !in old(open) && open == old(open) + {sock}
      ensures peak == Max(old(peak), |open|)
    {
      sock, errno := *, *;
      if sock < 0 || sock in open {
        sock := INVALID_SOCKET;
        errno := if errno == 0 then EAGAIN else errno;
        failed := errno;
      } else {
        open := open + {sock};
        failed := 0;
      }
      good := good - {sock};
      peak := Max(peak, |open|);
    }

    method Close(sock: int)
      requires sock in open
      modifies this`open
      ensures open == old(open) - {sock}
    {
      open := open - {sock};
    }

    method SetNonBlocking(sock: int) returns (ret: int, errno: int)
      requires sock in open
      modifies this`failed
      ensures (ret != 0 ==> errno != 0) && failed == if ret != 0 then errno else 0
    {
      ret, errno := *, *;
      errno := if errno == 0 then EAGAIN else errno;
      failed := if ret != 0 then errno else 0;
    }

    method Connect(sock: int, address: Address) returns (ret: int, errno: int)
      requires sock in open
      modifies this`peer, this`failed
      ensures peer == old(peer)[sock := address]
      ensures (ret != 0 ==> errno != 0) && failed == if ret != 0 then errno else 0
    {
      peer := peer[sock := address];
      ret, errno := *, *;
      errno := if errno == 0 then EAGAIN else errno;
      failed := if ret != 0 then errno else 0;
    }

    method Send(sock: int, data: seq<byte>) returns (ret: int, errno: int)
      requires sock in open
      modifies this`sent
      ensures ret <= |data| && sent == Answer(ret, [], errno)
    {
      ret, errno := *, *;
      if ret > |data| {
        ret := |data|;
      }
      sent := Answer(ret, [], errno);
    }

    method Recv(sock: int) returns (ret: int, data: seq<byte>, errno: int)
      requires sock in open
      modifies this`received
      ensures ret > 0 ==> |data| == ret
      ensures received == Answer(ret, data, errno)
    {
      data, errno := *, *;
      ret := *;
      if ret > 0 {
        ret := |data|;
      }
      received := Answer(ret, data, errno);
    }

    /** Waits. Breaks at the latest when the patience is used up. */
    method Select(timeout: int) returns (ret: int, exception: bool, broken: bool)
      requires timeout >= 0
      modifies this`patience, this`selects, this`ready, this`soError, this`good, this`interrupted
      ensures selects == old(selects) + 1 && (interrupted <==> ret < 0 || exception || broken)
      ensures good == old(good) + set s | s in open && Connected(s)
      ensures old(patience) == 0 ==> ret >= 0 && broken
      ensures old(patience) > 0 ==> patience == old(patience) - 1
    {
      ret, exception, broken := *, *, *;
      ready, soError := *, *;
      selects := selects + 1;
      good := good + set s | s in open && Connected(s);
      if patience == 0 {
        ret, broken := 0, true;
      } else {
        patience := patience - 1;
      }
      interrupted := ret < 0 || exception || broken;
    }
  }
}
