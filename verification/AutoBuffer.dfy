/** The growing byte buffer with a position, and what it stands for: some bytes and a place among them. */
module AutoBuffers {
  import opened Bytes

  /** What a buffer holds, and where its position is. */
  datatype Text = Text(bytes: seq<byte>, pos: nat)

  ghost predicate InText(t: Text) {
    t.pos <= |t.bytes|
  }

  function Zeros(n: nat): (z: seq<byte>)
    ensures |z| == n && forall i :: 0 <= i < n ==> z[i] == 0
  {
    seq(n, _ => 0)
  }

  /** `t` with `data` written over what is at `at` and behind. */
  function WriteAt(t: Text, at: nat, data: seq<byte>): (r: Text)
    requires at <= |t.bytes|
  {
    Text(t.bytes[..at] + data + (if at + |data| < |t.bytes| then t.bytes[at + |data|..] else []), t.pos)
  }

  function SeekTo(t: Text, target: int): Text {
    Text(t.bytes, if target < 0 then 0 else if target > |t.bytes| then |t.bytes| else target)
  }

  /** Moves the bytes by `n`: zeros come in at the front, or bytes at the front go. */
  function Shift(t: Text, n: int): (r: Text)
    ensures InText(t) ==> InText(r)
  {
    if n > 0 then Text(Zeros(n) + t.bytes, t.pos + n)
    else
      var gone := if -n > |t.bytes| then |t.bytes| else -n;
      Text(t.bytes[gone..], if gone < t.pos then t.pos - gone else 0)
  }

  // ---------- What follows for the bytes ----------

  /** Bytes that are written and then read at the same place come back, and the rest is as it was. */
  lemma WriteThenRead(t: Text, at: nat, data: seq<byte>)
    requires InText(t) && at <= |t.bytes|
    ensures var r := WriteAt(t, at, data);
            && InText(r) && at + |data| <= |r.bytes| && r.bytes[at..at + |data|] == data
            && |r.bytes| == (if at + |data| > |t.bytes| then at + |data| else |t.bytes|)
            && forall i :: 0 <= i < |t.bytes| && !(at <= i < at + |data|) ==> r.bytes[i] == t.bytes[i]
  {
    var r := WriteAt(t, at, data);
    assert r.bytes[at..at + |data|] == data;
  }

  /** Moving forwards and back again changes nothing. */
  lemma ShiftBack(t: Text, n: nat)
    requires InText(t)
    ensures Shift(Shift(t, n), 0 - n) == t
  {
    var s := Shift(t, n);
    assert n > 0 ==> s.bytes[n..] == t.bytes;
  }

  /** Dropping bytes in two goes is dropping them in one. */
  lemma ShiftTwice(t: Text, a: nat, b: nat)
    requires InText(t)
    ensures Shift(Shift(t, 0 - a), 0 - b) == Shift(t, 0 - (a + b))
  {
    var s := Shift(t, 0 - a);
    if a + b <= |t.bytes| {
      assert s.bytes[b..] == t.bytes[a + b..];
    }
  }

  // ---------- A stream through a buffer ----------

  /** What a user of a buffer as a queue does: append at the end, drop what went out at the front. */
  datatype Use = Append(data: seq<byte>) | Drop(n: nat)

  function After(t: Text, uses: seq<Use>): Text {
    if uses == [] then t
    else
      var u := After(t, uses[..|uses| - 1]);
      match uses[|uses| - 1]
      case Append(data) => WriteAt(u, |u.bytes|, data)
      case Drop(n) => Shift(u, 0 - n)
  }

  /** All that was appended. */
  function In(uses: seq<Use>): seq<byte> {
    if uses == [] then []
    else In(uses[..|uses| - 1]) + (if uses[|uses| - 1].Append? then uses[|uses| - 1].data else [])
  }

  /** How much was dropped: never more than there was. */
  function Out(uses: seq<Use>): nat {
    if uses == [] then 0
    else
      var before := uses[..|uses| - 1];
      var u := After(Text([], 0), before);
      Out(before) + if uses[|uses| - 1].Append? then 0
                    else if uses[|uses| - 1].n > |u.bytes| then |u.bytes| else uses[|uses| - 1].n
  }

  /** The buffer holds, in order, all that was appended except what was dropped, whatever the mix. */
  lemma {:induction false} Queued(uses: seq<Use>)
    ensures var t := After(Text([], 0), uses);
            Out(uses) <= |In(uses)| && t.bytes == In(uses)[Out(uses)..] && t.pos == 0
  {
    if uses != [] {
      var before, use := uses[..|uses| - 1], uses[|uses| - 1];
      Queued(before);
      var u := After(Text([], 0), before);
      if use.Append? {
        assert In(uses)[Out(uses)..] == u.bytes + use.data;
      } else {
        assert In(uses)[Out(uses)..] == u.bytes[Out(uses) - Out(before)..];
      }
    }
  }

  // ---------- The buffer ----------

  class AutoBuffer {
    /** The allocated bytes; an empty array stands for no allocation. */
    var data: array<byte>
    var pos: int
    var length: nat
    var capacity: nat
    const unitSize: nat

    ghost predicate Valid()
      reads this
    {
      0 <= pos <= length <= capacity == data.Length && unitSize > 0
    }

    ghost function View(): (t: Text)
      reads this, data
      requires Valid()
      ensures InText(t)
    {
      Text(data[..length], pos)
    }

    constructor (size: nat)
      requires size > 0
      ensures Valid() && fresh(data) && View() == Text([], 0) && capacity == 0 && unitSize == size
    {
      unitSize := size;
      data, pos, length, capacity := new byte[0], 0, 0, 0;
    }

    /** Makes room for `n` bytes: the bytes stay, the new ones are zero, and the size is the next multiple of the
        unit. */
    method FitSize(n: nat)
      requires Valid()
      modifies this`data, this`capacity
      ensures Valid() && capacity >= n && capacity >= old(capacity) && (data == old(data) || fresh(data))
      ensures data[..] == old(data[..]) + Zeros(capacity - old(capacity))
      ensures if n <= old(capacity) then data == old(data) else n <= capacity < n + unitSize && capacity % unitSize == 0
    {
      if n > capacity {
        var size := (n + unitSize - 1) / unitSize * unitSize;
        RoundUp(n, unitSize);
        var grown := new byte[size](_ => 0);
        forall i | 0 <= i < capacity {
          grown[i] := data[i];
        }
        assert grown[..] == data[..] + Zeros(size - capacity);
        data := grown;
        capacity := size;
      }
    }

    method AllocWrite(n: nat, changeLength: bool)
      requires Valid()
      modifies this
      ensures Valid() && (data == old(data) || fresh(data)) && pos == old(pos)
      ensures capacity >= pos + n && capacity >= old(capacity)
      ensures length == if changeLength && pos + n > old(length) then pos + n else old(length)
      ensures data[..] == old(data[..]) + Zeros(capacity - old(capacity))
    {
      FitSize(pos + n);
      if changeLength {
        length := if pos + n > length then pos + n else length;
      }
    }

    method AddCapacity(n: nat)
      requires Valid()
      modifies this
      ensures Valid() && (data == old(data) || fresh(data)) && View() == old(View()) && capacity >= old(capacity) + n
    {
      FitSize(capacity + n);
      assert data[..length] == old(data[..length]);
    }

    /** `Write(const off_t&, ...)`. */
    method Put(at: int, bytes: seq<byte>)
      requires Valid() && 0 <= at <= length
      modifies this, data
      ensures Valid() && (data == old(data) || fresh(data)) && capacity >= old(capacity)
      ensures View() == WriteAt(old(View()), at, bytes)
    {
      ghost var was := data[..length];
      var n := at + |bytes|;
      FitSize(n);
      assert data[..length] == was;
      length := if n > length then n else length;
      CopyTo(data, at, bytes);
      assert data[..length] == was[..at] + bytes + if n < |was| then was[n..] else [];
    }

    /** `Write(const void*, size_t)`: writes at the position and moves it behind. */
    method Write(bytes: seq<byte>)
      requires Valid()
      modifies this, data
      ensures Valid() && (data == old(data) || fresh(data))
      ensures View() == SeekTo(WriteAt(old(View()), old(pos), bytes), old(pos) + |bytes|)
    {
      Put(pos, bytes);
      Seek(|bytes|, Cur);
    }

    /** `Read(void*, size_t)`: the bytes at the position, and the position moves behind them. */
    method Read(n: nat) returns (bytes: seq<byte>)
      requires Valid()
      modifies this`pos
      ensures Valid() && bytes <= old(View()).bytes[old(pos)..]
      ensures |bytes| == if n < length - old(pos) then n else length - old(pos)
      ensures View() == SeekTo(old(View()), old(pos) + |bytes|)
    {
      var size := length - pos;
      if size > n {
        size := n;
      }
      bytes := data[pos..pos + size];
      assert bytes == data[..length][pos..pos + size];
      Seek(size, Cur);
    }

    method Move(n: int) returns (size: nat)
      requires Valid()
      modifies this, data
      ensures Valid() && (data == old(data) || fresh(data)) && capacity >= old(capacity)
      ensures View() == Shift(old(View()), n) && size == length
    {
      if n > 0 {
        OpenFront(n);
      } else {
        DropFront(-n);
      }
      size := length;
    }

    method OpenFront(n: nat)
      requires Valid() && n > 0
      modifies this, data
      ensures Valid() && (data == old(data) || fresh(data)) && capacity >= old(capacity)
      ensures View() == Shift(old(View()), n)
    {
      ghost var was := data[..length];
      FitSize(length + n);
      assert data[..length] == was;
      MoveUp(data, length, n);
      SetLength(pos + n, length + n);
    }

    method DropFront(n: nat)
      requires Valid()
      modifies this, data
      ensures Valid() && data == old(data) && capacity == old(capacity)
      ensures View() == Shift(old(View()), 0 - n)
    {
      ghost var was := data[..length];
      var gone := n;
      if gone > length {
        gone := length;
      }
      forall i | 0 <= i < length - gone {
        data[i] := data[gone + i];
      }
      assert data[..length - gone] == was[gone..];
      SetLength(if gone < pos then pos - gone else 0, length - gone);
    }

    method Seek(offset: int, origin: Origin)
      requires length <= capacity == data.Length && unitSize > 0
      modifies this`pos
      ensures Valid()
      ensures View() == SeekTo(Text(data[..length], 0),
                               offset + match origin case Start => 0 case Cur => old(pos) case End => length)
    {
      match origin {
        case Start => pos := offset;
        case Cur => pos := pos + offset;
        case End => pos := length + offset;
      }
      if pos < 0 {
        pos := 0;
      }
      if pos > length {
        pos := length;
      }
    }

    /** `Length(off_t, size_t)`. */
    method SetLength(at: int, size: nat)
      requires Valid() && 0 <= at <= size <= capacity
      modifies this`pos, this`length
      ensures Valid() && pos == at && length == size
    {
      length := size;
      Seek(at, Start);
    }

    /** `Attach(void*, size_t)`: takes over allocated bytes. */
    method Attach(bytes: array<byte>)
      requires Valid()
      modifies this
      ensures Valid() && data == bytes && View() == Text(bytes[..], 0)
    {
      Reset();
      data := bytes;
      length := bytes.Length;
      capacity := bytes.Length;
    }

    /** `Attach(AutoBuffer&)`: takes over everything the other buffer holds; that one is empty then. */
    method AttachBuffer(other: AutoBuffer)
      requires Valid() && other.Valid() && other != this
      modifies this, other
      ensures Valid() && other.Valid() && data == old(other.data) && fresh(other.data)
      ensures View() == old(other.View()) && other.View() == Text([], 0)
    {
      Reset();
      data, pos, length, capacity := other.data, other.pos, other.length, other.capacity;
      other.Reset();
    }

    method Detach() returns (bytes: array<byte>, size: nat)
      requires Valid()
      modifies this
      ensures Valid() && bytes == old(data) && size <= bytes.Length && bytes[..size] == old(View()).bytes
      ensures fresh(data) && View() == Text([], 0)
    {
      bytes := data;
      size := length;
      Reset();
    }

    method Reset()
      requires Valid()
      modifies this
      ensures Valid() && fresh(data) && View() == Text([], 0) && capacity == 0
    {
      data := new byte[0];
      pos, length, capacity := 0, 0, 0;
    }
  }

  /** `memcpy` into the array at `at`. */
  method CopyTo(a: array<byte>, at: nat, bytes: seq<byte>)
    requires at + |bytes| <= a.Length
    modifies a
    ensures a[..] == old(a[..at]) + bytes + old(a[at + |bytes|..])
  {
    forall i | 0 <= i < |bytes| {
      a[at + i] := bytes[i];
    }
  }

  /** `memmove` of the first `size` bytes to `n`, and zeros in front. */
  method MoveUp(a: array<byte>, size: nat, n: nat)
    requires size + n <= a.Length
    modifies a
    ensures a[..n + size] == Zeros(n) + old(a[..size])
  {
    forall i | 0 <= i < size {
      a[n + i] := a[i];
    }
    forall i | 0 <= i < n {
      a[i] := 0;
    }
  }

  datatype Origin = Start | Cur | End

  lemma RoundUp(n: nat, unit: nat)
    requires unit > 0
    ensures n <= (n + unit - 1) / unit * unit < n + unit && ((n + unit - 1) / unit * unit) % unit == 0
  {
    var q := (n + unit - 1) / unit;
    assert q * unit == n + unit - 1 - (n + unit - 1) % unit;
    MultipleMod(q, unit);
  }

  lemma MultipleMod(q: nat, unit: nat)
    requires unit > 0
    ensures (q * unit) % unit == 0
  {
    var k := q - (q * unit) / unit;
    assert unit * k == (q * unit) % unit;
    TimesApart(unit, k);
  }

  lemma TimesApart(unit: nat, k: int)
    ensures (k >= 1 ==> unit * k >= unit) && (k <= -1 ==> unit * k <= 0 - unit)
  {
  }
}
