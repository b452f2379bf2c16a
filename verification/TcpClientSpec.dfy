/** The write queue of the TCP client as a step system. The steps are what the writers and the I/O thread do under
    the queue's lock, and the reports the thread makes between them. */
module TcpClientSpec {
  import opened Bytes
  import opened AutoBuffers

  datatype Status = Connected | IoError | Disconnected

  /** The I/O thread: about to look at the queue; in `select`, with or without an interest in writing; with the front
      buffer of so many bytes removed, not yet reported; with the report made; gone. */
  datatype Phase = Looking | Waiting(write: bool) | Removed(size: nat) | Reported | Ended

  datatype Wrote = Wrote(id: int, size: nat)

  /** The client's fields, the thread's position, and the history: what was accepted and under which numbers, the bytes
      the socket took, the OnWrote reports, and how much had been accepted at each OnAllWrote. */
  datatype State = State(
    status: Status, queue: seq<Text>, lastId: int, writeId: int, phase: Phase,
    accepted: seq<seq<byte>>, ids: seq<int>, sent: seq<byte>, wrote: seq<Wrote>, drained: seq<nat>)

  const Initial := State(Connected, [], 0, 0, Looking, [], [], [], [], [])

  datatype Op =
    | Write(data: seq<byte>, sawConnected: bool)   // the writer looks at the status before it takes the lock
    | Look                                         // puts the socket into the select set
    | NotWritable
    | Writable(room: nat, fatal: bool)             // the socket has this much room; with none, why
    | Report
    | CheckDrained
    | Stop(status: Status)                         // an error elsewhere, a disconnect, or the peer's close

  function Step(s: State, op: Op): State {
    match op
    case Write(data, saw) =>
      if !saw then s
      else s.(queue := s.queue + [Text(data, 0)], lastId := s.lastId + 1,
              accepted := s.accepted + [data], ids := s.ids + [s.lastId + 1])
    case Look => if s.phase != Looking then s else s.(phase := Waiting(s.queue != []))
    case NotWritable => if !s.phase.Waiting? then s else s.(phase := Looking)
    case Writable(room, fatal) => if s.phase != Waiting(true) || s.queue == [] then s else Push(s, room, fatal)
    case Report =>
      if !s.phase.Removed? then s
      else s.(writeId := s.writeId + 1, wrote := s.wrote + [Wrote(s.writeId + 1, s.phase.size)], phase := Reported)
    case CheckDrained =>
      if s.phase != Reported then s
      else s.(phase := Looking, drained := if s.queue == [] then s.drained + [|s.accepted|] else s.drained)
    case Stop(status) => if !s.phase.Waiting? then s else s.(phase := Ended, status := status)
  }

  /** Sends from the front buffer what there is room for, or removes it when nothing is left of it. */
  function Push(s: State, room: nat, fatal: bool): State
    requires s.queue != []
  {
    var f := s.queue[0];
    if f.pos < |f.bytes| then
      var n := if room < |f.bytes| - f.pos then room else |f.bytes| - f.pos;
      if n == 0 && fatal then s.(status := IoError, phase := Ended)
      else s.(queue := s.queue[0 := Text(f.bytes, f.pos + n)], sent := s.sent + f.bytes[f.pos..f.pos + n],
          phase := Looking)
    else s.(queue := s.queue[1..], phase := Removed(|f.bytes|))
  }

  function Run(ops: seq<Op>): State {
    if ops == [] then Initial else Step(Run(ops[..|ops| - 1]), ops[|ops| - 1])
  }

  function Concat(parts: seq<seq<byte>>): seq<byte> {
    if parts == [] then [] else Concat(parts[..|parts| - 1]) + parts[|parts| - 1]
  }

  // ---------- What holds in every state ----------

  /** How many buffers were accepted and removed again. */
  function Gone(s: State): int {
    |s.accepted| - |s.queue|
  }

  /** What the socket took of the front buffer. */
  function Begun(s: State): seq<byte> {
    if s.queue == [] || s.queue[0].pos > |s.queue[0].bytes| then [] else s.queue[0].bytes[..s.queue[0].pos]
  }

  ghost predicate QueueOk(s: State) {
    && 0 <= Gone(s)
    && (forall i :: 0 <= i < |s.queue| ==> s.queue[i].bytes == s.accepted[Gone(s) + i])
    && (forall i :: 0 <= i < |s.queue| ==> InText(s.queue[i]) && (i > 0 ==> s.queue[i].pos == 0))
    && (s.phase == Waiting(true) ==> s.queue != [])
  }

  ghost predicate Conserved(s: State) {
    0 <= Gone(s) && s.sent == Concat(s.accepted[..Gone(s)]) + Begun(s)
  }

  ghost predicate Numbered(s: State) {
    && s.lastId == |s.accepted| == |s.ids|
    && (forall k :: 0 <= k < |s.ids| ==> s.ids[k] == k + 1)
    && s.writeId == |s.wrote| == Gone(s) - (if s.phase.Removed? then 1 else 0)
    && (s.phase.Removed? ==> s.phase.size == |s.accepted[Gone(s) - 1]|)
    && (forall k :: 0 <= k < |s.wrote| ==> s.wrote[k] == Wrote(k + 1, |s.accepted[k]|))
  }

  ghost predicate DrainedOk(s: State) {
    forall k :: 0 <= k < |s.drained| ==> s.drained[k] <= Gone(s)
  }

  ghost predicate Inv(s: State) {
    QueueOk(s) && Conserved(s) && Numbered(s) && DrainedOk(s)
  }

  lemma WriteKeeps(s: State, data: seq<byte>)
    requires Inv(s)
    ensures Inv(Step(s, Write(data, true)))
  {
    WriteQueues(s, data);
    WriteConserves(s, data);
    hide QueueOk, Conserved;
  }

  lemma WriteQueues(s: State, data: seq<byte>)
    requires QueueOk(s)
    ensures QueueOk(Step(s, Write(data, true)))
  {
  }

  lemma WriteConserves(s: State, data: seq<byte>)
    requires QueueOk(s) && Conserved(s)
    ensures Conserved(Step(s, Write(data, true)))
  {
    var t := Step(s, Write(data, true));
    assert t.accepted[..Gone(t)] == s.accepted[..Gone(s)];
    if s.queue == [] {
      assert Begun(t) == [];
    }
    hide Concat, QueueOk;
  }

  lemma PushKeeps(s: State, room: nat, fatal: bool)
    requires Inv(s) && s.phase == Waiting(true)
    ensures Inv(Push(s, room, fatal))
  {
    var t := Push(s, room, fatal);
    var f := s.queue[0];
    if f.pos < |f.bytes| {
      PushSends(s, room, fatal);
    } else {
      assert f.bytes[..f.pos] == f.bytes;
      assert t.accepted[..Gone(t)][..Gone(s)] == s.accepted[..Gone(s)];
      assert Concat(t.accepted[..Gone(t)]) == Concat(s.accepted[..Gone(s)]) + f.bytes;
      assert Begun(t) == [];
    }
  }

  lemma PushSends(s: State, room: nat, fatal: bool)
    requires Inv(s) && s.phase == Waiting(true) && s.queue[0].pos < |s.queue[0].bytes|
    ensures Inv(Push(s, room, fatal))
  {
    var t := Push(s, room, fatal);
    assert QueueOk(t) by { hide Numbered, Conserved, Concat; }
    assert Conserved(t) by { PushConserves(s, room, fatal); }
    hide QueueOk, Conserved;
  }

  lemma PushConserves(s: State, room: nat, fatal: bool)
    requires QueueOk(s) && Conserved(s) && s.queue != [] && s.queue[0].pos < |s.queue[0].bytes|
    ensures Conserved(Push(s, room, fatal))
  {
    var t := Push(s, room, fatal);
    var f := s.queue[0];
    var n := if room < |f.bytes| - f.pos then room else |f.bytes| - f.pos;
    if !(n == 0 && fatal) {
      var sent, more := Concat(s.accepted[..Gone(s)]), f.bytes[f.pos..f.pos + n];
      hide QueueOk, Concat;
      assert Begun(s) + more == Begun(t) && Gone(t) == Gone(s) && t.accepted == s.accepted;
      assert t.sent == (sent + Begun(s)) + more == sent + (Begun(s) + more);
      hide Begun, Push;
    }
  }

  /** The steps that do not touch the queue. */
  lemma OthersKeep(s: State, op: Op)
    requires Inv(s) && !op.Write? && !op.Writable?
    ensures Inv(Step(s, op))
  {
    hide Concat, Push;
    var t := Step(s, op);
    assert Gone(t) == Gone(s) && Begun(t) == Begun(s);
    assert Conserved(t);
    assert QueueOk(t) by { hide Conserved, Begun, Numbered; }
    hide Conserved, QueueOk, Begun;
  }

  lemma StepKeeps(s: State, op: Op)
    requires Inv(s)
    ensures Inv(Step(s, op))
  {
    hide Push;
    match op
    case Write(data, saw) => if saw { WriteKeeps(s, data); }
    case Writable(room, fatal) =>
      hide QueueOk, Conserved, Numbered, DrainedOk;
      if s.phase == Waiting(true) { PushKeeps(s, room, fatal); }
    case _ => OthersKeep(s, op);
  }

  lemma {:induction false} Always(ops: seq<Op>)
    ensures Inv(Run(ops))
  {
    hide Inv, Step;
    if ops == [] {
      StartOk();
    } else {
      Always(ops[..|ops| - 1]);
      StepKeeps(Run(ops[..|ops| - 1]), ops[|ops| - 1]);
    }
  }

  lemma StartOk()
    ensures Inv(Initial)
  {
  }

  // ---------- What the client promises, in every run ----------

  /** The bytes the socket took are the removed buffers one after the other and the front buffer's first bytes. */
  /** What the writers handed in while they saw the connection up, write by write. */
  function Handed(ops: seq<Op>): seq<seq<byte>> {
    if ops == [] then []
    else
      var op := ops[|ops| - 1];
      Handed(ops[..|ops| - 1]) + if op.Write? && op.sawConnected then [op.data] else []
  }

  /** Exactly what was handed in was accepted, in this order, and the bytes sent are a beginning of it. */
  lemma {:induction false} AcceptedIsHanded(ops: seq<Op>)
    ensures Run(ops).accepted == Handed(ops)
    ensures Run(ops).sent <= Concat(Handed(ops))
  {
    SentInOrder(ops);
    if ops != [] {
      AcceptedIsHanded(ops[..|ops| - 1]);
      StepAccepts(Run(ops[..|ops| - 1]), ops[|ops| - 1]);
    }
  }

  lemma StepAccepts(s: State, op: Op)
    ensures Step(s, op).accepted
            == s.accepted + if op.Write? && op.sawConnected then [op.data] else []
  {
  }

  /** After a look the thread waits for writability if and only if not everything accepted was reported as written. */
  lemma LookAsks(ops: seq<Op>)
    requires Run(ops).phase == Looking
    ensures var s := Run(ops);
            Step(s, Look) == s.(phase := Waiting(|s.wrote| < |s.accepted|))
  {
    Always(ops);
  }

  /** A socket with room takes as much as there is room for of what is left of the write in front; with nothing left the
      write is done. One without room changes nothing, or ends the thread. */
  lemma WritableMoves(ops: seq<Op>, room: nat, fatal: bool)
    requires Run(ops).phase == Waiting(true)
    ensures var s := Run(ops);
            var t := Step(s, Writable(room, fatal));
            && |s.wrote| < |s.accepted| && |Concat(s.accepted[..|s.wrote|])| <= |s.sent|
            && var front := s.accepted[|s.wrote|];
               var rest := |Concat(s.accepted[..|s.wrote|])| + |front| - |s.sent|;
               && rest >= 0
               && if rest == 0 then t.sent == s.sent && t.phase == Removed(|front|)
                  else if room == 0 && fatal then t.sent == s.sent && t.phase == Ended && t.status == IoError
                  else t.sent == s.sent + front[|front| - rest..][..if room < rest then room else rest]
                       && t.phase == Looking
  {
    Always(ops);
    var s := Run(ops);
    FrontTaken(s);
    hide Inv, Concat;
    var f := s.queue[0];
    assert Step(s, Writable(room, fatal)) == Push(s, room, fatal);
    var n := if room < |f.bytes| - f.pos then room else |f.bytes| - f.pos;
    assert f.bytes[f.pos..][..n] == f.bytes[f.pos..f.pos + n];
  }

  lemma FrontTaken(s: State)
    requires Inv(s) && s.queue != []
    ensures |s.sent| == |Concat(s.accepted[..Gone(s)])| + s.queue[0].pos && s.queue[0].pos <= |s.queue[0].bytes|
    ensures s.queue[0].bytes == s.accepted[Gone(s)] && (!s.phase.Removed? ==> Gone(s) == |s.wrote|)
  {
    assert InText(s.queue[0]);
  }

  /** The report on everything comes exactly when everything accepted was reported. */
  lemma DrainedExactly(ops: seq<Op>)
    requires Run(ops).phase == Reported
    ensures var s := Run(ops);
            Step(s, CheckDrained)
            == s.(phase := Looking,
                  drained := if |s.wrote| == |s.accepted| then s.drained + [|s.accepted|] else s.drained)
  {
    Always(ops);
  }

  lemma BytesConserved(ops: seq<Op>)
    ensures var s := Run(ops);
            && 0 <= Gone(s) && s.sent == Concat(s.accepted[..Gone(s)]) + Begun(s)
            && (s.queue == [] ==> s.sent == Concat(s.accepted))
  {
    Always(ops);
    var s := Run(ops);
    assert s.queue == [] ==> s.accepted[..Gone(s)] == s.accepted;
  }

  /** So they are always a beginning of what the writers handed in. */
  lemma {:induction false} SentInOrder(ops: seq<Op>)
    ensures Run(ops).sent <= Concat(Run(ops).accepted)
  {
    hide Run, Step, Numbered, DrainedOk;
    Always(ops);
    var s := Run(ops);
    ConcatGrows(s.accepted, Gone(s));
    if s.queue != [] {
      ConcatGrows(s.accepted, Gone(s) + 1);
      assert s.accepted[..Gone(s) + 1][..Gone(s)] == s.accepted[..Gone(s)];
    }
  }

  lemma {:induction false} ConcatGrows(parts: seq<seq<byte>>, k: nat)
    requires k <= |parts|
    ensures Concat(parts[..k]) <= Concat(parts)
  {
    if k == |parts| {
      assert parts[..k] == parts;
    } else {
      ConcatGrows(parts[..|parts| - 1], k);
      assert parts[..|parts| - 1][..k] == parts[..k];
    }
  }

  /** The k-th OnWrote carries the number the k-th accepted write returned, and that write's size, and comes after all
      its bytes were taken. */
  lemma ReportsMatch(ops: seq<Op>, k: nat)
    requires k < |Run(ops).wrote|
    ensures var s := Run(ops);
            && k < |s.ids| == |s.accepted| && s.wrote[k] == Wrote(s.ids[k], |s.accepted[k]|)
            && Concat(s.accepted[..k + 1]) <= s.sent
  {
    hide Run, Step, Conserved, DrainedOk;
    BytesConserved(ops);
    Always(ops);
    var s := Run(ops);
    ConcatGrows(s.accepted[..Gone(s)], k + 1);
    assert s.accepted[..Gone(s)][..k + 1] == s.accepted[..k + 1];
  }

  /** OnAllWrote is reported only when the socket has taken all that was accepted until then. */
  lemma DrainedMeans(ops: seq<Op>, k: nat)
    requires k < |Run(ops).drained|
    ensures var s := Run(ops);
            s.drained[k] <= |s.accepted| && Concat(s.accepted[..s.drained[k]]) <= s.sent
  {
    Always(ops);
    var s := Run(ops);
    ConcatGrows(s.accepted[..Gone(s)], s.drained[k]);
    assert s.accepted[..Gone(s)][..s.drained[k]] == s.accepted[..s.drained[k]];
  }

  /** When the thread wakes up to write, there is a front buffer to write from. */
  lemma {:induction false} FrontIsThere(ops: seq<Op>)
    requires Run(ops).phase == Waiting(true)
    ensures Run(ops).queue != []
  {
    Always(ops);
  }

  /** What is taken once stays taken, and no accepted write is forgotten. */
  lemma Monotone(s: State, op: Op)
    ensures var t := Step(s, op);
            s.sent <= t.sent && s.accepted <= t.accepted && s.ids <= t.ids && s.wrote <= t.wrote
                && s.drained <= t.drained
  {
  }
}
