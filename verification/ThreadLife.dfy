/** The life of a thread object: its owner starts, joins and destroys it while routines run and clean up. The part they
    share is counted, and whoever leaves last deletes it. */
module ThreadLife {

  datatype Stage = Created | Inside | Left

  /** A routine that was started: how far it is, and whether it was joined or detached. */
  datatype Routine = Routine(stage: Stage, joined: bool, detached: bool)

  /** The owner: outside `join`; past the flag but not yet at `pthread_join`; waiting for a thread id. */
  datatype Owner = Free | Marked | Waiting(tid: nat)

  /** `alive` is the handle; the reference has the fields from `count` on; routine `i` has thread id `i + 1`. */
  datatype State = State(
    alive: bool, owner: Owner, count: int, tid: nat, isJoined: bool, isEnded: bool, isInThread: bool,
    deletions: nat, routines: seq<Routine>)

  const Initial := State(true, Free, 1, 0, false, true, false, 0, [])

  datatype Op =
    | Begin(created: bool, leftover: nat)   // `start`; a failed `pthread_create` leaves anything in the id
    | Join(self: bool)                      // `join` up to the unlocking; `self`: called from the routine itself
    | ReadId                                // `join` reads the id again and goes to wait
    | JoinReturns
    | Destroy
    | Init                                  // the routine arrives
    | Cleanup                               // the routine leaves

  /** `RemoveRef`. */
  function Released(s: State): State {
    s.(count := s.count - 1, deletions := if s.count - 1 == 0 then s.deletions + 1 else s.deletions)
  }

  function Last(s: State): int {
    |s.routines| - 1
  }

  /** A step that nobody can take in a state changes nothing. */
  function Step(s: State, op: Op): State {
    match op
    case Begin(created, leftover) =>
      if !s.alive || s.owner != Free || !s.isEnded then s
      else
        var t := s.(isEnded := false, count := s.count + 1);
        if created then t.(tid := |s.routines| + 1, routines := s.routines + [Routine(Created, false, false)])
        else Released(t.(tid := leftover, isEnded := true))
    case Join(self) =>
      if !s.alive || s.owner != Free || self || s.isEnded then s
      else s.(isJoined := true, owner := Marked)
    case ReadId => if s.owner != Marked then s else s.(owner := Waiting(s.tid))
    case JoinReturns =>
      if !s.owner.Waiting? || !(0 < s.owner.tid <= |s.routines|) || s.routines[s.owner.tid - 1].stage != Left then s
      else s.(owner := Free, routines := s.routines[s.owner.tid - 1 := s.routines[s.owner.tid - 1].(joined := true)])
    case Destroy => if !s.alive || s.owner != Free then s else Released(s.(alive := false))
    case Init =>
      if Last(s) < 0 || s.routines[Last(s)].stage != Created then s
      else s.(isInThread := true, routines := s.routines[Last(s) := s.routines[Last(s)].(stage := Inside)])
    case Cleanup =>
      if Last(s) < 0 || s.routines[Last(s)].stage != Inside then s
      else
        Released(s.(isInThread := false, isEnded := true, isJoined := false,
                    routines := s.routines[Last(s) := Routine(Left, s.routines[Last(s)].joined, !s.isJoined)]))
  }

  function Run(ops: seq<Op>): State {
    if ops == [] then Initial else Step(Run(ops[..|ops| - 1]), ops[|ops| - 1])
  }

  // ---------- What holds in every state ----------

  /** The routine started last has not cleaned up. */
  predicate Live(s: State) {
    Last(s) >= 0 && s.routines[Last(s)].stage != Left
  }

  function One(b: bool): int {
    if b then 1 else 0
  }

  ghost predicate Counted(s: State) {
    && s.count == One(s.alive) + One(Live(s))
    && s.deletions == One(s.count == 0)
    && (s.isEnded <==> !Live(s))
    && (s.isInThread <==> Live(s) && s.routines[Last(s)].stage == Inside)
    && (Live(s) ==> s.tid == |s.routines|)
    && (forall i :: 0 <= i < Last(s) ==> s.routines[i].stage == Left)
  }

  /** The owner is in `join`, for this routine. */
  ghost predicate Claimed(s: State, i: int) {
    s.owner != Free && i == Last(s)
  }

  ghost predicate Claims(s: State) {
    && (s.owner != Free ==> s.alive && Last(s) >= 0 && s.tid == |s.routines|)
    && (s.owner.Waiting? ==> s.owner.tid == |s.routines|)
    && (s.isJoined <==> Live(s) && s.owner != Free)
  }

  ghost predicate Settled(s: State) {
    forall i :: 0 <= i < |s.routines| ==>
      var r := s.routines[i];
      if r.stage == Left then (if r.detached then !r.joined && !Claimed(s, i) else r.joined != Claimed(s, i))
      else !r.detached && !r.joined
  }

  ghost predicate Inv(s: State) {
    Counted(s) && Claims(s) && Settled(s)
  }

  lemma StepKeeps(s: State, op: Op)
    requires Inv(s)
    ensures Inv(Step(s, op))
  {
  }

  /** Whatever the owner and the routines do and in whatever order, with any number of restarts, the invariant holds. */
  lemma {:induction false} Always(ops: seq<Op>)
    ensures Inv(Run(ops))
  {
    if ops != [] {
      Always(ops[..|ops| - 1]);
      StepKeeps(Run(ops[..|ops| - 1]), ops[|ops| - 1]);
    }
  }

  // ---------- What follows, in every run ----------

  /** The count is the handle, if it is there, and the routine that has not cleaned up, if there is one. The reference
      is deleted when both are gone, once, and not before. */
  lemma DeletedOnce(ops: seq<Op>)
    ensures var s := Run(ops);
            && s.count == One(s.alive) + One(SomeRuns(s))
            && s.deletions == One(!s.alive && !SomeRuns(s))
  {
    Always(ops);
    OnlyLastRuns(Run(ops));
  }

  /** A start while no routine runs adds exactly one, with its own id, if it succeeds, and none otherwise. */
  lemma StartAdds(ops: seq<Op>, created: bool, leftover: nat)
    requires Run(ops).alive && Run(ops).owner == Free
    ensures var s := Run(ops);
            var t := Step(s, Begin(created, leftover));
            if !SomeRuns(s) && created
            then t.routines == s.routines + [Routine(Created, false, false)] && t.tid == |t.routines| && !t.isEnded
            else t.routines == s.routines && t.isEnded == s.isEnded && t.count == s.count
  {
    Always(ops);
    OnlyLastRuns(Run(ops));
  }

  /** A join of a running routine, not from itself, marks it and waits for it. */
  lemma JoinMarks(ops: seq<Op>)
    requires Run(ops).alive && Run(ops).owner == Free
    ensures var s := Run(ops);
            var t := Step(s, Join(false));
            && (SomeRuns(s) ==> t == s.(isJoined := true, owner := Marked)
                                && Step(t, ReadId).owner == Waiting(|s.routines|))
            && (!SomeRuns(s) ==> t == s)
            && Step(s, Join(true)) == s
  {
    Always(ops);
    OnlyLastRuns(Run(ops));
  }

  /** A routine detaches itself when it leaves if and only if the owner is not in `join`; and a join returns only when
      its routine has left. */
  lemma DetachedExactly(ops: seq<Op>)
    ensures var s := Run(ops);
            && (Last(s) >= 0 && s.routines[Last(s)].stage == Inside ==>
                  Step(s, Cleanup).routines == s.routines[Last(s) := Routine(Left, false, s.owner == Free)])
            && (s.owner.Waiting? ==>
                  && Last(s) >= 0
                  && (Step(s, JoinReturns).owner == Free <==> s.routines[Last(s)].stage == Left))
  {
    Always(ops);
  }

  /** A routine that was started has not cleaned up. */
  ghost predicate SomeRuns(s: State) {
    exists i :: 0 <= i < |s.routines| && s.routines[i].stage != Left
  }

  lemma OnlyLastRuns(s: State)
    requires Inv(s)
    ensures SomeRuns(s) <==> Live(s)
  {
    hide Claims, Settled;
    if Live(s) {
      assert s.routines[Last(s)].stage != Left;
    }
  }

  /** Somebody is in a position to take the step, and reads or changes the reference by it: the owner through the
      handle, also when there is nothing to start or to join, or a routine. The wait in `join` touches only the
      thread. */
  predicate Touches(s: State, op: Op) {
    match op
    case Begin(_, _) => s.alive && s.owner == Free
    case Join(_) => s.alive && s.owner == Free
    case ReadId => s.owner == Marked
    case JoinReturns => false
    case Destroy => s.alive && s.owner == Free
    case Init => Last(s) >= 0 && s.routines[Last(s)].stage == Created
    case Cleanup => Last(s) >= 0 && s.routines[Last(s)].stage == Inside
  }

  /** Whoever touches the reference finds it there: it has not been deleted. */
  lemma NotTouchedAfter(ops: seq<Op>, op: Op)
    requires Touches(Run(ops), op)
    ensures Run(ops).deletions == 0
  {
    Always(ops);
  }

  /** A step that nobody can take changes nothing, and the end of a wait changes nothing of the reference. */
  lemma OnlyTouchingChanges(s: State, op: Op)
    requires !Touches(s, op)
    ensures var t := Step(s, op);
            && t.count == s.count && t.tid == s.tid && t.isJoined == s.isJoined && t.isEnded == s.isEnded
            && t.isInThread == s.isInThread && t.deletions == s.deletions && t.alive == s.alive
  {
  }

  /** A routine that has left was joined or detached, never both, and one of the two unless the owner waits for it. */
  lemma JoinedOrDetached(ops: seq<Op>, i: nat)
    requires i < |Run(ops).routines| && Run(ops).routines[i].stage == Left
    ensures var s := Run(ops);
            && !(s.routines[i].joined && s.routines[i].detached)
            && (s.routines[i].joined || s.routines[i].detached || (s.owner != Free && i == |s.routines| - 1))
  {
    Always(ops);
  }

  /** One that runs is neither yet. */
  lemma NeitherBefore(ops: seq<Op>, i: nat)
    requires i < |Run(ops).routines| && Run(ops).routines[i].stage != Left
    ensures !Run(ops).routines[i].joined && !Run(ops).routines[i].detached && i == |Run(ops).routines| - 1
  {
    Always(ops);
  }

  /** The id that `join` reads after it gave up the lock is the one it would have read before, and its routine has not
      been joined and will not be detached. */
  lemma JoinWaitsForIt(ops: seq<Op>)
    requires Run(ops).owner.Waiting?
    ensures var s := Run(ops);
            && 0 < s.owner.tid == |s.routines|
            && !s.routines[s.owner.tid - 1].joined && !s.routines[s.owner.tid - 1].detached
  {
    Always(ops);
    var s := Run(ops);
    assert Claimed(s, s.owner.tid - 1);
  }

  /** What the code asserts: on entry to `join`, in `init`, in `cleanup`, and when the reference is deleted. */
  lemma AssertionsHold(ops: seq<Op>)
    ensures var s := Run(ops);
            && (s.owner == Free ==> !s.isJoined)
            && (Live(s) && s.routines[Last(s)].stage == Created ==> !s.isInThread)
            && (Live(s) && s.routines[Last(s)].stage == Inside ==> s.isInThread && s.tid != 0)
            && s.count >= 0 && (s.deletions > 0 ==> s.count == 0 && s.isEnded)
  {
    Always(ops);
  }
}

/** The object itself; each method is one stretch of code under the spin lock and takes the step of the same name. */
module Threads {
  import opened ThreadLife

  class Thread {
    var count: int
    var tid: nat
    var isJoined: bool
    var isEnded: bool
    var isInThread: bool
    ghost var alive: bool
    ghost var owner: Owner
    ghost var deletions: nat
    ghost var routines: seq<Routine>

    ghost function View(): State
      reads this
    {
      State(alive, owner, count, tid, isJoined, isEnded, isInThread, deletions, routines)
    }

    constructor ()
      ensures View() == Initial
    {
      count, tid, isJoined, isEnded, isInThread := 0, 0, false, true, false;
      alive, owner, deletions, routines := true, Free, 0, [];
      new;
      count := count + 1;
    }

    method RemoveRef()
      modifies this`count, this`deletions
      ensures View() == Released(old(View()))
    {
      count := count - 1;
      var willDelete := count == 0;
      if willDelete {
        deletions := deletions + 1;
      }
    }

    /** `start`. `created` and `id` are what `pthread_create` answers. */
    method Start(created: bool, id: nat) returns (newOne: bool)
      requires alive && owner == Free && (created ==> id == |routines| + 1)
      modifies this
      ensures View() == Step(old(View()), Begin(created, id))
      ensures newOne == old(isEnded)
    {
      newOne := false;
      if !isEnded { return; }
      isEnded := false;
      count := count + 1;
      tid := id;
      newOne := true;
      if created {
        routines := routines + [Routine(Created, false, false)];
      } else {
        isEnded := true;
        RemoveRef();
      }
    }

    /** `join` up to where it waits; `current` is the id of the calling thread. */
    method JoinThread(current: nat) returns (waits: bool)
      requires alive && owner == Free
      modifies this`isJoined, this`owner
      ensures View() == Step(old(View()), Join(current == tid))
      ensures waits <==> current != tid && !isEnded
    {
      waits := false;
      if tid == current { return; }
      if !isEnded {
        isJoined := true;
        owner := Marked;
        waits := true;
      }
    }

    method ReadThreadId() returns (id: nat)
      requires owner == Marked
      modifies this`owner
      ensures View() == Step(old(View()), ReadId) && id == tid
    {
      id := tid;
      owner := Waiting(id);
    }

    method Drop()
      requires alive && owner == Free
      modifies this
      ensures View() == Step(old(View()), Destroy)
    {
      alive := false;
      RemoveRef();
    }

    method RoutineInit()
      requires Last(View()) >= 0 && routines[Last(View())].stage == Created
      modifies this`isInThread, this`routines
      ensures View() == Step(old(View()), Init)
    {
      isInThread := true;
      routines := routines[|routines| - 1 := routines[|routines| - 1].(stage := Inside)];
    }

    method RoutineCleanup() returns (detach: bool)
      requires Last(View()) >= 0 && routines[Last(View())].stage == Inside
      modifies this
      ensures View() == Step(old(View()), Cleanup) && detach == !old(isJoined)
    {
      isInThread := false;
      isEnded := true;
      detach := !isJoined;
      isJoined := false;
      routines := routines[|routines| - 1 := Routine(Left, routines[|routines| - 1].joined, detach)];
      RemoveRef();
    }
  }
}
