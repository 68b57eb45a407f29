/**
 glthread_once_func (lock.c, Windows part): an interlocked counter elects the one
 thread that runs the init function; the others wait for inited, first by polling,
 then by taking the lock that the elected thread holds while it initializes.
 */
module Once {
  import opened Threads

  /** Where a thread is in the call. */
  datatype Pc =
    | Outside
    | Checked        // saw inited <= 0, about to increment started
    | Elected        // first to increment; the lock not yet initialized
    | Locked         // holds the lock, inited not yet 0
    | Running        // inited is 0, init function running
    | Finished       // inited is 1, lock still held
    | Undoing        // incremented too late, about to decrement
    | Polling        // while (inited < 0)
    | Waiting        // saw inited == 0 there, about to enter the lock
    | Inside         // got the lock, about to leave it
    | Last           // the final check of inited
    | Returned
    | Aborted

  type Tid = nat

  /** calls counts the calls of the init function; owner is who holds the lock,
      |pcs| if nobody does. */
  datatype State = State(started: int, inited: int, lockReady: bool, owner: nat, calls: nat, pcs: seq<Pc>)

  function Move(s: State, t: Tid, pc: Pc): State
    requires t < |s.pcs|
  {
    s.(pcs := s.pcs[t := pc])
  }

  /** Thread t's next step, or t cannot move (it waits for the lock). */
  ghost predicate Next(s: State, t: Tid, s': State)
  {
    t < |s.pcs| &&
    match s.pcs[t]
    case Outside => s' == Move(s, t, if s.inited <= 0 then Checked else Returned)
    case Checked =>
      s' == Move(s, t, if s.started + 1 == 0 then Elected else Undoing).(started := s.started + 1)
    case Elected => s.owner == |s.pcs| && s' == Move(s, t, Locked).(lockReady := true, owner := t)
    case Locked => s' == Move(s, t, Running).(inited := 0, calls := s.calls + 1)
    case Running => s' == Move(s, t, Finished).(inited := 1)
    case Finished => s' == Move(s, t, Returned).(owner := |s.pcs|)
    case Undoing => s' == Move(s, t, Polling).(started := s.started - 1)
    case Polling =>
      s' == Move(s, t, if s.inited < 0 then Polling else if s.inited <= 0 then Waiting else Returned)
    case Waiting => s.owner == |s.pcs| && s' == Move(s, t, Inside).(owner := t)
    case Inside => s' == Move(s, t, Last).(owner := |s.pcs|)
    case Last => s' == Move(s, t, if s.inited > 0 then Returned else Aborted)
    case Returned => false
    case Aborted => false
  }

  ghost predicate Init(s: State)
  {
    && s.started == -1 && s.inited == -1 && !s.lockReady && s.owner == |s.pcs| && s.calls == 0
    && forall i :: 0 <= i < |s.pcs| ==> s.pcs[i] == Outside
  }

  ghost predicate IsRun(states: seq<State>, who: seq<Tid>)
  {
    && |states| == |who| + 1
    && Init(states[0])
    && forall i :: 0 <= i < |who| ==> Next(states[i], who[i], states[i + 1])
  }

  /** The elected thread before it has set inited to 1. */
  predicate Initializing(pc: Pc)
  {
    pc == Elected || pc == Locked || pc == Running
  }

  predicate HoldsLock(pc: Pc)
  {
    pc == Locked || pc == Running || pc == Finished || pc == Inside
  }

  /** The point the initialization has reached, as the shared variables show it. */
  datatype Stage = Before | Electing | LockTaken | InProgress | Done

  ghost function StageOf(s: State): Stage
  {
    if Count(s.pcs, Elected) > 0 then Electing
    else if Count(s.pcs, Locked) > 0 then LockTaken
    else if Count(s.pcs, Running) > 0 then InProgress
    else if s.inited > 0 then Done
    else Before
  }

  /** Threads at each point, and what the shared counters say about them. */
  ghost predicate InvCounts(s: State)
  {
    && Count(s.pcs, Aborted) == 0
    && Count(s.pcs, Elected) + Count(s.pcs, Locked) + Count(s.pcs, Running) <= 1
    && s.started == Count(s.pcs, Undoing) - 1 + (if StageOf(s) == Before then 0 else 1)
    && s.inited == (match StageOf(s) case InProgress => 0 case Done => 1 case _ => -1)
    && s.calls == (match StageOf(s) case InProgress => 1 case Done => 1 case _ => 0)
    && (StageOf(s) == Before ==> Count(s.pcs, Undoing) == 0)
    && s.lockReady == (StageOf(s) != Before && StageOf(s) != Electing)
  }

  /** Who holds the lock. */
  ghost predicate InvOwner(s: State)
  {
    && s.owner <= |s.pcs|
    && (s.owner < |s.pcs| ==> HoldsLock(s.pcs[s.owner]))
    && (forall i :: 0 <= i < |s.pcs| && HoldsLock(s.pcs[i]) ==> s.owner == i)
  }

  /** Who has seen what in inited. */
  ghost predicate InvSeen(s: State)
  {
    && (forall i :: 0 <= i < |s.pcs| && s.pcs[i] == Waiting ==> s.inited >= 0)
    && (forall i :: 0 <= i < |s.pcs| && SawInited(s.pcs[i]) ==> s.inited > 0)
  }

  predicate SawInited(pc: Pc)
  {
    pc == Inside || pc == Last || pc == Returned || pc == Finished
  }

  ghost predicate Inv(s: State)
  {
    InvCounts(s) && InvOwner(s) && InvSeen(s)
  }

  /** The change in the number of threads at x when one goes from one point to another. */
  function Change(from: Pc, to: Pc, x: Pc): int
  {
    (if to == x then 1 else 0) - (if from == x then 1 else 0)
  }

  lemma CountsUpdate(pcs: seq<Pc>, t: Tid, y: Pc)
    requires t < |pcs|
    ensures Count(pcs[t := y], Elected) == Count(pcs, Elected) + Change(pcs[t], y, Elected)
    ensures Count(pcs[t := y], Locked) == Count(pcs, Locked) + Change(pcs[t], y, Locked)
    ensures Count(pcs[t := y], Running) == Count(pcs, Running) + Change(pcs[t], y, Running)
    ensures Count(pcs[t := y], Undoing) == Count(pcs, Undoing) + Change(pcs[t], y, Undoing)
    ensures Count(pcs[t := y], Aborted) == Count(pcs, Aborted) + Change(pcs[t], y, Aborted)
    ensures Count(pcs, pcs[t]) >= 1
  {
    hide Count;
    CountPositive(pcs, t, pcs[t]);
    CountUpdate(pcs, t, y, Elected);
    CountUpdate(pcs, t, y, Locked);
    CountUpdate(pcs, t, y, Running);
    CountUpdate(pcs, t, y, Undoing);
    CountUpdate(pcs, t, y, Aborted);
  }

  lemma InvInit(s: State)
    requires Init(s)
    ensures Inv(s)
  {
    forall pc: Pc | pc != Outside
      ensures Count(s.pcs, pc) == 0
    {
      CountNone(s.pcs, pc);
    }
  }

  /** The elected thread's steps. */
  lemma ElectedCounts(s: State, t: Tid, s': State)
    requires InvCounts(s) && Next(s, t, s') && Initializing(s.pcs[t])
    ensures InvCounts(s') && s.inited <= s'.inited
  {
    hide Count;
    CountsUpdate(s.pcs, t, s'.pcs[t]);
  }

  /** The election: the first to increment is elected, any other will undo it. */
  lemma CheckedCounts(s: State, t: Tid, s': State)
    requires InvCounts(s) && Next(s, t, s') && s.pcs[t] == Checked
    ensures InvCounts(s') && s.inited <= s'.inited
  {
    hide Count;
    CountsUpdate(s.pcs, t, s'.pcs[t]);
  }

  lemma UndoingCounts(s: State, t: Tid, s': State)
    requires InvCounts(s) && Next(s, t, s') && s.pcs[t] == Undoing
    ensures InvCounts(s') && s.inited <= s'.inited
  {
    hide Count;
    CountsUpdate(s.pcs, t, s'.pcs[t]);
  }

  /** Steps that change none of the counters. */
  lemma PlainCounts(s: State, t: Tid, s': State)
    requires InvCounts(s) && Next(s, t, s') && !Initializing(s.pcs[t]) && s.pcs[t] != Checked && s.pcs[t] != Undoing
    requires s.pcs[t] == Last ==> s.inited > 0
    ensures InvCounts(s') && s.inited <= s'.inited
  {
    PlainStep(s, t, s');
    hide Count, Next, Initializing;
    CountsUpdate(s.pcs, t, s'.pcs[t]);
  }

  lemma PlainStep(s: State, t: Tid, s': State)
    requires Next(s, t, s') && !Initializing(s.pcs[t]) && s.pcs[t] != Checked && s.pcs[t] != Undoing
    requires s.pcs[t] == Last ==> s.inited > 0
    ensures s'.started == s.started && s'.inited == s.inited && s'.calls == s.calls && s'.lockReady == s.lockReady
    ensures t < |s.pcs| == |s'.pcs| && s'.pcs == s.pcs[t := s'.pcs[t]]
    ensures forall x :: x in {Elected, Locked, Running, Undoing, Aborted} ==> Change(s.pcs[t], s'.pcs[t], x) == 0
  {
  }

  lemma CountsKept(s: State, t: Tid, s': State)
    requires InvCounts(s) && Next(s, t, s')
    requires s.pcs[t] == Last ==> s.inited > 0
    ensures InvCounts(s') && s.inited <= s'.inited
  {
    hide InvCounts;
    if Initializing(s.pcs[t]) {
      ElectedCounts(s, t, s');
    } else if s.pcs[t] == Checked {
      CheckedCounts(s, t, s');
    } else if s.pcs[t] == Undoing {
      UndoingCounts(s, t, s');
    } else {
      PlainCounts(s, t, s');
    }
  }

  /** How a step moves the lock. */
  lemma OwnerStep(s: State, t: Tid, s': State)
    requires Next(s, t, s')
    ensures t < |s.pcs| == |s'.pcs| && s'.pcs == s.pcs[t := s'.pcs[t]]
    ensures HoldsLock(s'.pcs[t]) ==> s'.owner == t || (HoldsLock(s.pcs[t]) && s'.owner == s.owner)
    ensures !HoldsLock(s'.pcs[t]) && HoldsLock(s.pcs[t]) ==> s'.owner == |s.pcs|
    ensures !HoldsLock(s'.pcs[t]) && !HoldsLock(s.pcs[t]) ==> s'.owner == s.owner
    ensures HoldsLock(s'.pcs[t]) && !HoldsLock(s.pcs[t]) ==> s.owner == |s.pcs|
  {
  }

  lemma OwnerKept(s: State, t: Tid, s': State)
    requires InvOwner(s) && Next(s, t, s')
    ensures InvOwner(s')
  {
    hide Next, HoldsLock;
    OwnerStep(s, t, s');
  }

  lemma SeenKept(s: State, t: Tid, s': State)
    requires InvSeen(s) && Next(s, t, s') && s.inited <= s'.inited
    requires s.pcs[t] == Locked ==> s'.inited == 0
    requires s.pcs[t] == Waiting ==> s.inited > 0
    ensures InvSeen(s')
  {
  }

  /** inited is 0 only while the elected thread holds the lock. */
  lemma LockFreeMeansDone(s: State)
    requires Inv(s) && s.owner == |s.pcs| && s.inited >= 0
    ensures s.inited > 0
  {
    if s.inited == 0 {
      var i := CountWitness(s.pcs, Running);
    }
  }

  /** Every step keeps the invariant. */
  lemma InvNext(s: State, t: Tid, s': State)
    requires Inv(s) && Next(s, t, s')
    ensures Inv(s')
  {
    hide StageOf;
    if s.pcs[t] == Waiting && s.owner == |s.pcs| {
      LockFreeMeansDone(s);
    }
    CountsKept(s, t, s');
    OwnerKept(s, t, s');
    SeenKept(s, t, s');
  }

  lemma {:induction false} InvRun(states: seq<State>, who: seq<Tid>)
    requires IsRun(states, who)
    ensures forall i :: 0 <= i < |states| ==> Inv(states[i])
    decreases |who|
  {
    hide Inv, Next;
    if who == [] {
      InvInit(states[0]);
    } else {
      var k := |who| - 1;
      var ss, ts := states[..k + 1], who[..k];
      forall i | 0 <= i < k
        ensures Next(ss[i], ts[i], ss[i + 1])
      {
        assert ss[i] == states[i] && ss[i + 1] == states[i + 1] && ts[i] == who[i];
      }
      InvRun(ss, ts);
      assert Inv(ss[k]) && ss[k] == states[k];
      InvNext(states[k], who[k], states[k + 1]);
      forall i | 0 <= i < |states|
        ensures Inv(states[i])
      {
        if i <= k {
          assert states[i] == ss[i];
        }
      }
    }
  }

  /** In every reachable state: the init function has been called at most once; a
      thread that has returned knows that the one call is over; nobody has found
      the final check of inited failing; and the lock is entered only after it has
      been initialized. */
  lemma OnceSafety(states: seq<State>, who: seq<Tid>, k: nat, t: Tid)
    requires IsRun(states, who) && k < |states| && t < |states[k].pcs|
    ensures states[k].calls <= 1
    ensures states[k].pcs[t] == Returned ==> states[k].calls == 1 && Count(states[k].pcs, Running) == 0
    ensures states[k].pcs[t] != Aborted
    ensures HoldsLock(states[k].pcs[t]) || states[k].pcs[t] == Waiting ==> states[k].lockReady
  {
    InvRun(states, who);
    assert Inv(states[k]);
    CountPositive(states[k].pcs, t, states[k].pcs[t]);
  }
}
