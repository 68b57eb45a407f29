/**
 The read-write lock on a mutex and two condition variables, with priority for
 writers (lock.c, POSIX part).  Each critical section is one step; waiting on a
 condition variable releases the mutex and ends the section, so a woken thread
 re-tests its condition in a section of its own.  Wakeups may be spurious, and
 threads that come later may take the lock before a woken one.
 */
module CondRwLock {
  import opened Threads

  /** Where a thread is. */
  datatype Pc =
    | Idle
    | Reading | Writing
    | ReaderAsleep | ReaderAwake
    | WriterAsleep | WriterAwake

  /** INT_MAX: runcount is a 32-bit signed integer. */
  const INT_MAX: int := 0x7FFF_FFFF

  /** x + 1 in 32-bit two's complement. */
  function Inc32(x: int): int
  {
    if x == INT_MAX then -INT_MAX - 1 else x + 1
  }

  datatype State = State(runcount: int, waitingWriters: nat, pcs: seq<Pc>) {

    predicate ReaderMayRun() { Inc32(runcount) > 0 && waitingWriters == 0 }

    predicate WriterMayRun() { runcount == 0 }
  }

  type Tid = nat

  datatype Step =
    | RdLock(t: Tid)             // rdlock called, first test of the loop
    | RdResume(t: Tid)           // rdlock returns from pthread_cond_wait
    | WrLock(t: Tid)
    | WrResume(t: Tid)
    | Unlock(t: Tid, woken: set<Tid>)  // with the threads a signal or broadcast wakes
    | Spurious(t: Tid)

  /** The read-lock loop test: acquire or (go back to) sleep. */
  function TryRead(s: State, t: Tid): State
    requires t < |s.pcs|
  {
    if s.ReaderMayRun() then s.(runcount := s.runcount + 1, pcs := s.pcs[t := Reading])
    else s.(pcs := s.pcs[t := ReaderAsleep])
  }

  /** The write-lock loop test.  A thread counts as a waiting writer from before
      it sleeps until after it has woken and got the mutex back. */
  function TryWrite(s: State, t: Tid): State
    requires t < |s.pcs|
  {
    if s.WriterMayRun() then s.(runcount := s.runcount - 1, pcs := s.pcs[t := Writing])
    else s.(waitingWriters := s.waitingWriters + 1, pcs := s.pcs[t := WriterAsleep])
  }

  /** unlock up to the wakeups. */
  function Drop(s: State, t: Tid): State
    requires t < |s.pcs|
  {
    s.(runcount := if s.runcount < 0 then 0 else s.runcount - 1, pcs := s.pcs[t := Idle])
  }

  function Wake(pcs: seq<Pc>, woken: set<Tid>, asleep: Pc, awake: Pc): (r: seq<Pc>)
    ensures |r| == |pcs|
  {
    seq(|pcs|, i requires 0 <= i < |pcs| => if i in woken && pcs[i] == asleep then awake else pcs[i])
  }

  /** What pthread_cond_signal on waiting_writers or pthread_cond_broadcast on
      waiting_readers may wake: at least one sleeping writer, if there is one, or
      all sleeping readers. */
  ghost predicate MayWake(s: State, woken: set<Tid>)
  {
    if s.runcount != 0 then woken == {}
    else if s.waitingWriters > 0 then
      (forall i :: i in woken ==> i < |s.pcs| && s.pcs[i] == WriterAsleep) &&
      ((exists i :: 0 <= i < |s.pcs| && s.pcs[i] == WriterAsleep) ==> woken != {})
    else
      forall i :: i in woken <==> 0 <= i < |s.pcs| && s.pcs[i] == ReaderAsleep
  }

  function Signalled(s: State, woken: set<Tid>): State
  {
    if s.runcount != 0 then s
    else if s.waitingWriters > 0 then s.(pcs := Wake(s.pcs, woken, WriterAsleep, WriterAwake))
    else s.(pcs := Wake(s.pcs, woken, ReaderAsleep, ReaderAwake))
  }

  ghost predicate Next(s: State, step: Step, s': State)
  {
    step.t < |s.pcs| &&
    match step
    case RdLock(t) => s.pcs[t] == Idle && s' == TryRead(s, t)
    case RdResume(t) => s.pcs[t] == ReaderAwake && s' == TryRead(s, t)
    case WrLock(t) => s.pcs[t] == Idle && s' == TryWrite(s, t)
    case WrResume(t) =>
      && s.pcs[t] == WriterAwake && s.waitingWriters > 0
      && s' == TryWrite(s.(waitingWriters := s.waitingWriters - 1), t)
    case Unlock(t, woken) =>
      && (s.pcs[t] == Reading || s.pcs[t] == Writing)
      && MayWake(Drop(s, t), woken) && s' == Signalled(Drop(s, t), woken)
    case Spurious(t) =>
      || (s.pcs[t] == ReaderAsleep && s' == s.(pcs := s.pcs[t := ReaderAwake]))
      || (s.pcs[t] == WriterAsleep && s' == s.(pcs := s.pcs[t := WriterAwake]))
  }

  ghost predicate Init(s: State)
  {
    s.runcount == 0 && s.waitingWriters == 0 && forall i :: 0 <= i < |s.pcs| ==> s.pcs[i] == Idle
  }

  /** A run: states linked by steps. */
  ghost predicate IsRun(states: seq<State>, steps: seq<Step>)
  {
    && |states| == |steps| + 1
    && Init(states[0])
    && forall i :: 0 <= i < |steps| ==> Next(states[i], steps[i], states[i + 1])
  }

  // ------------------------------------------------------------- invariants

  ghost predicate Asleep(s: State)
  {
    exists i :: 0 <= i < |s.pcs| && (s.pcs[i] == ReaderAsleep || s.pcs[i] == WriterAsleep)
  }

  ghost predicate Inv(s: State)
  {
    && -1 <= s.runcount <= INT_MAX
    && Count(s.pcs, Writing) == (if s.runcount < 0 then 1 else 0)
    && Count(s.pcs, Reading) == (if s.runcount < 0 then 0 else s.runcount)
    && s.waitingWriters == Count(s.pcs, WriterAsleep) + Count(s.pcs, WriterAwake)
    && (s.runcount == 0 && Asleep(s) ==> Count(s.pcs, WriterAwake) >= 1)
  }

  lemma InvInit(s: State)
    requires Init(s)
    ensures Inv(s)
  {
    CountNone(s.pcs, Writing);
    CountNone(s.pcs, Reading);
    CountNone(s.pcs, WriterAsleep);
    CountNone(s.pcs, WriterAwake);
  }

  /** How one thread's move changes the four counts of the invariant. */
  lemma CountsUpdate(pcs: seq<Pc>, t: Tid, y: Pc)
    requires t < |pcs|
    ensures forall x :: x in {Reading, Writing, WriterAsleep, WriterAwake} ==>
      Count(pcs[t := y], x) == Count(pcs, x) - (if pcs[t] == x then 1 else 0) + (if y == x then 1 else 0)
  {
    CountUpdate(pcs, t, y, Reading);
    CountUpdate(pcs, t, y, Writing);
    CountUpdate(pcs, t, y, WriterAsleep);
    CountUpdate(pcs, t, y, WriterAwake);
  }

  lemma InvTryRead(s: State, t: Tid)
    requires Inv(s) && t < |s.pcs| && (s.pcs[t] == Idle || s.pcs[t] == ReaderAwake)
    ensures Inv(TryRead(s, t))
  {
    var s' := TryRead(s, t);
    CountsUpdate(s.pcs, t, s'.pcs[t]);
    if !s.ReaderMayRun() && s.runcount == 0 {
      if Count(s.pcs, WriterAsleep) >= 1 {
        var i := CountWitness(s.pcs, WriterAsleep);
        assert Asleep(s);
      }
    }
  }

  lemma InvTryWrite(s: State, t: Tid)
    requires t < |s.pcs|
    requires
      || (s.pcs[t] == Idle && Inv(s))
      || (s.pcs[t] == WriterAwake && Inv(s.(waitingWriters := s.waitingWriters + 1)))
    ensures Inv(TryWrite(s, t))
  {
    var s' := TryWrite(s, t);
    CountsUpdate(s.pcs, t, s'.pcs[t]);
  }

  lemma InvUnlock(s: State, t: Tid, woken: set<Tid>)
    requires Inv(s) && t < |s.pcs| && (s.pcs[t] == Reading || s.pcs[t] == Writing)
    requires MayWake(Drop(s, t), woken)
    ensures Inv(Signalled(Drop(s, t), woken))
  {
    var d := Drop(s, t);
    CountsUpdate(s.pcs, t, Idle);
    CountPositive(s.pcs, t, s.pcs[t]);
    if d.runcount == 0 {
      if d.waitingWriters > 0 {
        InvSignal(d, woken);
      } else {
        InvBroadcast(d, woken);
      }
    }
  }

  lemma InvSignal(d: State, woken: set<Tid>)
    requires d.runcount == 0 && d.waitingWriters > 0 && MayWake(d, woken)
    requires Count(d.pcs, Writing) == 0 && Count(d.pcs, Reading) == 0
    requires d.waitingWriters == Count(d.pcs, WriterAsleep) + Count(d.pcs, WriterAwake)
    ensures Inv(Signalled(d, woken))
  {
    var pcs' := Signalled(d, woken).pcs;
    CountSame(d.pcs, pcs', Reading);
    CountSame(d.pcs, pcs', Writing);
    CountMoved(d.pcs, pcs', WriterAsleep, WriterAwake);
    if woken != {} {
      var i :| i in woken;
      CountPositive(pcs', i, WriterAwake);
    } else if Count(d.pcs, WriterAsleep) >= 1 {
      var i := CountWitness(d.pcs, WriterAsleep);
    }
  }

  lemma InvBroadcast(d: State, woken: set<Tid>)
    requires d.runcount == 0 && d.waitingWriters == 0 && MayWake(d, woken)
    requires Count(d.pcs, Writing) == 0 && Count(d.pcs, Reading) == 0
    requires d.waitingWriters == Count(d.pcs, WriterAsleep) + Count(d.pcs, WriterAwake)
    ensures Inv(Signalled(d, woken))
  {
    var pcs' := Signalled(d, woken).pcs;
    CountSame(d.pcs, pcs', Reading);
    CountSame(d.pcs, pcs', Writing);
    CountSame(d.pcs, pcs', WriterAsleep);
    CountSame(d.pcs, pcs', WriterAwake);
    if Asleep(Signalled(d, woken)) {
      var i :| 0 <= i < |pcs'| && (pcs'[i] == ReaderAsleep || pcs'[i] == WriterAsleep);
      if pcs'[i] == WriterAsleep {
        CountPositive(d.pcs, i, WriterAsleep);
      }
    }
  }

  lemma InvSpurious(s: State, t: Tid, y: Pc)
    requires Inv(s) && t < |s.pcs|
    requires (s.pcs[t] == ReaderAsleep && y == ReaderAwake) || (s.pcs[t] == WriterAsleep && y == WriterAwake)
    ensures Inv(s.(pcs := s.pcs[t := y]))
  {
    CountsUpdate(s.pcs, t, y);
  }

  /** Every step keeps the invariant. */
  lemma InvNext(s: State, step: Step, s': State)
    requires Inv(s) && Next(s, step, s')
    ensures Inv(s')
  {
    match step
    case RdLock(t) => InvTryRead(s, t);
    case RdResume(t) => InvTryRead(s, t);
    case WrLock(t) => InvTryWrite(s, t);
    case WrResume(t) => InvTryWrite(s.(waitingWriters := s.waitingWriters - 1), t);
    case Unlock(t, woken) => InvUnlock(s, t, woken);
    case Spurious(t) => InvSpurious(s, t, s'.pcs[t]);
  }

  lemma {:induction false} InvRun(states: seq<State>, steps: seq<Step>)
    requires IsRun(states, steps)
    ensures forall i :: 0 <= i < |states| ==> Inv(states[i])
    decreases |steps|
  {
    if steps == [] {
      InvInit(states[0]);
    } else {
      var n := |steps| - 1;
      assert forall i :: 0 <= i < n ==> Next(states[..n + 1][i], steps[..n][i], states[..n + 1][i + 1]);
      InvRun(states[..n + 1], steps[..n]);
      assert Inv(states[..n + 1][n]);
      InvNext(states[n], steps[n], states[n + 1]);
      forall i | 0 <= i < |states|
        ensures Inv(states[i])
      {
        if i <= n {
          assert states[i] == states[..n + 1][i];
        }
      }
    }
  }

  // ------------------------------------------------------------ what follows

  /** In every reachable state: one writer and no reader, or no writer and exactly
      runcount readers. */
  lemma MutualExclusion(states: seq<State>, steps: seq<Step>, k: nat, i: Tid, j: Tid)
    requires IsRun(states, steps) && k < |states|
    requires i < |states[k].pcs| && j < |states[k].pcs| && i != j
    ensures states[k].pcs[i] == Writing ==> states[k].pcs[j] != Writing && states[k].pcs[j] != Reading
    ensures states[k].runcount >= 0 ==> Count(states[k].pcs, Reading) == states[k].runcount
    ensures states[k].runcount < 0 ==> states[k].runcount == -1 && Count(states[k].pcs, Writing) == 1
  {
    InvRun(states, steps);
    var s := states[k];
    assert Inv(s);
    if s.pcs[i] == Writing {
      CountPositive(s.pcs, i, Writing);
      if s.pcs[j] == Writing {
        CountTwo(s.pcs, if i < j then i else j, if i < j then j else i, Writing);
      } else if s.pcs[j] == Reading {
        CountPositive(s.pcs, j, Reading);
      }
    }
  }

  // ------------------------------------------- who gets the lock, by thread counts

  /** In every run a reader is granted the lock, at once or after waking up, exactly if
      no thread writes, none wants to write, and the readers have not reached INT_MAX;
      otherwise it sleeps. */
  lemma ReaderDecision(states: seq<State>, steps: seq<Step>, k: nat)
    requires IsRun(states, steps) && k < |steps| && (steps[k].RdLock? || steps[k].RdResume?)
    ensures var pcs, t, pc := states[k].pcs, steps[k].t, states[k + 1].pcs[steps[k].t];
      && states[k + 1].pcs == pcs[t := pc] && (pc == Reading || pc == ReaderAsleep)
      && (pc == Reading <==>
            && Count(pcs, Writing) == 0
            && Count(pcs, WriterAsleep) + Count(pcs, WriterAwake) == 0
            && Count(pcs, Reading) < 0x7FFF_FFFF)
  {
    hide Count;
    InvRun(states, steps);
    assert Inv(states[k]) && Next(states[k], steps[k], states[k + 1]);
  }

  /** A writer is granted the lock exactly if no thread writes or reads; otherwise it
      sleeps. */
  lemma WriterDecision(states: seq<State>, steps: seq<Step>, k: nat)
    requires IsRun(states, steps) && k < |steps| && (steps[k].WrLock? || steps[k].WrResume?)
    ensures var pcs, t, pc := states[k].pcs, steps[k].t, states[k + 1].pcs[steps[k].t];
      && states[k + 1].pcs == pcs[t := pc] && (pc == Writing || pc == WriterAsleep)
      && (pc == Writing <==> Count(pcs, Writing) == 0 && Count(pcs, Reading) == 0)
  {
    hide Count;
    InvRun(states, steps);
    assert Inv(states[k]) && Next(states[k], steps[k], states[k + 1]);
  }

  /** Whom an unlock wakes: nobody while other readers hold the lock; else, if a thread
      wants to write, sleeping writers only, and one at least; else all sleeping
      readers. */
  lemma UnlockDecision(states: seq<State>, steps: seq<Step>, k: nat)
    requires IsRun(states, steps) && k < |steps| && steps[k].Unlock?
    ensures var pcs, pcs', t := states[k].pcs, states[k + 1].pcs, steps[k].t;
      && |pcs'| == |pcs| && pcs'[t] == Idle
      && (Count(pcs, Reading) > 1 ==> pcs' == pcs[t := Idle])
      && (Count(pcs, Reading) <= 1 && Count(pcs, WriterAsleep) + Count(pcs, WriterAwake) > 0 ==>
            && (forall i :: 0 <= i < |pcs| && i != t ==>
                  pcs'[i] == pcs[i] || (pcs[i] == WriterAsleep && pcs'[i] == WriterAwake))
            && ((exists i :: 0 <= i < |pcs| && pcs[i] == WriterAsleep) ==>
                  exists i :: 0 <= i < |pcs| && pcs[i] == WriterAsleep && pcs'[i] == WriterAwake))
      && (Count(pcs, Reading) <= 1 && Count(pcs, WriterAsleep) + Count(pcs, WriterAwake) == 0 ==>
            forall i :: 0 <= i < |pcs| && i != t ==>
              pcs'[i] == if pcs[i] == ReaderAsleep then ReaderAwake else pcs[i])
  {
    InvRun(states, steps);
    var s, step, s' := states[k], steps[k], states[k + 1];
    assert Inv(s) && Next(s, step, s');
    CountPositive(s.pcs, step.t, s.pcs[step.t]);
    UnlockWakes(s, step.t, step.woken);
  }

  lemma UnlockWakes(s: State, t: Tid, woken: set<Tid>)
    requires t < |s.pcs| && (s.pcs[t] == Reading || s.pcs[t] == Writing) && MayWake(Drop(s, t), woken)
    ensures var s' := Signalled(Drop(s, t), woken); var d := Drop(s, t).runcount;
      && |s'.pcs| == |s.pcs| && s'.pcs[t] == Idle
      && (d != 0 ==> s'.pcs == s.pcs[t := Idle])
      && (d == 0 && s.waitingWriters > 0 ==>
            && (forall i :: 0 <= i < |s.pcs| && i != t ==>
                  s'.pcs[i] == s.pcs[i] || (s.pcs[i] == WriterAsleep && s'.pcs[i] == WriterAwake))
            && ((exists i :: 0 <= i < |s.pcs| && s.pcs[i] == WriterAsleep) ==>
                  exists i :: 0 <= i < |s.pcs| && s.pcs[i] == WriterAsleep && s'.pcs[i] == WriterAwake))
      && (d == 0 && s.waitingWriters == 0 ==>
            forall i :: 0 <= i < |s.pcs| && i != t ==>
              s'.pcs[i] == if s.pcs[i] == ReaderAsleep then ReaderAwake else s.pcs[i])
  {
    var d := Drop(s, t);
    if d.runcount == 0 && s.waitingWriters > 0 {
      if i :| 0 <= i < |s.pcs| && s.pcs[i] == WriterAsleep {
        assert d.pcs[i] == WriterAsleep;
        var j :| j in woken;
        assert Signalled(d, woken).pcs[j] == WriterAwake;
      }
    }
  }

  /** No wakeup is lost: whenever a thread sleeps although nobody holds the lock,
      some woken writer exists and gets the lock as soon as it runs. */
  lemma NoLostWakeup(states: seq<State>, steps: seq<Step>, k: nat) returns (t: Tid, s': State)
    requires IsRun(states, steps) && k < |states|
    requires states[k].runcount == 0 && Asleep(states[k])
    ensures Next(states[k], WrResume(t), s') && t < |s'.pcs| && s'.pcs[t] == Writing
  {
    InvRun(states, steps);
    var s := states[k];
    assert Inv(s);
    t := CountWitness(s.pcs, WriterAwake);
    s' := TryWrite(s.(waitingWriters := s.waitingWriters - 1), t);
  }

  ghost predicate HoldsOrCanTake(s: State, t: Tid)
    requires t < |s.pcs|
  {
    s.pcs[t] == Reading || s.pcs[t] == Writing || (s.pcs[t] == WriterAwake && s.WriterMayRun())
  }

  /** The lock is never stuck: if a thread sleeps, somebody holds the lock (and
      will unlock it) or a woken writer can take it. */
  lemma NeverStuck(states: seq<State>, steps: seq<Step>, k: nat)
    requires IsRun(states, steps) && k < |states| && Asleep(states[k])
    ensures exists t :: 0 <= t < |states[k].pcs| && HoldsOrCanTake(states[k], t)
  {
    InvRun(states, steps);
    var s := states[k];
    assert Inv(s);
    if s.runcount == 0 {
      var t := CountWitness(s.pcs, WriterAwake);
      assert HoldsOrCanTake(s, t);
    } else if s.runcount < 0 {
      var t := CountWitness(s.pcs, Writing);
      assert HoldsOrCanTake(s, t);
    } else {
      var t := CountWitness(s.pcs, Reading);
      assert HoldsOrCanTake(s, t);
    }
  }

  // ------------------------------------------------ the critical sections

  datatype RdOutcome = Acquired | MustWait
  datatype Errno = OK | EINVAL
  datatype Wakeup = None | SignalOneWriter | BroadcastReaders

  /** The lock's own fields, with each critical section as a method. */
  class RwLock {
    var runcount: int
    var waitingWritersCount: nat

    /** The state of which this lock is the part in memory. */
    ghost predicate Is(s: State)
      reads this
    {
      runcount == s.runcount && waitingWritersCount == s.waitingWriters
    }

    /** One test of the loop in glthread_rwlock_rdlock_multithreaded. */
    method RdTest(ghost s: State, t: Tid) returns (o: RdOutcome)
      requires t < |s.pcs| && Is(s)
      modifies this
      ensures Is(TryRead(s, t))
      ensures s.pcs[t] == Idle ==> Next(s, RdLock(t), TryRead(s, t))
      ensures s.pcs[t] == ReaderAwake ==> Next(s, RdResume(t), TryRead(s, t))
      ensures o == Acquired <==> TryRead(s, t).pcs[t] == Reading
      ensures o == MustWait <==> TryRead(s, t).pcs[t] == ReaderAsleep
    {
      if !(Inc32(runcount) > 0 && waitingWritersCount == 0) {
        return MustWait;
      }
      runcount := runcount + 1;
      return Acquired;
    }

    /** One test of the loop in glthread_rwlock_wrlock_multithreaded; woken says
        that the thread comes back from pthread_cond_wait. */
    method WrTest(ghost s: State, t: Tid, woken: bool) returns (o: RdOutcome)
      requires t < |s.pcs| && Is(s) && (woken ==> s.waitingWriters > 0)
      modifies this
      ensures var s1 := if woken then s.(waitingWriters := s.waitingWriters - 1) else s;
        && Is(TryWrite(s1, t))
        && (o == Acquired <==> TryWrite(s1, t).pcs[t] == Writing)
        && (o == MustWait <==> TryWrite(s1, t).pcs[t] == WriterAsleep)
        && (s.pcs[t] == Idle && !woken ==> Next(s, WrLock(t), TryWrite(s1, t)))
        && (s.pcs[t] == WriterAwake && woken ==> Next(s, WrResume(t), TryWrite(s1, t)))
    {
      if woken {
        waitingWritersCount := waitingWritersCount - 1;
      }
      if !(runcount == 0) {
        waitingWritersCount := waitingWritersCount + 1;
        return MustWait;
      }
      runcount := runcount - 1;
      return Acquired;
    }

    /** glthread_rwlock_unlock_multithreaded, up to the call that wakes threads.
        Unlocking a lock that nobody holds is an error and changes nothing. */
    method Unlock(ghost s: State, t: Tid) returns (e: Errno, w: Wakeup)
      requires t < |s.pcs| && Is(s)
      modifies this
      ensures e == EINVAL <==> s.runcount == 0 || s.runcount < -1
      ensures e == EINVAL ==> Is(s) && w == None
      ensures e == OK ==> Is(Drop(s, t))
      ensures e == OK ==> var d := Drop(s, t);
        w == if d.runcount != 0 then None else if d.waitingWriters > 0 then SignalOneWriter else BroadcastReaders
      ensures e == OK && (s.pcs[t] == Reading || s.pcs[t] == Writing) ==>
        forall woken :: MayWake(Drop(s, t), woken) ==> Next(s, Step.Unlock(t, woken), Signalled(Drop(s, t), woken))
    {
      w := None;
      if runcount < 0 {
        if !(runcount == -1) {
          return EINVAL, w;
        }
        runcount := 0;
      } else {
        if !(runcount > 0) {
          return EINVAL, w;
        }
        runcount := runcount - 1;
      }
      if runcount == 0 {
        if waitingWritersCount > 0 {
          w := SignalOneWriter;
        } else {
          w := BroadcastReaders;
        }
      }
      e := OK;
    }
  }

  /** A thread that holds the lock never gets the error. */
  lemma HolderUnlocks(states: seq<State>, steps: seq<Step>, k: nat, t: Tid)
    requires IsRun(states, steps) && k < |states| && t < |states[k].pcs|
    requires states[k].pcs[t] == Reading || states[k].pcs[t] == Writing
    ensures states[k].runcount == -1 || states[k].runcount > 0
  {
    InvRun(states, steps);
    assert Inv(states[k]);
    CountPositive(states[k].pcs, t, states[k].pcs[t]);
  }
}
