/**
 The read-write lock that hands ownership to queued threads (lock.c, Windows part).
 A thread that cannot get the lock queues an event and sleeps on it; the thread that
 unlocks does the bookkeeping for those it notifies.  Notified threads then read
 runcount without the critical section and abort if it is not as expected.  Unlock
 is split into its assignments and SetEvent calls, so those reads interleave with it.
 */
module HandoffRwLock {
  import opened Threads
  import opened WaitQueue

  type Tid = Event

  datatype Pc =
    | Idle
    | Reading | Writing
    | ReaderQueued | WriterQueued
    | ReaderNotified | WriterNotified
    | ReaderPolling | WriterPolling   // no event could be created: poll instead
    | Aborted

  /** Where the critical section is held across steps: only within unlock. */
  datatype Section =
    | Free
    | Dropped       // own share of runcount given up
    | ToWriter      // runcount is -1 again, the first writer not yet notified
    | ToReaders     // runcount counts the readers still to be notified

  /** max is the largest value of runcount, INT_MAX. */
  datatype State = State(max: int, runcount: int, readers: seq<Tid>, writers: seq<Tid>, pcs: seq<Pc>, section: Section)

  /** x + d in two's complement with largest value max. */
  function Add32(x: int, d: nat, max: int): int
    requires max > 0
  {
    if x + d <= max then x + d else (x + d + max + 1) % (2 * max + 2) - max - 1
  }

  datatype Step =
    | RdLock(t: Tid, eventOk: bool) | RdPoll(t: Tid) | RdWake(t: Tid)
    | WrLock(t: Tid, eventOk: bool) | WrPoll(t: Tid) | WrWake(t: Tid)
    | UnlockDrop(t: Tid) | UnlockHand | NotifyWriter | NotifyReader

  predicate MayRead(s: State)
    requires s.max > 0
  {
    Add32(s.runcount, 1, s.max) > 0
  }

  function Move(s: State, t: Tid, pc: Pc): State
    requires t < |s.pcs|
  {
    s.(pcs := s.pcs[t := pc])
  }

  function RdEnter(s: State, t: Tid, eventOk: bool): State
    requires t < |s.pcs| && s.max > 0
  {
    if MayRead(s) then Move(s, t, Reading).(runcount := Add32(s.runcount, 1, s.max))
    else if eventOk then Move(s, t, ReaderQueued).(readers := s.readers + [t])
    else Move(s, t, ReaderPolling)
  }

  function WrEnter(s: State, t: Tid, eventOk: bool): State
    requires t < |s.pcs|
  {
    if s.runcount == 0 then Move(s, t, Writing).(runcount := -1)
    else if eventOk then Move(s, t, WriterQueued).(writers := s.writers + [t])
    else Move(s, t, WriterPolling)
  }

  /** unlock's first part: a reader or writer gives up its share. */
  function Drop(s: State, t: Tid): State
    requires t < |s.pcs|
  {
    if s.runcount < -1 then Move(s, t, Aborted)
    else if s.runcount == -1 then Move(s, t, Idle).(runcount := 0, section := Dropped)
    else if s.runcount == 0 then Move(s, t, Idle)   // EPERM
    else Move(s, t, Idle).(runcount := s.runcount - 1, section := Dropped)
  }

  /** unlock's second part: bookkeeping on behalf of whoever is notified next. */
  function Hand(s: State): State
    requires s.max > 0
  {
    if s.runcount != 0 then s.(section := Free)
    else if |s.writers| > 0 then s.(runcount := -1, section := ToWriter)
    else s.(runcount := Add32(s.runcount, |s.readers|, s.max), section := ToReaders)
  }

  ghost predicate Next(s: State, step: Step, s': State)
    requires s.max > 0
  {
    match step
    case RdLock(t, eventOk) =>
      t < |s.pcs| && s.section == Free && s.pcs[t] == Idle && s' == RdEnter(s, t, eventOk)
    case RdPoll(t) =>
      t < |s.pcs| && s.section == Free && s.pcs[t] == ReaderPolling && s' == RdEnter(s, t, false)
    case RdWake(t) =>
      t < |s.pcs| && s.pcs[t] == ReaderNotified && s' == Move(s, t, if s.runcount > 0 then Reading else Aborted)
    case WrLock(t, eventOk) =>
      t < |s.pcs| && s.section == Free && s.pcs[t] == Idle && s' == WrEnter(s, t, eventOk)
    case WrPoll(t) =>
      t < |s.pcs| && s.section == Free && s.pcs[t] == WriterPolling && s' == WrEnter(s, t, false)
    case WrWake(t) =>
      t < |s.pcs| && s.pcs[t] == WriterNotified && s' == Move(s, t, if s.runcount == -1 then Writing else Aborted)
    case UnlockDrop(t) =>
      t < |s.pcs| && s.section == Free && (s.pcs[t] == Reading || s.pcs[t] == Writing) && s' == Drop(s, t)
    case UnlockHand => s.section == Dropped && s' == Hand(s)
    case NotifyWriter =>
      && s.section == ToWriter && s.writers != [] && s.writers[0] < |s.pcs|
      && s' == Move(s, s.writers[0], WriterNotified).(writers := s.writers[1..], section := Free)
    case NotifyReader =>
      && s.section == ToReaders
      && (if s.readers == [] then s' == s.(section := Free)
          else s.readers[0] < |s.pcs| && s' == Move(s, s.readers[0], ReaderNotified).(readers := s.readers[1..]))
  }

  ghost predicate Init(s: State)
  {
    && s.runcount == 0 && s.readers == [] && s.writers == [] && s.section == Free
    && forall i :: 0 <= i < |s.pcs| ==> s.pcs[i] == Idle
  }

  /** A run of n threads. */
  ghost predicate IsRun(max: int, n: nat, states: seq<State>, steps: seq<Step>)
    requires max > 0
  {
    && |states| == |steps| + 1
    && Init(states[0]) && |states[0].pcs| == n
    && (forall i :: 0 <= i < |states| ==> states[i].max == max)
    && forall i :: 0 <= i < |steps| ==> Next(states[i], steps[i], states[i + 1])
  }

  // ------------------------------------------------------------- invariants

  ghost predicate QueueOk(pcs: seq<Pc>, queue: seq<Tid>, pc: Pc)
  {
    && (forall i :: 0 <= i < |queue| ==> queue[i] < |pcs| && pcs[queue[i]] == pc)
    && (forall i, j :: 0 <= i < j < |queue| ==> queue[i] != queue[j])
    && |queue| == Count(pcs, pc)
  }

  /** Readers that hold the lock, whether or not they know it yet. */
  ghost function ReaderShare(s: State): nat
  {
    Count(s.pcs, Reading) + Count(s.pcs, ReaderNotified)
  }

  ghost function WriterShare(s: State): nat
  {
    Count(s.pcs, Writing) + Count(s.pcs, WriterNotified)
  }

  ghost predicate Inv(s: State)
  {
    && s.max > 0 && Count(s.pcs, Aborted) == 0
    && QueueOk(s.pcs, s.readers, ReaderQueued)
    && QueueOk(s.pcs, s.writers, WriterQueued)
    && match s.section
       case Free =>
         && (if s.runcount == -1 then WriterShare(s) == 1 && ReaderShare(s) == 0
             else WriterShare(s) == 0 && ReaderShare(s) == s.runcount <= s.max)
         && (s.writers != [] ==> s.runcount != 0)
         && (s.readers != [] ==> s.runcount == -1 || (s.runcount > 0 && |s.pcs| > s.max))
       case Dropped =>
         && WriterShare(s) == 0 && ReaderShare(s) == s.runcount <= s.max
         && (s.readers != [] ==> s.runcount == 0 || |s.pcs| > s.max)
         && Count(s.pcs, Idle) > 0
       case ToWriter =>
         s.runcount == -1 && WriterShare(s) == 0 && ReaderShare(s) == 0 && s.writers != []
       case ToReaders =>
         && WriterShare(s) == 0 && s.writers == []
         && s.runcount == ReaderShare(s) + |s.readers| <= s.max
  }

  lemma InvInit(s: State)
    requires Init(s) && s.max > 0
    ensures Inv(s)
  {
    forall pc: Pc | pc != Idle
      ensures Count(s.pcs, pc) == 0
    {
      CountNone(s.pcs, pc);
    }
  }

  lemma CountsUpdate(pcs: seq<Pc>, t: Tid, y: Pc)
    requires t < |pcs|
    ensures forall x ::
      Count(pcs[t := y], x) == Count(pcs, x) - (if pcs[t] == x then 1 else 0) + (if y == x then 1 else 0)
  {
    forall x: Pc
      ensures Count(pcs[t := y], x) == Count(pcs, x) - (if pcs[t] == x then 1 else 0) + (if y == x then 1 else 0)
    {
      CountUpdate(pcs, t, y, x);
    }
  }

  /** Queues survive the move of a thread that is not queued there. */
  lemma QueueKept(pcs: seq<Pc>, queue: seq<Tid>, pc: Pc, t: Tid, y: Pc)
    requires QueueOk(pcs, queue, pc) && t < |pcs| && pcs[t] != pc && y != pc
    ensures QueueOk(pcs[t := y], queue, pc)
  {
    CountUpdate(pcs, t, y, pc);
  }

  lemma QueueAdd(pcs: seq<Pc>, queue: seq<Tid>, pc: Pc, t: Tid)
    requires QueueOk(pcs, queue, pc) && t < |pcs| && pcs[t] != pc
    ensures QueueOk(pcs[t := pc], queue + [t], pc)
  {
    CountUpdate(pcs, t, pc, pc);
  }

  lemma QueueNotify(pcs: seq<Pc>, queue: seq<Tid>, pc: Pc, y: Pc)
    requires QueueOk(pcs, queue, pc) && queue != [] && y != pc
    ensures queue[0] < |pcs| && QueueOk(pcs[queue[0] := y], queue[1..], pc)
  {
    CountUpdate(pcs, queue[0], y, pc);
  }

  /** With at most max threads, a thread that is not a reader finds the count
      below max. */
  lemma NotSaturated(s: State, t: Tid)
    requires t < |s.pcs| <= s.max && s.pcs[t] != Reading && s.pcs[t] != ReaderNotified
    ensures ReaderShare(s) < s.max
  {
    CountTogether(s.pcs, Reading, ReaderNotified, s.pcs[t]);
    CountPositive(s.pcs, t, s.pcs[t]);
  }

  lemma AddOverflows(max: int)
    requires max > 0
    ensures Add32(max, 1, max) == -max - 1
  {
  }

  lemma AddExact(x: int, d: nat, max: int)
    requires max > 0 && -max - 1 <= x && x + d <= max
    ensures Add32(x, d, max) == x + d
  {
  }

  lemma InvRdEnter(s: State, t: Tid, eventOk: bool)
    requires Inv(s) && s.section == Free && t < |s.pcs| && s.max > 0
    requires s.pcs[t] == Idle || (s.pcs[t] == ReaderPolling && !eventOk)
    ensures Inv(RdEnter(s, t, eventOk))
  {
    hide Count, QueueOk, Add32;
    var s' := RdEnter(s, t, eventOk);
    if |s.pcs| <= s.max {
      NotSaturated(s, t);
    }
    AddOverflows(s.max);
    if s.runcount < s.max {
      AddExact(s.runcount, 1, s.max);
    }
    CountsUpdate(s.pcs, t, s'.pcs[t]);
    QueueKept(s.pcs, s.writers, WriterQueued, t, s'.pcs[t]);
    if s'.pcs[t] == ReaderQueued {
      QueueAdd(s.pcs, s.readers, ReaderQueued, t);
    } else {
      QueueKept(s.pcs, s.readers, ReaderQueued, t, s'.pcs[t]);
    }
  }

  lemma InvWrEnter(s: State, t: Tid, eventOk: bool)
    requires Inv(s) && s.section == Free && t < |s.pcs|
    requires s.pcs[t] == Idle || (s.pcs[t] == WriterPolling && !eventOk)
    ensures Inv(WrEnter(s, t, eventOk))
  {
    hide Count, QueueOk;
    var s' := WrEnter(s, t, eventOk);
    CountsUpdate(s.pcs, t, s'.pcs[t]);
    QueueKept(s.pcs, s.readers, ReaderQueued, t, s'.pcs[t]);
    if s'.pcs[t] == WriterQueued {
      QueueAdd(s.pcs, s.writers, WriterQueued, t);
    } else {
      QueueKept(s.pcs, s.writers, WriterQueued, t, s'.pcs[t]);
    }
  }

  /** The checks a notified thread makes on runcount succeed, wherever a
      concurrent unlock has got to. */
  lemma WakeChecks(s: State, t: Tid)
    requires Inv(s) && t < |s.pcs|
    ensures s.pcs[t] == ReaderNotified ==> s.runcount > 0
    ensures s.pcs[t] == WriterNotified ==> s.runcount == -1
  {
    CountPositive(s.pcs, t, s.pcs[t]);
  }

  lemma InvWake(s: State, t: Tid, y: Pc)
    requires Inv(s) && t < |s.pcs|
    requires (s.pcs[t] == ReaderNotified && y == Reading) || (s.pcs[t] == WriterNotified && y == Writing)
    ensures Inv(Move(s, t, y))
  {
    CountsUpdate(s.pcs, t, y);
    QueueKept(s.pcs, s.readers, ReaderQueued, t, y);
    QueueKept(s.pcs, s.writers, WriterQueued, t, y);
  }

  lemma InvDrop(s: State, t: Tid)
    requires Inv(s) && s.section == Free && t < |s.pcs| && (s.pcs[t] == Reading || s.pcs[t] == Writing)
    ensures Inv(Drop(s, t))
    ensures s.runcount == -1 || s.runcount > 0
  {
    CountPositive(s.pcs, t, s.pcs[t]);
    CountsUpdate(s.pcs, t, Idle);
    QueueKept(s.pcs, s.readers, ReaderQueued, t, Idle);
    QueueKept(s.pcs, s.writers, WriterQueued, t, Idle);
  }

  lemma InvHand(s: State)
    requires Inv(s) && s.section == Dropped && 0 < |s.pcs| <= s.max + 1 && s.max > 0
    ensures Inv(Hand(s))
  {
    CountTogether(s.pcs, ReaderQueued, Idle, Reading);
    AddExact(0, |s.readers|, s.max);
  }

  lemma InvNotifyWriter(s: State)
    requires Inv(s) && s.section == ToWriter
    ensures s.writers[0] < |s.pcs|
    ensures Inv(Move(s, s.writers[0], WriterNotified).(writers := s.writers[1..], section := Free))
  {
    var t := s.writers[0];
    CountsUpdate(s.pcs, t, WriterNotified);
    QueueKept(s.pcs, s.readers, ReaderQueued, t, WriterNotified);
    QueueNotify(s.pcs, s.writers, WriterQueued, WriterNotified);
  }

  lemma InvNotifyReader(s: State)
    requires Inv(s) && s.section == ToReaders && s.readers != []
    ensures s.readers[0] < |s.pcs|
    ensures Inv(Move(s, s.readers[0], ReaderNotified).(readers := s.readers[1..]))
  {
    var t := s.readers[0];
    CountsUpdate(s.pcs, t, ReaderNotified);
    QueueKept(s.pcs, s.writers, WriterQueued, t, ReaderNotified);
    QueueNotify(s.pcs, s.readers, ReaderQueued, ReaderNotified);
  }

  lemma InvNext(s: State, step: Step, s': State)
    requires 0 < |s.pcs| <= s.max + 1 && s.max > 0 && Inv(s) && Next(s, step, s')
    ensures Inv(s') && |s'.pcs| == |s.pcs| && s'.max == s.max
  {
    hide Inv;
    match step
    case RdLock(t, eventOk) => InvRdEnter(s, t, eventOk);
    case RdPoll(t) => InvRdEnter(s, t, false);
    case RdWake(t) => WakeChecks(s, t); InvWake(s, t, Reading);
    case WrLock(t, eventOk) => InvWrEnter(s, t, eventOk);
    case WrPoll(t) => InvWrEnter(s, t, false);
    case WrWake(t) => WakeChecks(s, t); InvWake(s, t, Writing);
    case UnlockDrop(t) => InvDrop(s, t);
    case UnlockHand => InvHand(s);
    case NotifyWriter => InvNotifyWriter(s);
    case NotifyReader =>
      if s.readers == [] {
        InvReadersDone(s);
      } else {
        InvNotifyReader(s);
      }
  }

  lemma InvReadersDone(s: State)
    requires Inv(s) && s.section == ToReaders && s.readers == []
    ensures Inv(s.(section := Free))
  {
  }

  lemma PrefixRun(max: int, n: nat, states: seq<State>, steps: seq<Step>, k: nat)
    requires max > 0 && IsRun(max, n, states, steps) && k <= |steps|
    ensures IsRun(max, n, states[..k + 1], steps[..k])
  {
    hide Next;
    var ss, ts := states[..k + 1], steps[..k];
    forall i | 0 <= i < k
      ensures Next(ss[i], ts[i], ss[i + 1])
    {
      assert ss[i] == states[i] && ss[i + 1] == states[i + 1] && ts[i] == steps[i];
    }
  }

  lemma {:induction false} InvRun(max: int, n: nat, states: seq<State>, steps: seq<Step>)
    requires 0 < max && 0 < n <= max + 1 && IsRun(max, n, states, steps)
    ensures forall i :: 0 <= i < |states| ==> Inv(states[i]) && |states[i].pcs| == n
    decreases |steps|
  {
    hide Inv, Next;
    if steps == [] {
      InvInit(states[0]);
    } else {
      var k := |steps| - 1;
      var ss, ts := states[..k + 1], steps[..k];
      PrefixRun(max, n, states, steps, k);
      InvRun(max, n, ss, ts);
      assert Inv(ss[k]) && ss[k] == states[k];
      InvNext(states[k], steps[k], states[k + 1]);
      forall i | 0 <= i < |states|
        ensures Inv(states[i]) && |states[i].pcs| == n
      {
        if i <= k {
          assert states[i] == ss[i];
        }
      }
    }
  }

  // ------------------------------------------------------------ what follows

  /** In every run a reader that calls rdlock gets the lock exactly if no writer holds it
      or has been handed it, and max readers do not; otherwise it queues behind the
      other readers, or polls if it has no event. */
  lemma ReaderDecision(max: int, n: nat, states: seq<State>, steps: seq<Step>, k: nat)
    requires 0 < max && 0 < n <= max + 1 && IsRun(max, n, states, steps) && k < |steps|
    requires steps[k].RdLock? || steps[k].RdPoll?
    ensures var s, s', t := states[k], states[k + 1], steps[k].t; var pcs := s.pcs;
      var granted := Count(pcs, Writing) + Count(pcs, WriterNotified) == 0
                     && Count(pcs, Reading) + Count(pcs, ReaderNotified) < max;
      var queues := !granted && steps[k].RdLock? && steps[k].eventOk;
      && s'.pcs == pcs[t := if granted then Reading else if queues then ReaderQueued else ReaderPolling]
      && s'.readers == (if queues then s.readers + [t] else s.readers) && s'.writers == s.writers
  {
    hide Count;
    InvRun(max, n, states, steps);
    assert Inv(states[k]) && Next(states[k], steps[k], states[k + 1]);
  }

  /** A writer gets the lock exactly if nobody holds it or has been handed it. */
  lemma WriterDecision(max: int, n: nat, states: seq<State>, steps: seq<Step>, k: nat)
    requires 0 < max && 0 < n <= max + 1 && IsRun(max, n, states, steps) && k < |steps|
    requires steps[k].WrLock? || steps[k].WrPoll?
    ensures var s, s', t := states[k], states[k + 1], steps[k].t; var pcs := s.pcs;
      var granted := Count(pcs, Writing) + Count(pcs, WriterNotified) == 0
                     && Count(pcs, Reading) + Count(pcs, ReaderNotified) == 0;
      var queues := !granted && steps[k].WrLock? && steps[k].eventOk;
      && s'.pcs == pcs[t := if granted then Writing else if queues then WriterQueued else WriterPolling]
      && s'.writers == (if queues then s.writers + [t] else s.writers) && s'.readers == s.readers
  {
    hide Count;
    InvRun(max, n, states, steps);
    assert Inv(states[k]) && Next(states[k], steps[k], states[k + 1]);
  }

  /** Whom an unlock hands the lock to: nobody while readers hold it or have been handed
      it; else the first writer in the queue; else, if there is none, all readers. */
  lemma HandDecision(max: int, n: nat, states: seq<State>, steps: seq<Step>, k: nat)
    requires 0 < max && 0 < n <= max + 1 && IsRun(max, n, states, steps) && k < |steps|
    requires steps[k].UnlockHand?
    ensures var s, s' := states[k], states[k + 1];
      && s'.pcs == s.pcs && s'.readers == s.readers && s'.writers == s.writers
      && s'.section ==
           if Count(s.pcs, Reading) + Count(s.pcs, ReaderNotified) > 0 then Free
           else if s.writers != [] then ToWriter else ToReaders
  {
    hide Count;
    InvRun(max, n, states, steps);
    assert Inv(states[k]) && Next(states[k], steps[k], states[k + 1]);
  }

  /** No abort() in the lock is ever reached ... */
  ghost predicate NeverAborts(max: int, n: nat)
    requires max > 0
  {
    forall states: seq<State>, steps: seq<Step> :: IsRun(max, n, states, steps) ==>
      forall k, t :: 0 <= k < |states| && 0 <= t < |states[k].pcs| ==> states[k].pcs[t] != Aborted
  }

  /** ... exactly when a writer and as many readers as runcount can count are all the
      threads there are. */
  lemma NeverAbortsIff(max: int, n: nat)
    requires max > 0 && n > 0
    ensures NeverAborts(max, n) <==> n <= max + 1
  {
    if n <= max + 1 {
      forall states: seq<State>, steps: seq<Step>, k: nat, t: nat
        | IsRun(max, n, states, steps) && k < |states| && t < |states[k].pcs|
        ensures states[k].pcs[t] != Aborted
      {
        NobodyAborts(max, n, states, steps, k, t);
      }
    } else {
      var states, steps := AbortingRun(max, n);
      assert states[|states| - 1].pcs[1] == Aborted;
    }
  }

  lemma NobodyAborts(max: int, n: nat, states: seq<State>, steps: seq<Step>, k: nat, t: Tid)
    requires 0 < max && 0 < n <= max + 1 && IsRun(max, n, states, steps) && k < |states| && t < |states[k].pcs|
    ensures states[k].pcs[t] != Aborted
  {
    InvRun(max, n, states, steps);
    assert Inv(states[k]);
    if states[k].pcs[t] == Aborted {
      CountPositive(states[k].pcs, t, Aborted);
    }
  }

  /** The state in which thread 0 writes and the next k threads wait to read. */
  ghost function Crowd(max: int, n: nat, k: nat): State
  {
    State(max, -1, seq(k, i requires i >= 0 => i + 1), [],
          seq(n, i => if i == 0 then Writing else if i <= k then ReaderQueued else Idle), Free)
  }

  lemma {:induction false} CrowdRun(max: int, n: nat, k: nat) returns (states: seq<State>, steps: seq<Step>)
    requires max > 0 && k < n
    ensures IsRun(max, n, states, steps) && states[|states| - 1] == Crowd(max, n, k)
    decreases k
  {
    if k == 0 {
      states, steps := [State(max, 0, [], [], seq(n, i => Idle), Free)], [];
      assert states[0].pcs[0 := Writing] == Crowd(max, n, 0).pcs;
      ExtendRun(max, n, states, steps, WrLock(0, true), Crowd(max, n, 0));
      states, steps := states + [Crowd(max, n, 0)], steps + [WrLock(0, true)];
    } else {
      states, steps := CrowdRun(max, n, k - 1);
      var s, s' := Crowd(max, n, k - 1), Crowd(max, n, k);
      AddExact(-1, 1, max);
      assert s'.pcs == s.pcs[k := ReaderQueued] && s'.readers == s.readers + [k];
      assert Next(s, RdLock(k, true), s');
      ExtendRun(max, n, states, steps, RdLock(k, true), s');
      states, steps := states + [s'], steps + [RdLock(k, true)];
    }
  }

  /** With more threads: max + 1 readers wait for a writer, whose unlock counts them
      all and overflows; the first of them wakes up and aborts. */
  lemma AbortingRun(max: int, n: nat) returns (states: seq<State>, steps: seq<Step>)
    requires max > 0 && n > max + 1
    ensures IsRun(max, n, states, steps) && |states[|states| - 1].pcs| == n && states[|states| - 1].pcs[1] == Aborted
  {
    states, steps := CrowdRun(max, n, max + 1);
    var s := Crowd(max, n, max + 1);
    var s1 := Drop(s, 0);
    ExtendRun(max, n, states, steps, UnlockDrop(0), s1);
    states, steps := states + [s1], steps + [UnlockDrop(0)];
    var s2 := Hand(s1);
    ExtendRun(max, n, states, steps, UnlockHand, s2);
    states, steps := states + [s2], steps + [UnlockHand];
    assert s2.runcount < 0 by { CountOverflows(max); }
    var s3 := Move(s2, 1, ReaderNotified).(readers := s2.readers[1..]);
    assert s2.readers[0] == 1;
    ExtendRun(max, n, states, steps, NotifyReader, s3);
    states, steps := states + [s3], steps + [NotifyReader];
    var s4 := Move(s3, 1, Aborted);
    ExtendRun(max, n, states, steps, RdWake(1), s4);
    states, steps := states + [s4], steps + [RdWake(1)];
  }

  lemma CountOverflows(max: int)
    requires max > 0
    ensures Add32(0, max + 1, max) < 0
  {
  }

  /** With no more threads than that: one writer or only readers, and while the
      critical section is free runcount says which; queued threads have a reason to
      wait. */
  lemma HandoffSafety(max: int, n: nat, states: seq<State>, steps: seq<Step>, k: nat, i: Tid, j: Tid)
    requires 0 < max && 0 < n <= max + 1 && IsRun(max, n, states, steps) && k < |states| && i < n && j < n && i != j
    ensures |states[k].pcs| == n
    ensures states[k].pcs[i] == Writing ==> states[k].pcs[j] != Writing && states[k].pcs[j] != Reading
    ensures states[k].section == Free ==>
      && states[k].runcount == (if WriterShare(states[k]) == 1 then -1 else ReaderShare(states[k]))
      && (WriterShare(states[k]) == 1 ==> ReaderShare(states[k]) == 0)
      && (states[k].writers != [] ==> states[k].runcount != 0)
      && (states[k].readers != [] ==> states[k].runcount != 0 && (n <= max ==> states[k].runcount == -1))
  {
    InvRun(max, n, states, steps);
    var s := states[k];
    assert Inv(s);
    if s.pcs[i] == Writing {
      CountPositive(s.pcs, i, Writing);
      if s.pcs[j] == Writing {
        CountTwo(s.pcs, if i < j then i else j, if i < j then j else i, Writing);
      } else if s.pcs[j] == Reading {
        CountPositive(s.pcs, j, Reading);
      }
    }
  }

  /** A reader waits only for a writer, or because the count is saturated. */
  ghost predicate QueuedReaderJustified(s: State)
  {
    s.section == Free && s.readers != [] ==> s.runcount == -1 || s.runcount == s.max
  }

  /** What the comment in the code expects of every reachable state ... */
  ghost predicate AlwaysJustified(max: int, n: nat)
    requires max > 0
  {
    forall states, steps :: IsRun(max, n, states, steps) ==>
      forall k :: 0 <= k < |states| ==> QueuedReaderJustified(states[k])
  }

  /** ... holds exactly when there are no more threads than runcount can count. */
  lemma JustifiedIff(max: int, n: nat)
    requires max >= 2 && n > 0
    ensures AlwaysJustified(max, n) <==> n <= max
  {
    if n <= max {
      forall states, steps, k | IsRun(max, n, states, steps) && 0 <= k < |states|
        ensures QueuedReaderJustified(states[k])
      {
        InvRun(max, n, states, steps);
        assert Inv(states[k]);
      }
    } else {
      var states, steps := StrandedReader(max, n);
      assert !QueuedReaderJustified(states[|states| - 1]);
    }
  }

  /** The state in which the first k threads read. */
  ghost function AllReading(max: int, n: nat, k: nat): State
  {
    State(max, k, [], [], seq(n, i => if i < k then Reading else Idle), Free)
  }

  lemma ExtendRun(max: int, n: nat, states: seq<State>, steps: seq<Step>, step: Step, s': State)
    requires max > 0 && IsRun(max, n, states, steps)
    requires Next(states[|states| - 1], step, s') && s'.max == max
    ensures IsRun(max, n, states + [s'], steps + [step])
  {
    hide Next;
    var ss, ts := states + [s'], steps + [step];
    forall i | 0 <= i < |ts|
      ensures Next(ss[i], ts[i], ss[i + 1])
    {
      if i < |steps| {
        assert ss[i] == states[i] && ss[i + 1] == states[i + 1] && ts[i] == steps[i];
      }
    }
  }

  lemma {:induction false} ReadersRun(max: int, n: nat, k: nat) returns (states: seq<State>, steps: seq<Step>)
    requires max > 0 && k <= n && k <= max
    ensures IsRun(max, n, states, steps) && states[|states| - 1] == AllReading(max, n, k)
    decreases k
  {
    if k == 0 {
      states, steps := [AllReading(max, n, 0)], [];
    } else {
      states, steps := ReadersRun(max, n, k - 1);
      var s, s' := AllReading(max, n, k - 1), AllReading(max, n, k);
      AddExact(k - 1, 1, max);
      assert s'.pcs == s.pcs[k - 1 := Reading];
      assert Next(s, RdLock(k - 1, true), s');
      ExtendRun(max, n, states, steps, RdLock(k - 1, true), s');
      states, steps := states + [s'], steps + [RdLock(k - 1, true)];
    }
  }

  /** With more threads: max readers saturate the count, one more queues, one of
      the readers leaves - and the queued reader waits although it could read. */
  lemma StrandedReader(max: int, n: nat) returns (states: seq<State>, steps: seq<Step>)
    requires max >= 2 && n > max
    ensures IsRun(max, n, states, steps)
    ensures !QueuedReaderJustified(states[|states| - 1])
  {
    states, steps := ReadersRun(max, n, max);
    var s := AllReading(max, n, max);
    var s1 := RdEnter(s, max, true);
    assert !MayRead(s);
    ExtendRun(max, n, states, steps, RdLock(max, true), s1);
    states, steps := states + [s1], steps + [RdLock(max, true)];
    var s2 := Drop(s1, 0);
    assert s1.pcs[0] == Reading;
    ExtendRun(max, n, states, steps, UnlockDrop(0), s2);
    states, steps := states + [s2], steps + [UnlockDrop(0)];
    ExtendRun(max, n, states, steps, UnlockHand, Hand(s2));
    states, steps := states + [Hand(s2)], steps + [UnlockHand];
  }

  // ------------------------------------------------ the critical sections

  datatype Outcome = Acquired | Queued | Poll
  datatype Errno = OK | EPERM | ABORT

  /** The lock's own memory, with each critical section as a method. */
  class RwLock {
    var runcount: int
    const waitingReaders: CArrayWaitQueue
    const waitingWriters: CArrayWaitQueue

    ghost predicate Valid()
      reads this, waitingReaders, waitingWriters, waitingReaders.array_, waitingWriters.array_
    {
      && waitingReaders != waitingWriters
      && waitingReaders.array_ != waitingWriters.array_
      && waitingReaders.Valid() && waitingWriters.Valid()
    }

    /** The state of which this lock is the part in memory. */
    ghost predicate Is(s: State)
      reads this, waitingReaders, waitingWriters, waitingReaders.array_, waitingWriters.array_
    {
      && Valid() && runcount == s.runcount
      && waitingReaders.Contents() == s.readers && waitingWriters.Contents() == s.writers
    }

    constructor ()
      ensures Valid() && fresh(waitingReaders) && fresh(waitingWriters)
      ensures forall s :: Init(s) ==> Is(s)
    {
      runcount := 0;
      waitingReaders := new CArrayWaitQueue.Init();
      waitingWriters := new CArrayWaitQueue.Init();
    }

    /** The section of rdlock; first says that the thread is not polling yet. */
    method RdSection(ghost s: State, t: Tid, first: bool, eventOk: bool) returns (o: Outcome)
      requires Is(s) && t < |s.pcs| && s.max == 0x7FFF_FFFF && (!first ==> !eventOk)
      modifies this, waitingReaders, waitingReaders.array_
      ensures Is(RdEnter(s, t, eventOk))
      ensures RdEnter(s, t, eventOk).pcs[t] ==
        (match o case Acquired => Reading case Queued => ReaderQueued case Poll => ReaderPolling)
    {
      if !(Add32(runcount, 1, 0x7FFF_FFFF) > 0) {
        if first && eventOk {
          waitingReaders.Add(t);
          return Queued;
        }
        return Poll;
      }
      runcount := Add32(runcount, 1, 0x7FFF_FFFF);
      return Acquired;
    }

    /** The section of wrlock. */
    method WrSection(ghost s: State, t: Tid, first: bool, eventOk: bool) returns (o: Outcome)
      requires Is(s) && t < |s.pcs| && (!first ==> !eventOk)
      modifies this, waitingWriters, waitingWriters.array_
      ensures Is(WrEnter(s, t, eventOk))
      ensures WrEnter(s, t, eventOk).pcs[t] ==
        (match o case Acquired => Writing case Queued => WriterQueued case Poll => WriterPolling)
    {
      if !(runcount == 0) {
        if first && eventOk {
          waitingWriters.Add(t);
          return Queued;
        }
        return Poll;
      }
      runcount := runcount - 1;
      return Acquired;
    }

    /** The section of unlock, with the events it sets, in order. */
    method UnlockSection(ghost s: State, t: Tid) returns (e: Errno, notified: seq<Event>)
      requires Is(s) && t < |s.pcs| && s.max == 0x7FFF_FFFF
      modifies this, waitingReaders, waitingWriters
      ensures e == (if s.runcount < -1 then ABORT else if s.runcount == 0 then EPERM else OK)
      ensures e != OK ==> Is(s) && notified == []
      ensures e == OK ==> Is(Settled(Hand(Drop(s, t)))) && notified == ToNotify(Hand(Drop(s, t)))
    {
      hide Notified;
      notified := [];
      if runcount < 0 {
        if !(runcount == -1) {
          return ABORT, notified;
        }
        runcount := 0;
      } else {
        if !(runcount > 0) {
          return EPERM, notified;
        }
        runcount := runcount - 1;
      }
      if runcount == 0 {
        if waitingWriters.count > 0 {
          runcount := runcount - 1;
          var w := waitingWriters.NotifyFirst();
          notified := [w];
        } else {
          runcount := Add32(runcount, waitingReaders.count, 0x7FFF_FFFF);
          notified := waitingReaders.NotifyAll();
        }
      }
      e := OK;
    }
  }

  /** The threads that unlock still has to notify. */
  ghost function ToNotify(h: State): seq<Tid>
  {
    match h.section
    case ToWriter => if h.writers == [] then [] else [h.writers[0]]
    case ToReaders => h.readers
    case _ => []
  }

  /** The state after all those notifications. */
  ghost function Settled(h: State): State
  {
    match h.section
    case ToWriter => if h.writers == [] then h else h.(writers := h.writers[1..],
                       pcs := Notified(h.pcs, [h.writers[0]], WriterNotified), section := Free)
    case ToReaders => h.(readers := [], pcs := Notified(h.pcs, h.readers, ReaderNotified), section := Free)
    case _ => h
  }

  ghost function Notified(pcs: seq<Pc>, ts: seq<Tid>, pc: Pc): (r: seq<Pc>)
    ensures |r| == |pcs|
    decreases |ts|
  {
    if ts == [] then pcs
    else Notified(if ts[0] < |pcs| then pcs[ts[0] := pc] else pcs, ts[1..], pc)
  }

  /** The single notifications of the step relation add up to Settled. */
  lemma {:induction false} SettledReached(h: State, states: seq<State>, steps: seq<Step>, max: int, n: nat)
    returns (states': seq<State>, steps': seq<Step>)
    requires max > 0 && IsRun(max, n, states, steps) && states[|states| - 1] == h
    requires h.section == ToWriter || h.section == ToReaders
    requires forall i :: 0 <= i < |h.readers| ==> h.readers[i] < |h.pcs|
    requires h.section == ToWriter ==> h.writers != [] && h.writers[0] < |h.pcs|
    ensures IsRun(max, n, states', steps') && states <= states'
    ensures states'[|states'| - 1] == Settled(h)
    decreases |h.readers|
  {
    var step := if h.section == ToWriter then NotifyWriter else NotifyReader;
    var s' := if h.section == ToWriter || h.readers == [] then Settled(h)
              else Move(h, h.readers[0], ReaderNotified).(readers := h.readers[1..]);
    if h.section == ToWriter {
      assert Notified(h.pcs, [h.writers[0]], WriterNotified) == h.pcs[h.writers[0] := WriterNotified] by {
        assert [h.writers[0]][1..] == [];
      }
    }
    assert Next(h, step, s');
    ExtendRun(max, n, states, steps, step, s');
    states', steps' := states + [s'], steps + [step];
    if h.section == ToReaders && h.readers != [] {
      assert Settled(s') == Settled(h);
      states', steps' := SettledReached(s', states', steps', max, n);
    }
  }
}
