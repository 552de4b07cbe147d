/** ipc.c: semaphores as values, and what their runs conserve. */
module SemaphoreModel {
  import opened SuspendLists

  const WRAP: int := 0x1_0000

  datatype Sem = Sem(value: int, waiting: seq<Waiter>, fifo: bool, now: int)

  /** How a take ends: with the semaphore, with -RT_ETIMEOUT, or asleep. */
  datatype Outcome = Taken | Refused | Asleep

  ghost predicate Inv(s: Sem) {
    && 0 <= s.value < WRAP
    && (s.waiting != [] ==> s.value == 0)
    && Ordered(s.waiting, s.fifo) && Apart(s.waiting) && Earlier(s.waiting, s.now)
  }

  /** rt_sem_take by thread t of priority p. */
  function Take(s: Sem, t: int, p: int, time: int): (Sem, Outcome) {
    if s.value > 0 then (s.(value := s.value - 1), Taken)
    else if time == 0 then (s, Refused)
    else (s.(waiting := Enqueue(s.waiting, Waiter(t, p, s.now), s.fifo), now := s.now + 1), Asleep)
  }

  /** rt_sem_release: the first waiter gets the unit, or the 16-bit value goes up. */
  function Release(s: Sem): Sem {
    if s.waiting != [] then s.(waiting := s.waiting[1..]) else s.(value := (s.value + 1) % WRAP)
  }

  /** rt_thread_timeout on a waiter. */
  function Expire(s: Sem, t: int): Sem {
    s.(waiting := Leave(s.waiting, t))
  }

  /** RT_IPC_CMD_RESET. */
  function Reset(s: Sem, value: int): Sem {
    s.(waiting := [], value := value % WRAP)
  }

  datatype Op = DoTake(t: int, p: int, time: int) | DoRelease | DoExpire(t: int) | DoReset(value: int)

  /** A semaphore with the history of its units: handed out, given back, and lost by wrapping. */
  datatype History = History(sem: Sem, granted: int, released: int, wraps: int)

  /** One step; a thread that is asleep on the semaphore takes none. */
  function Step(h: History, op: Op): History {
    match op
    case DoTake(t, p, time) =>
      if Waits(h.sem.waiting, t) then h
      else
        var (s, o) := Take(h.sem, t, p, time);
        h.(sem := s, granted := h.granted + if o == Taken then 1 else 0)
    case DoRelease =>
      h.(sem := Release(h.sem),
         released := h.released + 1,
         granted := h.granted + (if h.sem.waiting != [] then 1 else 0),
         wraps := h.wraps + (if h.sem.waiting == [] && h.sem.value == WRAP - 1 then 1 else 0))
    case DoExpire(t) => h.(sem := Expire(h.sem, t))
    case DoReset(value) => h.(sem := Reset(h.sem, value))
  }

  /** The units there are: free, out, and wrapped away. */
  function Balance(h: History): int {
    h.sem.value + h.granted - h.released + WRAP * h.wraps
  }

  lemma TakeInv(s: Sem, t: int, p: int, time: int)
    requires Inv(s) && !Waits(s.waiting, t)
    ensures Inv(Take(s, t, p, time).0)
  {
    hide Ordered, Apart, Earlier, Enqueue;
    var w := Waiter(t, p, s.now);
    EnqueueOrdered(s.waiting, w, s.fifo);
    EnqueueApart(s.waiting, w, s.fifo);
    EnqueueEarlier(s.waiting, w, s.fifo);
  }

  /** How a take ends: with a unit if there is one, without waiting, or asleep in its place. */
  lemma TakeOutcome(s: Sem, t: int, p: int, time: int)
    requires Inv(s)
    ensures var (r, o) := Take(s, t, p, time);
            if s.value > 0 then o == Taken && r == s.(value := s.value - 1)
            else if time == 0 then o == Refused && r == s
            else
              && o == Asleep && r == s.(waiting := r.waiting, now := r.now)
              && Joined(s.waiting, r.waiting, Waiter(t, p, s.now), s.fifo)
  {
    hide Ordered, Apart, Earlier, Enqueue, Joined;
    EnqueuePlace(s.waiting, Waiter(t, p, s.now), s.fifo);
  }

  /** A release goes to the first waiter, who alone leaves the list, or adds a unit; a timeout and a reset add none. */
  lemma ReleaseOutcome(s: Sem)
    requires Inv(s)
    ensures s.waiting != [] ==> Release(s) == s.(waiting := s.waiting[1..]) && s.value == 0
    ensures s.waiting == [] ==> Release(s) == s.(value := if s.value == WRAP - 1 then 0 else s.value + 1)
  {
  }

  lemma ExpireOutcome(s: Sem, t: int, w: Waiter)
    requires Inv(s)
    ensures Expire(s, t) == s.(waiting := Expire(s, t).waiting)
    ensures w in Expire(s, t).waiting <==> w in s.waiting && w.tid != t
  {
    LeaveMembers(s.waiting, t, w);
  }

  lemma StepInv(h: History, op: Op)
    requires Inv(h.sem)
    ensures Inv(Step(h, op).sem)
    ensures !op.DoReset? ==> Balance(Step(h, op)) == Balance(h)
  {
    match op
    case DoTake(t, p, time) =>
      if !Waits(h.sem.waiting, t) {
        TakeInv(h.sem, t, p, time);
      }
    case DoRelease =>
    case DoExpire(t) => LeaveKeeps(h.sem.waiting, t, h.sem.fifo, h.sem.now);
    case DoReset(value) =>
  }

  function Run(h: History, ops: seq<Op>): History
    decreases |ops|
  {
    if ops == [] then h else Run(Step(h, ops[0]), ops[1..])
  }

  /** Every reset-free run conserves units: initial value plus releases is value plus grants, plus what wrapped away. */
  lemma {:induction false} RunConserves(h: History, ops: seq<Op>)
    requires Inv(h.sem) && (forall i :: 0 <= i < |ops| ==> !ops[i].DoReset?)
    ensures var r := Run(h, ops);
            && Inv(r.sem)
            && Balance(r) == Balance(h)
            && r.wraps >= h.wraps
    decreases |ops|
  {
    hide Inv;
    if ops != [] {
      StepInv(h, ops[0]);
      RunConserves(Step(h, ops[0]), ops[1..]);
    }
  }

  function Fresh(value: int, fifo: bool): History {
    History(Sem(value, [], fifo, 0), 0, 0, 0)
  }

  /** A release finds a waiter, or room in the 16-bit value. */
  predicate Guarded(s: Sem, op: Op) {
    op.DoRelease? ==> s.waiting != [] || s.value < WRAP - 1
  }

  /** Every release of a run is guarded at the time it is made. */
  predicate RunGuarded(h: History, ops: seq<Op>)
    decreases |ops|
  {
    ops == [] || (Guarded(h.sem, ops[0]) && RunGuarded(Step(h, ops[0]), ops[1..]))
  }

  /** A release keeps the units exactly if it is guarded. */
  lemma ReleaseKeepsUnits(h: History)
    requires Inv(h.sem)
    ensures var r := Step(h, DoRelease);
            r.sem.value + r.granted - r.released == h.sem.value + h.granted - h.released <==> Guarded(h.sem, DoRelease)
  {
  }

  lemma {:induction false} GuardedRun(h: History, ops: seq<Op>)
    requires Inv(h.sem) && (forall i :: 0 <= i < |ops| ==> !ops[i].DoReset?)
    ensures Run(h, ops).wraps == h.wraps <==> RunGuarded(h, ops)
    decreases |ops|
  {
    hide Inv, Waits, Take;
    if ops != [] {
      StepInv(h, ops[0]);
      RunConserves(Step(h, ops[0]), ops[1..]);
      GuardedRun(Step(h, ops[0]), ops[1..]);
      WrapsIff(h, ops[0]);
    }
  }

  lemma WrapsIff(h: History, op: Op)
    requires Inv(h.sem)
    ensures Step(h, op).wraps == h.wraps + if Guarded(h.sem, op) then 0 else 1
  {
  }

  /**
   * From rt_sem_init on: no more units are out than there were at the start, and initial value plus releases is
   * value plus grants exactly if every release found a waiter or a value below 0xFFFF.
   */
  lemma UnitsOut(value: int, fifo: bool, ops: seq<Op>)
    requires 0 <= value < WRAP && (forall i :: 0 <= i < |ops| ==> !ops[i].DoReset?)
    ensures var r := Run(Fresh(value, fifo), ops);
            && Inv(r.sem)
            && r.granted - r.released <= value
            && (value + r.released == r.sem.value + r.granted <==> RunGuarded(Fresh(value, fifo), ops))
  {
    RunConserves(Fresh(value, fifo), ops);
    GuardedRun(Fresh(value, fifo), ops);
  }

  function Releases(ops: seq<Op>): int {
    if ops == [] then 0 else (if ops[0].DoRelease? then 1 else 0) + Releases(ops[1..])
  }

  /** A bound known beforehand: fewer than 0x10000 units at the start and from releases cannot be lost. */
  lemma {:induction false} FewReleases(h: History, ops: seq<Op>)
    requires Inv(h.sem) && (forall i :: 0 <= i < |ops| ==> !ops[i].DoReset?)
    requires h.sem.value + Releases(ops) < WRAP
    ensures RunGuarded(h, ops)
    decreases |ops|
  {
    if ops != [] {
      ReleasesPositive(ops[1..]);
      StepInv(h, ops[0]);
      ValueGrows(h, ops[0]);
      hide Inv;
      FewReleases(Step(h, ops[0]), ops[1..]);
    }
  }

  lemma ValueGrows(h: History, op: Op)
    requires Inv(h.sem) && !op.DoReset?
    ensures Step(h, op).sem.value <= h.sem.value + if op.DoRelease? then 1 else 0
  {
  }

  lemma {:induction false} ReleasesPositive(ops: seq<Op>)
    ensures Releases(ops) >= 0
  {
    if ops != [] {
      ReleasesPositive(ops[1..]);
    }
  }

  /** One release too many: all 0xFFFF units are gone. */
  lemma ReleaseLosesUnits(fifo: bool)
    ensures var r := Run(Fresh(0xFFFF, fifo), [DoRelease]);
            r.sem.value == 0 && r.granted == 0 && !RunGuarded(Fresh(0xFFFF, fifo), [DoRelease])
  {
    assert Run(Fresh(0xFFFF, fifo), [DoRelease]) == Step(Fresh(0xFFFF, fifo), DoRelease);
  }

  /** A release wakes the waiter that is first in order, and it returns with the unit. */
  lemma ReleaseServesFirst(s: Sem, w: Waiter)
    requires Inv(s) && w in s.waiting
    ensures Release(s).value == s.value == 0
    ensures !(s.waiting[0] in Release(s).waiting)
    ensures w == s.waiting[0] || (Before(s.waiting[0], w, s.fifo) && w in Release(s).waiting)
  {
    HeadFirst(s.waiting, s.fifo, w);
    var i :| 0 <= i < |s.waiting| && s.waiting[i] == w;
    assert i > 0 ==> s.waiting[1..][i - 1] == w;
  }
}

/** ipc.c: the object and its operations, one critical section each. */
module SemaphoreImpl {
  import opened SuspendLists
  import opened SemaphoreModel

  class Semaphore {
    var value: int
    var suspend_thread: seq<Waiter>
    var fifo: bool
    /** The stamp of the next arrival; the program has no such counter. */
    var now: int

    ghost function Abs(): Sem
      reads this
    {
      Sem(value, suspend_thread, fifo, now)
    }

    /** rt_sem_init. */
    constructor (value: int, fifo: bool)
      requires 0 <= value < WRAP
      ensures Abs() == Fresh(value, fifo).sem && Inv(Abs())
    {
      this.value, suspend_thread, this.fifo, now := value, [], fifo, 0;
    }

    /** rt_sem_take, up to the point where the caller returns or sleeps. */
    method Take(t: int, p: int, time: int) returns (o: Outcome)
      requires Inv(Abs()) && !Waits(suspend_thread, t)
      modifies this
      ensures Inv(Abs()) && (Abs(), o) == SemaphoreModel.Take(old(Abs()), t, p, time)
    {
      TakeInv(Abs(), t, p, time);
      if value > 0 {
        value := value - 1;
        return Taken;
      }
      if time == 0 {
        return Refused;
      }
      suspend_thread := Enqueue(suspend_thread, Waiter(t, p, now), fifo);
      now := now + 1;
      return Asleep;
    }

    /** rt_sem_release; `resumed` is the thread made ready, which makes a schedule necessary. */
    method Release() returns (resumed: seq<int>)
      requires Inv(Abs())
      modifies this
      ensures Inv(Abs()) && Abs() == SemaphoreModel.Release(old(Abs()))
      ensures resumed == if old(suspend_thread) == [] then [] else [old(suspend_thread)[0].tid]
    {
      if suspend_thread != [] {
        resumed := [suspend_thread[0].tid];
        suspend_thread := suspend_thread[1..];
      } else {
        resumed := [];
        value := (value + 1) % WRAP;
      }
    }

    /** rt_thread_timeout on a thread that waits here. */
    method Expire(t: int)
      requires Inv(Abs()) && Waits(suspend_thread, t)
      modifies this
      ensures Inv(Abs()) && Abs() == SemaphoreModel.Expire(old(Abs()), t)
    {
      LeaveKeeps(suspend_thread, t, fifo, now);
      suspend_thread := Leave(suspend_thread, t);
    }

    /** rt_sem_control with RT_IPC_CMD_RESET: every waiter is resumed, in order, with -RT_ERROR. */
    method Reset(value: int) returns (failed: seq<int>)
      requires Inv(Abs()) && 0 <= value
      modifies this
      ensures Inv(Abs()) && Abs() == SemaphoreModel.Reset(old(Abs()), value)
      ensures failed == Tids(old(suspend_thread)) && suspend_thread == [] && this.value == value % 0x1_0000
    {
      suspend_thread, failed := ResumeAll(suspend_thread);
      this.value := value % WRAP;
    }
  }
}
