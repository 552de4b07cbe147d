/** ipc.c: one mutex with priority inheritance, and the threads that use it. */
module MutexModel {
  import opened SuspendLists
  import opened Words

  const NOBODY: int := -1

  /**
   * `original` is original_priority; `prio` the threads' current priorities.
   * `base` and `depth` are history: a thread's own priority, and its takes minus its releases.
   */
  datatype Mutex = Mutex(value: int, owner: int, hold: int, original: int, waiting: seq<Waiter>, fifo: bool, now: int,
                         prio: map<int, int>, base: map<int, int>, depth: map<int, int>)

  function Init(fifo: bool, base: map<int, int>): Mutex {
    Mutex(1, NOBODY, 0, 0xFF, [], fifo, 0, base, base, map t | t in base :: 0)
  }

  /** The counters: nobody owns it, value is 1 and hold is 0, or somebody does, value is 0 and hold is its depth. */
  ghost predicate Counts(m: Mutex) {
    && m.prio.Keys == m.base.Keys == m.depth.Keys && NOBODY !in m.base
    && m.value == (if m.owner == NOBODY then 1 else 0)
    && (m.owner == NOBODY ==> m.hold == 0 && m.original == 0xFF && m.waiting == [])
    && (m.owner != NOBODY ==> m.owner in m.base && 0 < m.hold <= 0xFF)
    && (forall t :: t in m.depth ==> m.depth[t] == if t == m.owner then m.hold else 0)
  }

  ghost predicate Queue(m: Mutex) {
    && Ordered(m.waiting, m.fifo) && Apart(m.waiting) && Earlier(m.waiting, m.now)
    && (forall w :: w in m.waiting ==> w.tid in m.base && w.tid != m.owner && w.prio == m.base[w.tid])
  }

  /** Everybody runs at their own priority except the owner, who may have been raised; its own one is kept for it. */
  ghost predicate Restorable(m: Mutex) {
    && m.prio.Keys == m.base.Keys
    && (forall t :: t in m.base && t != m.owner ==> m.prio[t] == m.base[t])
    && (m.owner in m.base ==> m.original == m.base[m.owner] && m.prio[m.owner] <= m.base[m.owner])
  }

  /** No waiter is more urgent than the owner. */
  ghost predicate Inherits(m: Mutex) {
    forall w :: w in m.waiting ==> m.owner in m.prio && m.prio[m.owner] <= w.prio
  }

  ghost predicate Inv(m: Mutex) {
    Counts(m) && Queue(m) && Restorable(m) && Inherits(m)
  }

  datatype Outcome = Taken | Refused | Asleep | NotOwner | Released

  /** Thread t becomes the owner: by rt_mutex_take, or handed over by rt_mutex_release. */
  function Own(m: Mutex, t: int): Mutex
    requires t in m.prio && t in m.depth
  {
    m.(owner := t, original := m.prio[t], hold := 1, depth := m.depth[t := m.depth[t] + 1])
  }

  /** rt_mutex_take. */
  function Take(m: Mutex, t: int, time: int): (Mutex, Outcome)
    requires Counts(m) && t in m.base
  {
    if m.owner == t then (m.(hold := (m.hold + 1) % 0x100, depth := m.depth[t := m.depth[t] + 1]), Taken)
    else if m.value > 0 then (Own(m.(value := m.value - 1), t), Taken)
    else if time == 0 then (m, Refused)
    else
      var p := if m.prio[t] < m.prio[m.owner] then m.prio[m.owner := m.prio[t]] else m.prio;
      (m.(prio := p, waiting := Enqueue(m.waiting, Waiter(t, p[t], m.now), m.fifo), now := m.now + 1), Asleep)
  }

  /** The last release: the owner's own priority comes back, and the first waiter or nobody is the next owner. */
  function LetGo(m: Mutex): Mutex
    requires m.owner in m.prio && m.prio.Keys == m.depth.Keys && (forall w :: w in m.waiting ==> w.tid in m.prio)
  {
    var m1 := m.(prio := m.prio[m.owner := m.original]);
    if m.waiting == [] then m1.(value := m.value + 1, owner := NOBODY, original := 0xFF)
    else
      assert m.waiting[0] in m.waiting;
      Own(m1.(waiting := m.waiting[1..]), m.waiting[0].tid)
  }

  /** rt_mutex_release. */
  function Release(m: Mutex, t: int): (Mutex, Outcome)
    requires Counts(m) && t in m.base && (forall w :: w in m.waiting ==> w.tid in m.base)
  {
    if m.owner != t then (m, NotOwner)
    else
      var m1 := m.(hold := m.hold - 1, depth := m.depth[t := m.depth[t] - 1]);
      (if m1.hold > 0 then m1 else LetGo(m1), Released)
  }

  function Expire(m: Mutex, t: int): Mutex {
    m.(waiting := Leave(m.waiting, t))
  }

  datatype Op = DoTake(t: int, time: int) | DoRelease(t: int) | DoExpire(t: int)

  /** A known thread that is not asleep here; and a take by an owner that already holds it 255 times is left out. */
  predicate Enabled(m: Mutex, op: Op) {
    match op
    case DoTake(t, _) => t in m.base && !Waits(m.waiting, t) && !(t == m.owner && m.hold == 0xFF)
    case DoRelease(t) => t in m.base && !Waits(m.waiting, t)
    case DoExpire(t) => true
  }

  function Step(m: Mutex, op: Op): Mutex
    requires Inv(m)
  {
    if !Enabled(m, op) then m
    else match op
      case DoTake(t, time) => Take(m, t, time).0
      case DoRelease(t) => Release(m, t).0
      case DoExpire(t) => Expire(m, t)
  }

  lemma InitInv(fifo: bool, base: map<int, int>)
    requires NOBODY !in base
    ensures Inv(Init(fifo, base))
  {
  }

  /** Thread t takes a free mutex. */
  lemma TakeFree(m: Mutex, t: int)
    requires Inv(m) && t in m.base && m.owner == NOBODY
    ensures Inv(Own(m.(value := 0), t))
  {
  }

  /** The owner takes it again: right exactly while the 8-bit hold does not wrap. */
  lemma TakeAgain(m: Mutex, t: int)
    requires Inv(m) && t in m.base && m.owner == t
    ensures Inv(Take(m, t, 0).0) <==> m.hold < 0xFF
  {
    var m' := Take(m, t, 0).0;
    if m.hold == 0xFF {
      assert m'.hold == 0;
    }
  }

  /** Somebody else has to wait, and raises the owner. */
  lemma TakeWaits(m: Mutex, t: int, time: int)
    requires Inv(m) && t in m.base && m.owner != NOBODY && m.owner != t && time != 0 && !Waits(m.waiting, t)
    ensures Inv(Take(m, t, time).0)
  {
    hide Ordered, Apart, Earlier, Enqueue;
    var w := Waiter(t, m.prio[t], m.now);
    EnqueueOrdered(m.waiting, w, m.fifo);
    EnqueueApart(m.waiting, w, m.fifo);
    EnqueueEarlier(m.waiting, w, m.fifo);
    EnqueueMembers(m.waiting, w, m.fifo);
  }

  lemma TakeInv(m: Mutex, t: int, time: int)
    requires Inv(m) && t in m.base && !Waits(m.waiting, t) && !(t == m.owner && m.hold == 0xFF)
    ensures Inv(Take(m, t, time).0)
  {
    hide Inv, Queue, Restorable, Inherits;
    InvParts(m);
    if m.owner == t {
      TakeAgain(m, t);
    } else if m.owner == NOBODY {
      TakeFree(m, t);
    } else if time != 0 {
      TakeWaits(m, t, time);
    }
  }

  /** Only the priority of thread u differs, and it is p. */
  ghost predicate Raised(was: map<int, int>, now: map<int, int>, u: int, p: int) {
    now.Keys == was.Keys && forall x :: x in was ==> now[x] == if x == u then p else was[x]
  }

  /**
   * How a take ends: once more for the owner; with the mutex if it is free; with an error if it may not wait; else
   * the caller waits in its place and the owner is as urgent as the caller from then on, if it was less urgent
   * before.
   */
  lemma TakeOutcome(m: Mutex, t: int, time: int)
    requires Inv(m) && t in m.base
    ensures var (r, o) := Take(m, t, time);
            if m.owner == t then o == Taken && r == m.(hold := r.hold, depth := r.depth)
                && (m.hold < 0xFF ==> r.hold == m.hold + 1)
            else if m.owner == NOBODY then
              && o == Taken && r.owner == t && r.hold == 1 && r.value == 0 && r.original == m.base[t]
              && r.prio == m.prio && r.waiting == []
            else if time == 0 then o == Refused && r == m
            else
              && o == Asleep && r == m.(prio := r.prio, waiting := r.waiting, now := r.now)
              && Joined(m.waiting, r.waiting, Waiter(t, m.base[t], m.now), m.fifo)
              && m.owner in m.prio && Raised(m.prio, r.prio, m.owner, Min(m.prio[m.owner], m.base[t]))
  {
    hide Ordered, Apart, Earlier, Enqueue, Joined;
    if m.owner != t && m.owner != NOBODY && time != 0 {
      EnqueuePlace(m.waiting, Waiter(t, m.base[t], m.now), m.fifo);
    }
  }

  /**
   * How a release ends: an error for anybody but the owner; a nested one only counts; the last one gives back the
   * owner's own priority, and the mutex goes to the first waiter, who alone leaves the list, or to nobody.
   */
  lemma ReleaseOutcome(m: Mutex, t: int)
    requires Inv(m) && t in m.base && (forall w :: w in m.waiting ==> w.tid in m.base)
    ensures var (r, o) := Release(m, t);
            if m.owner != t then o == NotOwner && r == m
            else if m.hold > 1 then o == Released && r == m.(hold := m.hold - 1, depth := r.depth)
            else
              && o == Released && Raised(m.prio, r.prio, t, m.base[t]) && r.now == m.now
              && if m.waiting == [] then r.owner == NOBODY && r.value == 1 && r.hold == 0 && r.waiting == []
                 else
                   && r.owner == m.waiting[0].tid && r.value == 0 && r.hold == 1 && r.waiting == m.waiting[1..]
                   && r.original == m.waiting[0].prio
  {
    hide Ordered, Apart, Earlier;
    if m.waiting != [] {
      TailKeeps(m);
    }
  }

  /** A waiter that times out leaves, and nothing else changes: the owner keeps the priority it was raised to. */
  lemma ExpireOutcome(m: Mutex, t: int, w: Waiter)
    requires Inv(m)
    ensures Expire(m, t) == m.(waiting := Expire(m, t).waiting)
    ensures w in Expire(m, t).waiting <==> w in m.waiting && w.tid != t
  {
    LeaveMembers(m.waiting, t, w);
  }

  /** The owner gives it up and nobody waits. */
  lemma ReleaseFree(m: Mutex, t: int)
    requires Inv(m) && m.owner == t && t in m.base && m.hold == 1 && m.waiting == []
    ensures Inv(Release(m, t).0)
  {
  }

  lemma TailKeeps(m: Mutex)
    requires Queue(m) && m.waiting != []
    ensures var r := m.waiting[1..];
            && Ordered(r, m.fifo) && Apart(r) && Earlier(r, m.now)
            && (forall w :: w in r ==> w in m.waiting && w.tid != m.waiting[0].tid)
            && m.waiting[0] in m.waiting
  {
  }

  /**
   * A hand-over keeps everything; the new owner is urgent enough exactly if its priority is at most that of all
   * who still wait.
   */
  lemma ReleaseHandsOver(m: Mutex, t: int)
    requires Inv(m) && m.owner == t && t in m.base && m.hold == 1 && m.waiting != []
    ensures var r := Release(m, t).0;
            && Counts(r) && Queue(r) && Restorable(r)
            && r.owner == m.waiting[0].tid && r.hold == 1
            && r.prio[t] == m.base[t]
            && (Inherits(r) <==> forall w :: w in m.waiting[1..] ==> m.waiting[0].prio <= w.prio)
  {
    hide Ordered, Apart, Earlier;
    TailKeeps(m);
    var r := Release(m, t).0;
    assert r.prio[r.owner] == m.waiting[0].prio;
  }

  /** In priority order the first waiter is urgent enough. */
  lemma PriorityHandOver(m: Mutex)
    requires Inv(m) && !m.fifo && m.waiting != []
    ensures forall w :: w in m.waiting ==> m.waiting[0].prio <= w.prio
  {
    forall w | w in m.waiting ensures m.waiting[0].prio <= w.prio {
      HeadFirst(m.waiting, m.fifo, w);
    }
  }

  lemma ReleaseNested(m: Mutex, t: int)
    requires Inv(m) && m.owner == t && t in m.base && m.hold > 1
    ensures Inv(Release(m, t).0)
  {
  }

  lemma ExpireInv(m: Mutex, t: int)
    requires Inv(m)
    ensures Inv(Expire(m, t))
  {
    LeaveKeeps(m.waiting, t, m.fifo, m.now);
    hide Ordered, Apart, Earlier, Leave;
  }

  lemma ReleaseInv(m: Mutex, t: int)
    requires Inv(m) && !m.fifo && t in m.base
    ensures (forall w :: w in m.waiting ==> w.tid in m.base) && Inv(Release(m, t).0)
  {
    hide Inv, Queue, Restorable, Inherits;
    InvParts(m);
    if m.owner == t {
      if m.hold > 1 {
        ReleaseNested(m, t);
      } else if m.waiting == [] {
        ReleaseFree(m, t);
      } else {
        PriorityHandOver(m);
        ReleaseHandsOver(m, t);
        Whole(Release(m, t).0);
      }
    }
  }

  lemma StepInv(m: Mutex, op: Op)
    requires Inv(m) && !m.fifo
    ensures Inv(Step(m, op)) && !Step(m, op).fifo && Step(m, op).base == m.base
  {
    hide Inv, Queue, Restorable, Inherits;
    InvParts(m);
    if Enabled(m, op) {
      match op
      case DoTake(t, time) =>
        TakeInv(m, t, time);
      case DoRelease(t) =>
        ReleaseInv(m, t);
      case DoExpire(t) => ExpireInv(m, t);
    }
  }

  lemma InvParts(m: Mutex)
    requires Inv(m)
    ensures Counts(m) && (forall w :: w in m.waiting ==> w.tid in m.base)
  {
  }

  lemma Whole(m: Mutex)
    requires Counts(m) && Queue(m) && Restorable(m) && Inherits(m)
    ensures Inv(m)
  {
  }

  function Trace(m: Mutex, ops: seq<Op>): (ms: seq<Mutex>)
    requires Inv(m) && !m.fifo
    ensures |ms| == |ops| + 1 && ms[0] == m
    decreases |ops|
  {
    if ops == [] then [m] else StepInv(m, ops[0]); [m] + Trace(Step(m, ops[0]), ops[1..])
  }

  /** Every state of every run of takes, releases and timeouts on a priority mutex obeys the protocol. */
  lemma {:induction false} RunObeys(m: Mutex, ops: seq<Op>)
    requires Inv(m) && !m.fifo
    ensures forall i :: 0 <= i < |Trace(m, ops)| ==> Inv(Trace(m, ops)[i]) && Trace(m, ops)[i].base == m.base
    decreases |ops|
  {
    hide Inv, Step;
    if ops != [] {
      StepInv(m, ops[0]);
      RunObeys(Step(m, ops[0]), ops[1..]);
    }
  }

  /** The times a step gives the mutex to thread t: a successful take, or a release that hands it over. */
  function Takes(m: Mutex, op: Op, t: int): int
    requires Inv(m)
  {
    InvParts(m);
    if !Enabled(m, op) then 0
    else match op
      case DoTake(u, time) => if u == t && Take(m, u, time).1 == Taken then 1 else 0
      case DoRelease(u) => if u == m.owner && m.hold == 1 && m.waiting != [] && m.waiting[0].tid == t then 1 else 0
      case DoExpire(_) => 0
  }

  /** The times it gives it back: a release by t that is not an error. */
  function Releases(m: Mutex, op: Op, t: int): int
    requires Inv(m)
  {
    InvParts(m);
    if Enabled(m, op) && op.DoRelease? && op.t == t && Release(m, t).1 == Released then 1 else 0
  }

  /** Takes minus releases of thread t over a run. */
  function Net(m: Mutex, ops: seq<Op>, t: int): int
    requires Inv(m) && !m.fifo
    decreases |ops|
  {
    if ops == [] then 0
    else
      StepInv(m, ops[0]);
      Takes(m, ops[0], t) - Releases(m, ops[0], t) + Net(Step(m, ops[0]), ops[1..], t)
  }

  lemma StepNet(m: Mutex, op: Op, t: int)
    requires Inv(m) && t in m.base
    ensures t in m.depth && t in Step(m, op).depth
    ensures Step(m, op).depth[t] == m.depth[t] + Takes(m, op, t) - Releases(m, op, t)
  {
    hide Queue, Restorable, Inherits, Enqueue;
    InvParts(m);
  }

  lemma {:induction false} RunNet(m: Mutex, ops: seq<Op>, t: int)
    requires Inv(m) && !m.fifo && t in m.base
    ensures var r := Trace(m, ops)[|ops|];
            t in m.depth && t in r.depth && r.depth[t] == m.depth[t] + Net(m, ops, t)
    decreases |ops|
  {
    hide Inv, Step, Takes, Releases;
    StepNet(m, DoExpire(t), t);
    if ops != [] {
      StepNet(m, ops[0], t);
      StepInv(m, ops[0]);
      RunNet(Step(m, ops[0]), ops[1..], t);
      assert Trace(m, ops)[|ops|] == Trace(Step(m, ops[0]), ops[1..])[|ops| - 1];
    }
  }

  /** From rt_mutex_init on, `hold` is the owner's takes minus releases, and everybody else's are as many of each. */
  lemma HoldIsNet(base: map<int, int>, ops: seq<Op>, t: int)
    requires NOBODY !in base && t in base
    ensures Inv(Init(false, base))
    ensures var r := Trace(Init(false, base), ops)[|ops|];
            Net(Init(false, base), ops, t) == if t == r.owner then r.hold else 0
  {
    InitInv(false, base);
    var m := Init(false, base);
    RunNet(m, ops, t);
    RunObeys(m, ops);
    ProtocolMeaning(Trace(m, ops)[|ops|], t);
  }

  /** What the protocol means for callers, in any state of such a run. */
  lemma ProtocolMeaning(m: Mutex, t: int)
    requires Inv(m) && t in m.base
    ensures m.owner == NOBODY <==> m.value == 1
    ensures m.value == 1 <==> m.hold == 0
    ensures m.waiting != [] ==> m.owner != NOBODY
    ensures m.depth[t] == if t == m.owner then m.hold else 0
    ensures m.depth[t] > 0 <==> t == m.owner
    ensures t != m.owner ==> m.prio[t] == m.base[t]
    ensures forall w :: w in m.waiting ==> m.prio[m.owner] <= m.prio[w.tid]
  {
    if m.waiting != [] {
      assert m.waiting[0] in m.waiting;
    }
  }

  /** A FIFO mutex hands over to whoever came first, and nobody raises the new owner for a more urgent waiter. */
  lemma FifoHandOverInverts()
    ensures var m := Mutex(0, 0, 1, 20, [Waiter(1, 15, 0), Waiter(2, 5, 1)], true, 2,
                           map[0 := 5, 1 := 15, 2 := 5], map[0 := 20, 1 := 15, 2 := 5], map[0 := 1, 1 := 0, 2 := 0]);
            Inv(m) && !Inherits(Release(m, 0).0)
  {
    var m := Mutex(0, 0, 1, 20, [Waiter(1, 15, 0), Waiter(2, 5, 1)], true, 2,
                   map[0 := 5, 1 := 15, 2 := 5], map[0 := 20, 1 := 15, 2 := 5], map[0 := 1, 1 := 0, 2 := 0]);
    assert Inv(m);
    ReleaseHandsOver(m, 0);
    assert Waiter(2, 5, 1) in m.waiting[1..];
  }
}

/** ipc.c: the mutex and its operations, one critical section each. */
module MutexImpl {
  import opened SuspendLists
  import opened MutexModel

  class MutexObject {
    var value: int
    var owner: int
    var original_priority: int
    var hold: int
    var suspend_thread: seq<Waiter>
    var fifo: bool
    /** The threads' current_priority fields. */
    var current_priority: map<int, int>
    var now: int

    ghost var base: map<int, int>
    ghost var depth: map<int, int>

    ghost function Abs(): Mutex
      reads this
    {
      Mutex(value, owner, hold, original_priority, suspend_thread, fifo, now, current_priority, base, depth)
    }

    /** rt_mutex_init. */
    constructor (fifo: bool, current_priority: map<int, int>)
      requires NOBODY !in current_priority
      ensures Abs() == Init(fifo, current_priority) && Inv(Abs())
    {
      value, owner, original_priority, hold := 1, NOBODY, 0xFF, 0;
      suspend_thread, this.fifo, now := [], fifo, 0;
      this.current_priority, base := current_priority, current_priority;
      depth := map t | t in current_priority :: 0;
    }

    /** rt_mutex_take, up to the point where the caller returns or sleeps. */
    method Take(t: int, time: int) returns (o: Outcome)
      requires Inv(Abs()) && t in base && !Waits(suspend_thread, t)
      modifies this
      ensures (Abs(), o) == MutexModel.Take(old(Abs()), t, time)
      ensures !(old(owner) == t && old(hold) == 0xFF) ==> Inv(Abs())
    {
      hide Inv, Enqueue;
      InvParts(Abs());
      if owner != t || hold != 0xFF {
        TakeInv(Abs(), t, time);
      }
      if owner == t {
        hold := (hold + 1) % 0x100;
        depth := depth[t := depth[t] + 1];
        return Taken;
      }
      if value > 0 {
        value := value - 1;
        owner := t;
        original_priority := current_priority[t];
        hold := hold + 1;
        depth := depth[t := depth[t] + 1];
        return Taken;
      }
      if time == 0 {
        return Refused;
      }
      if current_priority[t] < current_priority[owner] {
        current_priority := current_priority[owner := current_priority[t]];
      }
      suspend_thread := Enqueue(suspend_thread, Waiter(t, current_priority[t], now), fifo);
      now := now + 1;
      return Asleep;
    }

    /** The part of rt_mutex_release after the last hold is gone. */
    method LetGo()
      requires hold == 0 && owner in current_priority && current_priority.Keys == depth.Keys
      requires forall w :: w in suspend_thread ==> w.tid in current_priority
      modifies this
      ensures Abs() == MutexModel.LetGo(old(Abs()))
    {
      ghost var m := Abs();
      if original_priority != current_priority[owner] {
        current_priority := current_priority[owner := original_priority];
      }
      assert current_priority == m.prio[m.owner := m.original];
      if suspend_thread != [] {
        var w := suspend_thread[0];
        assert w in m.waiting;
        owner := w.tid;
        original_priority := current_priority[w.tid];
        hold := hold + 1;
        depth := depth[w.tid := depth[w.tid] + 1];
        suspend_thread := suspend_thread[1..];
      } else {
        value := value + 1;
        owner := NOBODY;
        original_priority := 0xFF;
      }
    }

    /** rt_mutex_release. */
    method Release(t: int) returns (o: Outcome)
      requires Inv(Abs()) && t in base
      modifies this
      ensures (forall w :: w in old(suspend_thread) ==> w.tid in old(base))
              && (Abs(), o) == MutexModel.Release(old(Abs()), t)
      ensures !old(fifo) ==> Inv(Abs())
    {
      hide Inv, Queue, Restorable, Inherits, MutexModel.LetGo;
      ghost var m := Abs();
      InvParts(m);
      if !fifo {
        ReleaseInv(m, t);
      }
      if t != owner {
        return NotOwner;
      }
      hold := hold - 1;
      depth := depth[t := depth[t] - 1];
      if hold == 0 {
        LetGo();
      }
      return Released;
    }

    /** rt_thread_timeout on a thread that waits here: the owner keeps the priority it was raised to. */
    method Expire(t: int)
      requires Inv(Abs()) && Waits(suspend_thread, t)
      modifies this`suspend_thread
      ensures Abs() == MutexModel.Expire(old(Abs()), t) && Inv(Abs())
    {
      ExpireInv(Abs(), t);
      suspend_thread := Leave(suspend_thread, t);
    }
  }
}
