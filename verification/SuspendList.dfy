/** ipc.c: the lists of threads suspended on an IPC object. */
module SuspendLists {
  import opened Sequences
  import opened Priorities

  /** A suspended thread, its current priority, and when it came. */
  datatype Waiter = Waiter(tid: int, prio: int, since: int)

  function Prios(q: seq<Waiter>): (ps: seq<int>)
    ensures |ps| == |q| && forall i :: 0 <= i < |q| ==> ps[i] == q[i].prio
  {
    seq(|q|, i requires 0 <= i < |q| => q[i].prio)
  }

  /** rt_ipc_list_suspend: the place it takes is the one RtList.Suspend links the node at. */
  function Enqueue(q: seq<Waiter>, w: Waiter, fifo: bool): seq<Waiter> {
    Insert(q, if fifo then |q| else Slot(Prios(q), w.prio), w)
  }

  /** The position of a thread's node, or |q|. */
  function Find(q: seq<Waiter>, t: int): (k: nat)
    ensures k <= |q| && (k < |q| ==> q[k].tid == t) && (forall i :: 0 <= i < k ==> q[i].tid != t)
  {
    if q == [] || q[0].tid == t then 0
    else
      var k := Find(q[1..], t);
      assert forall i :: 1 <= i < k + 1 ==> q[i] == q[1..][i - 1];
      1 + k
  }

  predicate Waits(q: seq<Waiter>, t: int) {
    Find(q, t) < |q|
  }

  /** A timeout takes a thread out of the list. */
  function Leave(q: seq<Waiter>, t: int): seq<Waiter> {
    if Waits(q, t) then Without(q, Find(q, t)) else q
  }

  /** RT_THREAD_CTRL_CHANGE_PRIORITY on a suspended thread: it keeps its place. */
  function SetPriority(q: seq<Waiter>, t: int, p: int): seq<Waiter> {
    if Waits(q, t) then q[Find(q, t) := q[Find(q, t)].(prio := p)] else q
  }

  /** No thread waits twice. */
  ghost predicate Apart(q: seq<Waiter>) {
    forall i, j :: 0 <= i < j < |q| ==> q[i].tid != q[j].tid
  }

  /** a is to be served before b. */
  predicate Before(a: Waiter, b: Waiter, fifo: bool) {
    if fifo then a.since < b.since else a.prio < b.prio || (a.prio == b.prio && a.since < b.since)
  }

  /** In order of arrival, or of priority with ties in order of arrival. */
  ghost predicate Ordered(q: seq<Waiter>, fifo: bool) {
    forall i, j :: 0 <= i < j < |q| ==> Before(q[i], q[j], fifo)
  }

  ghost predicate Earlier(q: seq<Waiter>, now: int) {
    forall i :: 0 <= i < |q| ==> q[i].since < now
  }

  lemma InsertAt<T>(q: seq<T>, k: int, w: T)
    requires 0 <= k <= |q|
    ensures |Insert(q, k, w)| == |q| + 1
    ensures forall i :: 0 <= i <= |q| ==> Insert(q, k, w)[i] == if i < k then q[i] else if i == k then w else q[i - 1]
    ensures forall x :: x in Insert(q, k, w) <==> x in q || x == w
  {
    assert q == q[..k] + q[k..];
  }

  lemma WithoutAt<T>(q: seq<T>, k: int)
    requires 0 <= k < |q|
    ensures |Without(q, k)| == |q| - 1
    ensures forall i :: 0 <= i < |q| - 1 ==> Without(q, k)[i] == if i < k then q[i] else q[i + 1]
    ensures forall x :: x in Without(q, k) ==> x in q
  {
  }

  /** A newcomer joins in order. */
  lemma EnqueueOrdered(q: seq<Waiter>, w: Waiter, fifo: bool)
    requires Ordered(q, fifo) && Earlier(q, w.since)
    ensures Ordered(Enqueue(q, w, fifo), fifo)
  {
    var k := if fifo then |q| else Slot(Prios(q), w.prio);
    InsertAt(q, k, w);
    var r := Enqueue(q, w, fifo);
    hide Insert;
    forall i, j | 0 <= i < j < |r| ensures Before(r[i], r[j], fifo) {
      if i == k && !fifo {
        assert w.prio < q[k].prio;
      } else if j == k && !fifo {
        assert Prios(q)[i] <= w.prio;
      }
    }
  }

  /** r is q with w at its place: at the end, or behind all who are as urgent and in front of all who are less. */
  ghost predicate Joined(q: seq<Waiter>, r: seq<Waiter>, w: Waiter, fifo: bool) {
    exists k :: 0 <= k <= |q| && r == Insert(q, k, w)
      && if fifo then k == |q|
         else (forall i :: 0 <= i < k ==> q[i].prio <= w.prio) && (forall i :: k <= i < |q| ==> w.prio < q[i].prio)
  }

  lemma EnqueuePlace(q: seq<Waiter>, w: Waiter, fifo: bool)
    requires Ordered(q, fifo)
    ensures Joined(q, Enqueue(q, w, fifo), w, fifo)
  {
    var k := if fifo then |q| else Slot(Prios(q), w.prio);
    if !fifo {
      forall i | k <= i < |q| ensures w.prio < q[i].prio {
        assert w.prio < Prios(q)[k] == q[k].prio;
        assert i > k ==> Before(q[k], q[i], fifo);
      }
      forall i | 0 <= i < k ensures q[i].prio <= w.prio {
        assert Prios(q)[i] <= w.prio;
      }
    }
    hide Insert;
    assert Enqueue(q, w, fifo) == Insert(q, k, w);
  }

  lemma EnqueueMembers(q: seq<Waiter>, w: Waiter, fifo: bool)
    ensures |Enqueue(q, w, fifo)| == |q| + 1
    ensures forall x :: x in Enqueue(q, w, fifo) <==> x in q || x == w
  {
    InsertAt(q, if fifo then |q| else Slot(Prios(q), w.prio), w);
  }

  lemma EnqueueApart(q: seq<Waiter>, w: Waiter, fifo: bool)
    requires Apart(q) && !Waits(q, w.tid)
    ensures Apart(Enqueue(q, w, fifo))
  {
    InsertAt(q, if fifo then |q| else Slot(Prios(q), w.prio), w);
    hide Insert;
  }

  /** Taking any thread out keeps the order. */
  lemma WithoutOrdered(q: seq<Waiter>, k: int, fifo: bool)
    requires 0 <= k < |q|
    ensures Ordered(q, fifo) ==> Ordered(Without(q, k), fifo)
    ensures Apart(q) ==> Apart(Without(q, k)) && !Waits(Without(q, k), q[k].tid)
  {
    WithoutAt(q, k);
    hide Without;
  }

  /** The head is the one to serve. */
  lemma HeadFirst(q: seq<Waiter>, fifo: bool, w: Waiter)
    requires Ordered(q, fifo) && w in q
    ensures w == q[0] || Before(q[0], w, fifo)
  {
  }

  /** A suspended thread's priority change keeps the order exactly when its neighbours still fit. */
  lemma SetPriorityOrdered(q: seq<Waiter>, t: int, p: int)
    requires Ordered(q, false) && Waits(q, t)
    ensures var k := Find(q, t);
            var w := q[k].(prio := p);
            Ordered(SetPriority(q, t, p), false)
            <==> (k > 0 ==> Before(q[k - 1], w, false)) && (k + 1 < |q| ==> Before(w, q[k + 1], false))
  {
    var k := Find(q, t);
    var r := SetPriority(q, t, p);
    if (k > 0 ==> Before(q[k - 1], r[k], false)) && (k + 1 < |q| ==> Before(r[k], q[k + 1], false)) {
      forall i, j | 0 <= i < j < |r| ensures Before(r[i], r[j], false) {
        if j == k && i < k - 1 {
          assert Before(q[i], q[k - 1], false);
        } else if i == k && j > k + 1 {
          assert Before(q[k + 1], q[j], false);
        }
      }
    } else if k > 0 && !Before(q[k - 1], r[k], false) {
      assert !Before(r[k - 1], r[k], false);
    } else {
      assert !Before(r[k], r[k + 1], false);
    }
  }

  /** Two waiters, and the second becomes more urgent than the first: a take in priority order is lost. */
  lemma PriorityInversionInList()
    ensures var q := [Waiter(1, 5, 0), Waiter(2, 9, 1)];
            Ordered(q, false) && !Ordered(SetPriority(q, 2, 3), false)
  {
    var q := [Waiter(1, 5, 0), Waiter(2, 9, 1)];
    var r := SetPriority(q, 2, 3);
    assert q[0].tid != 2 && q[1].tid == 2 && Find(q, 2) == 1;
    assert r[1] == Waiter(2, 3, 1) && !Before(r[0], r[1], false);
  }

  lemma EnqueueEarlier(q: seq<Waiter>, w: Waiter, fifo: bool)
    requires Earlier(q, w.since)
    ensures Earlier(Enqueue(q, w, fifo), w.since + 1)
  {
    InsertAt(q, if fifo then |q| else Slot(Prios(q), w.prio), w);
    hide Insert;
  }

  /** A timeout keeps order and stamps, and the thread is gone. */
  lemma LeaveKeeps(q: seq<Waiter>, t: int, fifo: bool, now: int)
    requires Apart(q)
    ensures Ordered(q, fifo) ==> Ordered(Leave(q, t), fifo)
    ensures Apart(Leave(q, t)) && !Waits(Leave(q, t), t)
    ensures Earlier(q, now) ==> Earlier(Leave(q, t), now)
    ensures |Leave(q, t)| == |q| - (if Waits(q, t) then 1 else 0)
    ensures forall w :: w in Leave(q, t) ==> w in q
  {
    hide Ordered, Apart, Earlier, Without;
    if Waits(q, t) {
      WithoutOrdered(q, Find(q, t), fifo);
      WithoutEarlier(q, Find(q, t), now);
    }
  }

  /** A timeout takes out exactly the waiters of that thread. */
  lemma LeaveMembers(q: seq<Waiter>, t: int, w: Waiter)
    requires Apart(q)
    ensures w in Leave(q, t) <==> w in q && w.tid != t
  {
    hide Find;
    if Waits(q, t) {
      var k := Find(q, t);
      WithoutAt(q, k);
      if w in q && w.tid != t {
        var i :| 0 <= i < |q| && q[i] == w;
        var j := if i < k then i else i - 1;
        assert Without(q, k)[j] == if j < k then q[j] else q[j + 1];
      }
      if w in Without(q, k) {
        var j :| 0 <= j < |q| - 1 && Without(q, k)[j] == w;
        assert w == if j < k then q[j] else q[j + 1];
      }
    }
  }

  lemma WithoutEarlier(q: seq<Waiter>, k: int, now: int)
    requires 0 <= k < |q|
    ensures Earlier(q, now) ==> Earlier(Without(q, k), now)
    ensures |Without(q, k)| == |q| - 1
    ensures forall w :: w in Without(q, k) ==> w in q
  {
    WithoutAt(q, k);
    hide Without;
  }

  /** `timeout -= rt_tick_get() - tick_delta`, cut off at zero, on a 32-bit tick. */
  function TimeLeft(timeout: int, start: int, now: int): int {
    var left := Int32(timeout - (now - start) % 0x1_0000_0000);
    if left < 0 then 0 else left
  }

  function Int32(n: int): int {
    (n + 0x8000_0000) % 0x1_0000_0000 - 0x8000_0000
  }

  /** After a wait of d ticks the time left is what remains of the timeout, unless d overshoots it by more than 2^31. */
  lemma TimeLeftExact(timeout: int, start: int, now: int)
    requires 0 < timeout < 0x8000_0000
    ensures var d := (now - start) % 0x1_0000_0000;
            TimeLeft(timeout, start, now) == (if d < timeout then timeout - d else 0) <==> d <= timeout + 0x8000_0000
  {
    var d := (now - start) % 0x1_0000_0000;
    var n := timeout - d;
    if n < -0x8000_0000 {
      assert Int32(n) == n + 0x1_0000_0000;
    } else {
      assert Int32(n) == n;
    }
  }

  /** The threads of a list, in its order. */
  function Tids(q: seq<Waiter>): (s: seq<int>)
    ensures |s| == |q| && forall i :: 0 <= i < |q| ==> s[i] == q[i].tid
  {
    seq(|q|, i requires 0 <= i < |q| => q[i].tid)
  }

  /** rt_ipc_list_resume_all. */
  method ResumeAll(list: seq<Waiter>) returns (rest: seq<Waiter>, failed: seq<int>)
    ensures rest == []
    ensures failed == Tids(list)
  {
    rest, failed := list, [];
    while rest != []
      invariant |failed| <= |list| && rest == list[|failed|..]
      invariant forall i :: 0 <= i < |failed| ==> failed[i] == list[i].tid
      decreases |rest|
    {
      failed := failed + [rest[0].tid];
      rest := rest[1..];
    }
  }
}

/** Runs of one suspend list. */
module SuspendListRuns {
  import opened SuspendLists

  /** What happens to a suspend list, with the clock that stamps arrivals. */
  datatype Op = Arrive(t: int, p: int) | ResumeFirst | Expire(t: int) | ChangePriority(t: int, p: int)

  function Step(q: seq<Waiter>, now: int, fifo: bool, op: Op): seq<Waiter> {
    match op
    case Arrive(t, p) => if Waits(q, t) then q else Enqueue(q, Waiter(t, p, now), fifo)
    case ResumeFirst => if q == [] then q else q[1..]
    case Expire(t) => Leave(q, t)
    case ChangePriority(t, p) => SetPriority(q, t, p)
  }

  function Run(q: seq<Waiter>, now: int, fifo: bool, ops: seq<Op>): seq<Waiter>
    decreases |ops|
  {
    if ops == [] then q else Run(Step(q, now, fifo, ops[0]), now + 1, fifo, ops[1..])
  }

  lemma StepOrdered(q: seq<Waiter>, now: int, fifo: bool, op: Op)
    requires Ordered(q, fifo) && Apart(q) && Earlier(q, now)
    requires !fifo ==> !op.ChangePriority?
    ensures Ordered(Step(q, now, fifo, op), fifo) && Apart(Step(q, now, fifo, op))
            && Earlier(Step(q, now, fifo, op), now + 1)
  {
    hide Enqueue, Leave, Find;
    match op
    case Arrive(t, p) =>
      if !Waits(q, t) {
        var w := Waiter(t, p, now);
        EnqueueOrdered(q, w, fifo);
        EnqueueApart(q, w, fifo);
        EnqueueEarlier(q, w, fifo);
      }
    case ResumeFirst =>
    case Expire(t) => LeaveKeeps(q, t, fifo, now);
    case ChangePriority(t, p) =>
  }

  /**
   * A list that starts in order stays in order over every run; with priorities, while no suspended thread changes
   * its own.
   */
  lemma {:induction false} RunOrdered(q: seq<Waiter>, now: int, fifo: bool, ops: seq<Op>)
    requires Ordered(q, fifo) && Apart(q) && Earlier(q, now)
    requires !fifo ==> forall i :: 0 <= i < |ops| ==> !ops[i].ChangePriority?
    ensures Ordered(Run(q, now, fifo, ops), fifo) && Apart(Run(q, now, fifo, ops))
    decreases |ops|
  {
    hide Ordered, Apart, Earlier, Step;
    if ops != [] {
      StepOrdered(q, now, fifo, ops[0]);
      RunOrdered(Step(q, now, fifo, ops[0]), now + 1, fifo, ops[1..]);
    }
  }
}
