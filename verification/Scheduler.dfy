/** kservice.c: __rt_ffs and the bit masks of the ready group. */
module FindFirstSet {
  import opened Words

  /** The entries 00, 10, ..., F0 of __lowest_bit_bitmap. */
  function First(n: bv32): int {
    if n == 1 then 4 else if n == 2 then 5 else if n == 3 then 4 else if n == 4 then 6 else if n == 5 then 4
    else if n == 6 then 5 else if n == 7 then 4 else if n == 8 then 7 else if n == 9 then 4 else if n == 10 then 5
    else if n == 11 then 4 else if n == 12 then 6 else if n == 13 then 4 else if n == 14 then 5 else if n == 15 then 4
    else 0
  }

  /** The other fifteen entries of a row; all rows agree on them. */
  function Rest(n: bv32): int {
    if n == 2 then 1 else if n == 4 then 2 else if n == 6 then 1 else if n == 8 then 3 else if n == 10 then 1
    else if n == 12 then 2 else if n == 14 then 1 else 0
  }

  function Entry(b: bv32): int {
    if b & 15 == 0 then First(b >> 4) else Rest(b & 15)
  }

  /** __rt_ffs, by bytes. */
  function Ffs(v: bv32): int {
    if v == 0 then 0
    else if v & 0xff != 0 then Entry(v & 0xff) + 1
    else if v & 0xff00 != 0 then Entry((v & 0xff00) >> 8) + 9
    else if v & 0xff0000 != 0 then Entry((v & 0xff0000) >> 16) + 17
    else Entry((v & 0xff000000) >> 24) + 25
  }

  /** `1 << p`. */
  function Mask(p: int): bv32
    requires 0 <= p < 32
  {
    match p
    case 0 => 0x1
    case 1 => 0x2
    case 2 => 0x4
    case 3 => 0x8
    case 4 => 0x10
    case 5 => 0x20
    case 6 => 0x40
    case 7 => 0x80
    case 8 => 0x100
    case 9 => 0x200
    case 10 => 0x400
    case 11 => 0x800
    case 12 => 0x1000
    case 13 => 0x2000
    case 14 => 0x4000
    case 15 => 0x8000
    case 16 => 0x10000
    case 17 => 0x20000
    case 18 => 0x40000
    case 19 => 0x80000
    case 20 => 0x100000
    case 21 => 0x200000
    case 22 => 0x400000
    case 23 => 0x800000
    case 24 => 0x1000000
    case 25 => 0x2000000
    case 26 => 0x4000000
    case 27 => 0x8000000
    case 28 => 0x10000000
    case 29 => 0x20000000
    case 30 => 0x40000000
    case _ => 0x80000000
  }

  function With(g: bv32, m: bv32): bv32 {
    g | m
  }

  function Minus(g: bv32, m: bv32): bv32 {
    g & !m
  }

  function And(g: bv32, m: bv32): bv32 {
    g & m
  }

  predicate Bit(g: bv32, p: int)
    requires 0 <= p < 32
  {
    And(g, Mask(p)) != 0
  }

  /** The position of the lowest bit set. */
  function Lowest(g: bv32): int
    requires g != 0
  {
    Ffs(g) - 1
  }

  lemma LowestRange(g: bv32)
    requires g != 0
    ensures 0 <= Lowest(g) < 32
  {
  }

  /** __rt_ffs counts from one; it names a bit that is set. */
  lemma LowestSet(g: bv32)
    requires g != 0
    ensures 0 <= Lowest(g) < 32 && Bit(g, Lowest(g))
  {
    LowestRange(g);
  }

  /** No lower bit is set. */
  lemma LowestLeast(g: bv32, q: int)
    requires g != 0 && 0 <= q < 32 && Bit(g, q)
    ensures Lowest(g) <= q
  {
  }

  lemma MaskNonzero(p: int)
    requires 0 <= p < 32
    ensures Mask(p) != 0
  {
  }

  lemma MaskApart(p: int, q: int)
    requires 0 <= p < q < 32
    ensures And(Mask(p), Mask(q)) == 0
  {
  }

  lemma AndSwap(a: bv32, b: bv32)
    ensures And(a, b) == And(b, a)
  {
  }

  lemma WithOther(g: bv32, a: bv32, b: bv32)
    requires And(a, b) == 0
    ensures And(With(g, a), b) == And(g, b)
  {
  }

  lemma MinusOther(g: bv32, a: bv32, b: bv32)
    requires And(a, b) == 0
    ensures And(Minus(g, a), b) == And(g, b)
  {
  }

  lemma WithOwn(g: bv32, a: bv32)
    ensures And(With(g, a), a) == a
  {
  }

  lemma MinusOwn(g: bv32, a: bv32)
    ensures And(Minus(g, a), a) == 0
  {
  }

  /** Setting and clearing one bit leaves the others. */
  lemma BitSet(g: bv32, p: int, q: int)
    requires 0 <= p < 32 && 0 <= q < 32
    ensures Bit(With(g, Mask(p)), q) <==> Bit(g, q) || p == q
    ensures Bit(Minus(g, Mask(p)), q) <==> Bit(g, q) && p != q
  {
    hide With, Minus, And, Mask;
    MaskNonzero(p);
    if p == q {
      WithOwn(g, Mask(p));
      MinusOwn(g, Mask(p));
    } else {
      MaskApart(Min(p, q), Max(p, q));
      AndSwap(Mask(p), Mask(q));
      WithOther(g, Mask(p), Mask(q));
      MinusOther(g, Mask(p), Mask(q));
    }
  }
}

/** scheduler.c, thread.c and clock.c as functions on the scheduler's state. */
module SchedulerModel {
  import opened Words
  import opened Sequences
  import opened FindFirstSet

  datatype Stat = Init | Ready | Suspend | Running | Close

  /** The fields of struct rt_thread the scheduler uses; `yielding` is RT_THREAD_STAT_YIELD. */
  datatype Thread = Thread(stat: Stat, yielding: bool, initPrio: int, prio: int, mask: bv32, initTick: int,
      remaining: int)

  datatype Sched = Sched(threads: map<int, Thread>, ready: seq<seq<int>>, group: bv32, current: int, nest: int)

  /** Bit p of the group is set exactly when ready list p has a thread. */
  ghost predicate Indexed(g: bv32, ready: seq<seq<int>>) {
    && |ready| == 32
    && forall p :: 0 <= p < 32 ==> (Bit(g, p) <==> ready[p] != [])
  }

  /** The ready lists hold exactly the READY threads, each once, under its own priority. */
  ghost predicate Queued(ths: map<int, Thread>, ready: seq<seq<int>>) {
    && |ready| == 32
    && (forall p, t :: 0 <= p < 32 && t in ready[p] ==> t in ths && ths[t].stat == Ready && ths[t].prio == p)
    && (forall t :: t in ths && ths[t].stat == Ready ==> 0 <= ths[t].prio < 32 && t in ready[ths[t].prio])
    && (forall p :: 0 <= p < 32 ==> Distinct(ready[p]))
  }

  ghost predicate Sound(t: Thread) {
    && 0 <= t.prio < 32 && 0 <= t.initPrio < 32 && 0 <= t.initTick < WORD && 0 <= t.remaining < WORD
    && (t.stat != Init && t.stat != Close ==> t.mask == Mask(t.prio))
  }

  ghost predicate Table(s: Sched) {
    && Indexed(s.group, s.ready) && Queued(s.threads, s.ready)
    && (forall t :: t in s.threads ==> Sound(s.threads[t]))
  }

  /** Only the current thread is RUNNING, and it is in no ready list. */
  ghost predicate Inv(s: Sched) {
    && Table(s)
    && s.current in s.threads && s.threads[s.current].stat != Ready && s.threads[s.current].stat != Init
    && (forall t :: t in s.threads && s.threads[t].stat == Running ==> t == s.current)
    && -0x8000 <= s.nest < 0x8000
  }

  function Cur(s: Sched): Thread
    requires s.current in s.threads
  {
    s.threads[s.current]
  }

  function Put(s: Sched, t: int, th: Thread): Sched {
    s.(threads := s.threads[t := th])
  }

  /** rt_schedule_insert_thread. */
  function InsertThread(s: Sched, t: int): Sched
    requires t in s.threads && |s.ready| == 32 && 0 <= s.threads[t].prio < 32
  {
    var th := s.threads[t];
    if t == s.current then Put(s, t, th.(stat := Running))
    else Put(s, t, th.(stat := Ready)).(ready := s.ready[th.prio := s.ready[th.prio] + [t]],
        group := With(s.group, th.mask))
  }

  /** rt_schedule_remove_thread. */
  function RemoveThread(s: Sched, t: int): Sched
    requires t in s.threads && |s.ready| == 32 && 0 <= s.threads[t].prio < 32
  {
    var th := s.threads[t];
    var q := Drop(s.ready[th.prio], t);
    s.(ready := s.ready[th.prio := q], group := if q == [] then Minus(s.group, th.mask) else s.group)
  }

  /** The thread rt_schedule finds at the head of the most urgent list. */
  function Best(s: Sched): int
    requires Inv(s) && s.group != 0
  {
    LowestSet(s.group);
    hide Lowest, Bit;
    s.ready[Lowest(s.group)][0]
  }

  /** The current thread may go on although some thread is ready. */
  predicate Stays(s: Sched)
    requires Inv(s) && s.group != 0
  {
    LowestSet(s.group);
    hide Lowest, Bit;
    Cur(s).stat == Running && (Cur(s).prio < Lowest(s.group) || (Cur(s).prio == Lowest(s.group) && !Cur(s).yielding))
  }

  /** rt_schedule. */
  function Schedule(s: Sched): Sched
    requires Inv(s)
  {
    if s.nest != 0 || s.group == 0 then s
    else if Stays(s) then
      var r := RemoveThread(s, s.current);
      Put(r, s.current, Cur(s).(stat := Running))
    else
      var to, from := Best(s), s.current;
      BestReady(s);
      var s1 := if Cur(s).stat == Running then Put(s, from, Cur(s).(yielding := false)) else s;
      var s2 := s1.(current := to);
      var s3 := if Cur(s).stat == Running then InsertThread(s2, from) else s2;
      var s4 := RemoveThread(s3, to);
      Put(s4, to, s4.threads[to].(stat := Running))
  }

  lemma BestReady(s: Sched)
    requires Inv(s) && s.group != 0
    ensures var to := Best(s);
              to in s.threads && s.threads[to].stat == Ready && s.threads[to].prio == Lowest(s.group)
              && to != s.current
    ensures 0 <= Lowest(s.group) < 32 && s.ready[Lowest(s.group)] != [] && Best(s) == s.ready[Lowest(s.group)][0]
  {
    hide Lowest, Bit;
    LowestSet(s.group);
  }

  lemma AppendDistinct(q: seq<int>, t: int)
    requires Distinct(q) && t !in q
    ensures Distinct(q + [t])
  {
  }

  /** A thread that is not READY is in no ready list. */
  lemma NotListed(s: Sched, t: int, p: int)
    requires Table(s) && t in s.threads && s.threads[t].stat != Ready && 0 <= p < 32
    ensures t !in s.ready[p]
  {
  }

  lemma Listed(s: Sched, p: int, k: int)
    requires Table(s) && 0 <= p < 32 && 0 <= k < |s.ready[p]|
    ensures var t := s.ready[p][k]; t in s.threads && s.threads[t].stat == Ready && s.threads[t].prio == p
  {
    hide Bit, Mask;
    assert s.ready[p][k] in s.ready[p];
  }

  lemma InsertTable(s: Sched, t: int)
    requires Table(s) && t in s.threads && t != s.current && s.threads[t].stat in {Suspend, Running}
    ensures Table(InsertThread(s, t))
  {
    hide With, Minus, Bit, Mask;
    var p := s.threads[t].prio;
    assert Sound(s.threads[t]);
    NotListed(s, t, p);
    AppendDistinct(s.ready[p], t);
    InsertIndexed(s.group, s.ready, p, t);
  }

  lemma InsertIndexed(g: bv32, ready: seq<seq<int>>, p: int, t: int)
    requires Indexed(g, ready) && 0 <= p < 32
    ensures Indexed(With(g, Mask(p)), ready[p := ready[p] + [t]])
  {
    hide With, Minus, Bit, Mask;
    forall q | 0 <= q < 32 ensures Bit(With(g, Mask(p)), q) <==> ready[p := ready[p] + [t]][q] != [] {
      BitSet(g, p, q);
    }
  }

  lemma RemoveIndexed(g: bv32, ready: seq<seq<int>>, p: int, q: seq<int>)
    requires Indexed(g, ready) && 0 <= p < 32 && (ready[p] == [] ==> q == [])
    ensures Indexed(if q == [] then Minus(g, Mask(p)) else g, ready[p := q])
  {
    hide With, Minus, Bit, Mask;
    var g' := if q == [] then Minus(g, Mask(p)) else g;
    forall x | 0 <= x < 32 ensures Bit(g', x) <==> ready[p := q][x] != [] {
      BitSet(g, p, x);
    }
  }

  /** A thread leaves the ready table and changes to th, which is not READY. */
  lemma RemoveTable(s: Sched, t: int, th: Thread)
    requires Table(s) && t in s.threads && s.threads[t].stat !in {Init, Close} && th.stat != Ready && Sound(th)
    ensures Table(Put(RemoveThread(s, t), t, th))
  {
    hide With, Minus, Bit, Mask, Drop;
    var p := s.threads[t].prio;
    assert Sound(s.threads[t]);
    DropMembers(s.ready[p], t);
    RemoveIndexed(s.group, s.ready, p, Drop(s.ready[p], t));
  }

  /** A thread outside the ready table changes and stays outside. */
  lemma PutTable(s: Sched, t: int, th: Thread)
    requires Table(s) && t in s.threads && s.threads[t].stat != Ready && th.stat != Ready && Sound(th)
    ensures Table(Put(s, t, th))
  {
    hide Bit, Mask;
  }

  /** Removing a thread that is in no list changes nothing. */
  lemma RemoveAbsent(s: Sched, t: int)
    requires Table(s) && t in s.threads && s.threads[t].stat in {Suspend, Running}
    ensures RemoveThread(s, t).ready == s.ready
    ensures forall p :: 0 <= p < 32 ==> (Bit(RemoveThread(s, t).group, p) <==> Bit(s.group, p))
  {
    hide Bit, Mask, Minus;
    var p := s.threads[t].prio;
    assert Sound(s.threads[t]);
    NotListed(s, t, p);
    RemoveIndexed(s.group, s.ready, p, s.ready[p]);
    assert s.ready[p := s.ready[p]] == s.ready;
  }

  /**
   * What inserting a thread means: it is last in its own list and its bit is set; no other list, bit or thread
   * changed.
   */
  ghost predicate Inserted(s: Sched, r: Sched, t: int)
    requires t in s.threads && |s.ready| == 32
  {
    var p := s.threads[t].prio;
    && Table(r) && r.current == s.current && r.nest == s.nest
    && (forall x :: x in s.threads && x != t ==> x in r.threads && r.threads[x] == s.threads[x])
    && t in r.threads && r.threads[t].stat == (if t == s.current then Running else Ready) && r.threads[t].prio == p
    && (forall q :: 0 <= q < 32 ==>
          && r.ready[q] == (if q == p && t != s.current then s.ready[q] + [t] else s.ready[q])
          && (Bit(r.group, q) <==> Bit(s.group, q) || (q == p && t != s.current)))
  }

  lemma InsertMeaning(s: Sched, t: int)
    requires Table(s) && t in s.threads && s.threads[t].stat in {Suspend, Running}
    ensures Inserted(s, InsertThread(s, t), t)
  {
    hide With, Minus, Bit, Mask;
    assert Sound(s.threads[t]);
    if t == s.current {
      PutTable(s, t, s.threads[t].(stat := Running));
    } else {
      InsertTable(s, t);
      forall q | 0 <= q < 32 ensures Bit(InsertThread(s, t).group, q) <==> Bit(s.group, q) || q == s.threads[t].prio {
        BitSet(s.group, s.threads[t].prio, q);
      }
    }
  }

  /**
   * What removing means: it is in no list, the others keep their places, and the bits still say which lists have
   * threads.
   */
  ghost predicate Removed(s: Sched, r: Sched, t: int)
    requires t in s.threads && |s.ready| == 32
  {
    var p := s.threads[t].prio;
    && Indexed(r.group, r.ready) && r == s.(ready := r.ready, group := r.group)
    && 0 <= p < 32 && t !in r.ready[p]
    && (forall k :: 0 <= k < |s.ready[p]| && s.ready[p][k] == t ==> r.ready[p] == Without(s.ready[p], k))
    && (t !in s.ready[p] ==> r.ready[p] == s.ready[p])
    && (forall q :: 0 <= q < 32 && q != p ==> r.ready[q] == s.ready[q] && t !in r.ready[q])
  }

  lemma RemoveMeaning(s: Sched, t: int)
    requires Table(s) && t in s.threads && s.threads[t].stat !in {Init, Close}
    ensures Removed(s, RemoveThread(s, t), t)
  {
    hide With, Minus, Bit, Mask;
    var p := s.threads[t].prio;
    assert Sound(s.threads[t]);
    DropMembers(s.ready[p], t);
    RemoveIndexed(s.group, s.ready, p, Drop(s.ready[p], t));
    assert Distinct(s.ready[p]);
  }

  /** Removing undoes inserting: the same lists, the same bits. */
  lemma RemoveUndoesInsert(s: Sched, t: int)
    requires Table(s) && t in s.threads && t != s.current && s.threads[t].stat in {Suspend, Running}
    ensures var r := RemoveThread(InsertThread(s, t), t);
            r.ready == s.ready && forall q :: 0 <= q < 32 ==> (Bit(r.group, q) <==> Bit(s.group, q))
  {
    hide With, Minus, Bit, Mask, InsertThread, RemoveThread;
    var i, p := InsertThread(s, t), s.threads[t].prio;
    assert Sound(s.threads[t]);
    InsertMeaning(s, t);
    RemoveMeaning(i, t);
    NotListed(s, t, p);
    var r := RemoveThread(i, t);
    assert i.ready[p][|s.ready[p]|] == t;
    assert r.ready[p] == s.ready[p];
    assert r.ready == s.ready;
  }

  predicate Runnable(t: Thread) {
    t.stat == Ready || t.stat == Running
  }

  /** What the simple specification asks: the current thread runs and no ready thread is more urgent. */
  ghost predicate Settled(s: Sched) {
    && s.current in s.threads && Cur(s).stat == Running
    && forall t :: t in s.threads && s.threads[t].stat == Ready ==> Cur(s).prio <= s.threads[t].prio
  }

  /** rt_schedule keeps the table right, and with the scheduler unlocked settles it. */
  lemma ScheduleSettles(s: Sched)
    requires Inv(s)
    ensures Inv(Schedule(s))
    ensures s.nest != 0 ==> Schedule(s) == s
    ensures s.nest == 0 && (exists t :: t in s.threads && Runnable(s.threads[t])) ==> Settled(Schedule(s))
    ensures Schedule(s).threads.Keys == s.threads.Keys && Schedule(s).nest == s.nest
    ensures forall t :: t in s.threads ==> (Runnable(s.threads[t]) <==> Runnable(Schedule(s).threads[t]))
  {
    hide Bit, Mask, Minus, With, Lowest, Table;
    if s.nest == 0 {
      if s.group == 0 {
        NoneReady(s);
      } else if Stays(s) {
        ReadyBelow(s);
        TableParts(s);
        RemoveTable(s, s.current, Cur(s));
      } else {
        SwitchSettles(s);
      }
    }
  }

  lemma TableParts(s: Sched)
    requires Table(s)
    ensures forall t :: t in s.threads ==> Sound(s.threads[t])
    ensures |s.ready| == 32
  {
    hide Bit, Mask;
  }

  lemma NoneReady(s: Sched)
    requires Table(s) && s.group == 0
    ensures forall t :: t in s.threads ==> s.threads[t].stat != Ready
  {
    hide Mask, Bit;
    forall p | 0 <= p < 32 ensures !Bit(s.group, p) {
      NoBit(p);
    }
  }

  lemma NoBit(p: int)
    requires 0 <= p < 32
    ensures !Bit(0, p)
  {
    hide Mask;
  }

  lemma ReadyBelow(s: Sched)
    requires Table(s) && s.group != 0
    ensures 0 <= Lowest(s.group) < 32 && s.ready[Lowest(s.group)] != []
    ensures forall t :: t in s.threads && s.threads[t].stat == Ready ==> Lowest(s.group) <= s.threads[t].prio
  {
    hide Mask, Bit, Lowest;
    LowestSet(s.group);
    forall t | t in s.threads && s.threads[t].stat == Ready ensures Lowest(s.group) <= s.threads[t].prio {
      LowestLeast(s.group, s.threads[t].prio);
    }
  }

  /** The switch: the head of the most urgent list runs, and a thread that was running goes to the tail of its list. */
  lemma SwitchSettles(s: Sched)
    requires Inv(s) && s.nest == 0 && s.group != 0 && !Stays(s)
    ensures Inv(Schedule(s)) && Settled(Schedule(s)) && Schedule(s).current == Best(s)
    ensures Schedule(s).threads.Keys == s.threads.Keys && Schedule(s).nest == s.nest
    ensures forall t :: t in s.threads ==> (Runnable(s.threads[t]) <==> Runnable(Schedule(s).threads[t]))
  {
    hide Bit, Mask, Minus, With, Lowest, Table;
    var to, from := Best(s), s.current;
    BestReady(s);
    TableParts(s);
    ReadyBelow(s);
    var s3 := s.(current := to);
    TableMoves(s, to);
    if Cur(s).stat == Running {
      var s1 := Put(s, from, Cur(s).(yielding := false));
      PutTable(s, from, Cur(s).(yielding := false));
      TableMoves(s1, to);
      InsertTable(s1.(current := to), from);
      s3 := InsertThread(s1.(current := to), from);
    }
    TableParts(s3);
    RemoveTable(s3, to, s3.threads[to].(stat := Running));
  }

  /** Only stat and the YIELD flag of a thread may differ. */
  predicate SameFields(a: Thread, b: Thread) {
    a == b.(stat := a.stat, yielding := a.yielding)
  }

  /** p is the most urgent priority with a ready thread. */
  ghost predicate Top(s: Sched, p: int)
    requires |s.ready| == 32
  {
    0 <= p < 32 && s.ready[p] != [] && forall x :: 0 <= x < p ==> s.ready[x] == []
  }

  /** The current thread runs and no ready one is more urgent, nor as urgent while it has used up its slice. */
  predicate RunsOn(s: Sched, p: int)
    requires s.current in s.threads
  {
    Cur(s).stat == Running && (Cur(s).prio < p || (Cur(s).prio == p && !Cur(s).yielding))
  }

  /**
   * The processor goes to the head of list p. It alone leaves its list and is RUNNING; a runner that gives way
   * goes to the end of its own list, READY and without its YIELD flag; nobody else, and nothing else of the two,
   * changes.
   */
  ghost predicate Switched(s: Sched, r: Sched, p: int)
    requires s.current in s.threads && |s.ready| == 32 && 0 <= p < 32 && s.ready[p] != []
  {
    var to, from, runner := s.ready[p][0], s.current, Cur(s).stat == Running;
    && r.current == to && to != from && to in s.threads && r.nest == s.nest && |r.ready| == 32
    && r.threads == s.threads[from := if runner then Cur(s).(stat := Ready, yielding := false) else Cur(s)]
                             [to := s.threads[to].(stat := Running)]
    && forall x :: 0 <= x < 32 ==>
         r.ready[x] == (if x == p then s.ready[x][1..] else s.ready[x])
             + (if runner && x == Cur(s).prio then [from] else [])
  }

  /** The whole effect of rt_schedule with the lock open. */
  lemma ScheduleEffect(s: Sched, p: int)
    requires Inv(s) && s.nest == 0 && |s.ready| == 32 && Top(s, p)
    ensures RunsOn(s, p) ==>
              var r := Schedule(s);
              r.threads == s.threads && r.ready == s.ready && r.current == s.current && r.nest == s.nest
    ensures !RunsOn(s, p) ==> Switched(s, Schedule(s), p)
    ensures forall t :: t in s.threads ==> t in Schedule(s).threads && SameFields(Schedule(s).threads[t], s.threads[t])
  {
    hide Bit, Mask, Minus, With, Lowest, Table, RemoveThread, InsertThread;
    TopIsLowest(s, p);
    if Stays(s) {
      TableParts(s);
      RemoveAbsent(s, s.current);
      RemoveOnlyLists(s, s.current);
    } else {
      SwitchEffect(s, p);
    }
  }

  /** Nobody is ready: nothing happens. */
  lemma ScheduleIdle(s: Sched)
    requires Inv(s) && |s.ready| == 32 && forall x :: 0 <= x < 32 ==> s.ready[x] == []
    ensures Schedule(s) == s
  {
    hide Bit, Mask, Minus, With, Lowest;
    if s.group != 0 {
      LowestSet(s.group);
    }
  }

  lemma TopIsLowest(s: Sched, p: int)
    requires Table(s) && |s.ready| == 32 && Top(s, p)
    ensures s.group != 0 && Lowest(s.group) == p
  {
    hide Bit, Mask, Lowest;
    assert Bit(s.group, p);
    if s.group == 0 {
      NoBit(p);
    }
    LowestSet(s.group);
    LowestLeast(s.group, p);
  }

  lemma RemoveOnlyLists(s: Sched, t: int)
    requires t in s.threads && |s.ready| == 32 && 0 <= s.threads[t].prio < 32
    ensures RemoveThread(s, t) == s.(ready := RemoveThread(s, t).ready, group := RemoveThread(s, t).group)
    ensures |RemoveThread(s, t).ready| == 32
  {
    hide Minus;
  }

  lemma SwitchEffect(s: Sched, p: int)
    requires Inv(s) && s.nest == 0 && |s.ready| == 32 && Top(s, p) && s.group != 0 && Lowest(s.group) == p && !Stays(s)
    ensures Switched(s, Schedule(s), p)
  {
    hide Bit, Mask, Minus, With, Lowest, Table, RemoveThread, InsertThread;
    var to, from := Best(s), s.current;
    BestReady(s);
    TableParts(s);
    var s3 := s.(current := to);
    TableMoves(s, to);
    if Cur(s).stat == Running {
      var s1 := Put(s, from, Cur(s).(yielding := false));
      PutTable(s, from, Cur(s).(yielding := false));
      TableMoves(s1, to);
      InsertMeaning(s1.(current := to), from);
      InsertThreads(s1.(current := to), from);
      s3 := InsertThread(s1.(current := to), from);
    }
    TableParts(s3);
    RemoveMeaning(s3, to);
    assert s3.ready[p][0] == to;
    assert Without(s3.ready[p], 0) == s3.ready[p][1..];
  }

  lemma InsertThreads(s: Sched, t: int)
    requires t in s.threads && |s.ready| == 32 && 0 <= s.threads[t].prio < 32 && t != s.current
    ensures InsertThread(s, t).threads == s.threads[t := s.threads[t].(stat := Ready)]
  {
    hide With;
  }

  lemma TableMoves(s: Sched, c: int)
    requires Table(s)
    ensures Table(s.(current := c))
  {
    hide Bit, Mask;
  }

  /** rt_thread_suspend; nothing but an error for a thread that is neither READY nor RUNNING. */
  function SuspendThread(s: Sched, t: int): Sched
    requires Inv(s) && t in s.threads
  {
    var th := s.threads[t];
    if !Runnable(th) then s else TableParts(s); Put(RemoveThread(s, t), t, th.(stat := Suspend))
  }

  /** rt_thread_resume. */
  function ResumeThread(s: Sched, t: int): Sched
    requires Inv(s) && t in s.threads
  {
    if s.threads[t].stat != Suspend then s else TableParts(s); InsertThread(s, t)
  }

  /** RT_THREAD_CTRL_CHANGE_PRIORITY: a READY thread moves to the tail of its new list. */
  function ChangePriority(s: Sched, t: int, p: int): Sched
    requires Inv(s) && t in s.threads && 0 <= p < 32
  {
    var th := s.threads[t].(prio := p, mask := Mask(p));
    if s.threads[t].stat == Ready then TableParts(s); InsertThread(Put(RemoveThread(s, t), t, th), t)
    else Put(s, t, th)
  }

  /** The thread is put on its feet by rt_thread_startup, before the schedule. */
  function Started(s: Sched, t: int): Sched
    requires Inv(s) && t in s.threads
  {
    TableParts(s);
    var th := s.threads[t];
    InsertThread(Put(s, t, th.(prio := th.initPrio, mask := Mask(th.initPrio), stat := Suspend)), t)
  }

  /** rt_thread_detach, and rt_thread_exit before its schedule. */
  function Closed(s: Sched, t: int): Sched
    requires Inv(s) && t in s.threads
  {
    TableParts(s);
    var th := s.threads[t];
    Put(if th.stat == Init then s else RemoveThread(s, t), t, th.(stat := Close))
  }

  /** A 16-bit signed counter. */
  function Int16(n: int): int {
    (n + 0x8000) % 0x1_0000 - 0x8000
  }

  /** rt_enter_critical. */
  function EnterCritical(s: Sched): Sched {
    s.(nest := Int16(s.nest + 1))
  }

  /** rt_exit_critical. */
  function ExitCritical(s: Sched): Sched
    requires Inv(s)
  {
    if Int16(s.nest - 1) <= 0 then Nested(s, 0); Schedule(s.(nest := 0)) else s.(nest := Int16(s.nest - 1))
  }

  /** The part of rt_tick_increase before the timers. */
  function Tick(s: Sched): Sched
    requires Inv(s)
  {
    TableParts(s);
    var th := Cur(s);
    var left := (th.remaining - 1) % WORD;
    var th' := if left == 0 then th.(remaining := th.initTick, yielding := true) else th.(remaining := left);
    CurPut(s, th');
    if left == 0 then Schedule(Put(s, s.current, th')) else Put(s, s.current, th')
  }

  lemma Nested(s: Sched, n: int)
    requires Inv(s) && -0x8000 <= n < 0x8000
    ensures Inv(s.(nest := n))
  {
    hide Bit, Mask;
  }

  /** The current thread changes without becoming READY. */
  lemma CurPut(s: Sched, th: Thread)
    requires Inv(s) && Sound(th) && th.stat !in {Ready, Init}
    ensures Inv(Put(s, s.current, th))
  {
    hide Bit, Mask, Table;
    PutTable(s, s.current, th);
  }

  datatype Op =
    | DoSchedule | DoTick | DoEnter | DoExit
    | DoSuspend(t: int) | DoResume(t: int) | DoTimeout(t: int) | DoPriority(t: int, p: int)
    | DoStartup(t: int) | DoExitThread(t: int) | DoDetach(t: int)

  /** What the callers of these functions respect. */
  predicate Enabled(s: Sched, op: Op) {
    match op
    case DoSuspend(t) => t in s.threads
    case DoResume(t) => t in s.threads
    case DoTimeout(t) => t in s.threads && s.threads[t].stat == Suspend
    case DoPriority(t, p) => t in s.threads && 0 <= p < 32
    case DoStartup(t) => t in s.threads && s.threads[t].stat == Init
    case DoExitThread(t) => t == s.current && t in s.threads && s.threads[t].stat == Running
    case DoDetach(t) => t in s.threads && s.threads[t].stat != Close
    case _ => true
  }

  lemma SuspendInv(s: Sched, t: int)
    requires Inv(s) && t in s.threads
    ensures Inv(SuspendThread(s, t))
  {
    hide Bit, Mask, Table, With, Minus;
    TableParts(s);
    if Runnable(s.threads[t]) {
      RemoveTable(s, t, s.threads[t].(stat := Suspend));
    }
  }

  lemma ResumeInv(s: Sched, t: int)
    requires Inv(s) && t in s.threads && s.threads[t].stat == Suspend
    ensures Inv(InsertThread(s, t))
  {
    hide Bit, Mask, Table, With, Minus;
    TableParts(s);
    if t == s.current {
      PutTable(s, t, s.threads[t].(stat := Running));
    } else {
      InsertTable(s, t);
    }
  }

  lemma PriorityInv(s: Sched, t: int, p: int)
    requires Inv(s) && t in s.threads && 0 <= p < 32
    ensures Inv(ChangePriority(s, t, p))
  {
    hide Bit, Mask, Table, With, Minus;
    TableParts(s);
    var th := s.threads[t].(prio := p, mask := Mask(p));
    if s.threads[t].stat == Ready {
      var r := Put(RemoveThread(s, t), t, th.(stat := Suspend));
      RemoveTable(s, t, th.(stat := Suspend));
      InsertTable(r, t);
      var r' := Put(RemoveThread(s, t), t, th);
      assert InsertThread(r', t) == InsertThread(r, t) by {
        assert r'.threads[t := th.(stat := Ready)] == r.threads[t := th.(stat := Ready)];
      }
    } else {
      PutTable(s, t, th);
    }
  }

  /** A tick counts the slice of the current thread alone; the last one refills it and asks for a hand-over. */
  lemma TickMeaning(s: Sched)
    requires Inv(s)
    ensures 1 < Cur(s).remaining ==> Tick(s) == Put(s, s.current, Cur(s).(remaining := Cur(s).remaining - 1))
    ensures Cur(s).remaining == 0 ==> Tick(s) == Put(s, s.current, Cur(s).(remaining := WORD - 1))
    ensures Cur(s).remaining == 1 ==>
              var full := Put(s, s.current, Cur(s).(remaining := Cur(s).initTick, yielding := true));
              Inv(full) && Tick(s) == Schedule(full)
  {
    hide Bit, Mask, Table, Schedule;
    TableParts(s);
    CurPut(s, Cur(s).(remaining := Cur(s).initTick, yielding := true));
  }

  /** Suspending takes a runnable thread out of the ready table, and tells any other an error. */
  lemma SuspendMeaning(s: Sched, t: int)
    requires Inv(s) && t in s.threads && |s.ready| == 32
    ensures var r := SuspendThread(s, t);
            if Runnable(s.threads[t]) then
              && r.threads == s.threads[t := s.threads[t].(stat := Suspend)]
              && Removed(s, r.(threads := s.threads), t)
            else r == s
  {
    hide Bit, Mask, Table, With, Minus, RemoveThread, Removed;
    if Runnable(s.threads[t]) {
      TableParts(s);
      RemoveMeaning(s, t);
      RemoveOnlyLists(s, t);
      var r := SuspendThread(s, t);
      assert r.(threads := s.threads) == RemoveThread(s, t);
    }
  }

  /** Resuming puts a suspended thread at the end of its list, and tells any other an error. */
  lemma ResumeMeaning(s: Sched, t: int)
    requires Inv(s) && t in s.threads && |s.ready| == 32
    ensures if s.threads[t].stat == Suspend then Inserted(s, ResumeThread(s, t), t) else ResumeThread(s, t) == s
  {
    hide Bit, Mask, Table, InsertThread, Inserted;
    if s.threads[t].stat == Suspend {
      InsertMeaning(s, t);
    }
  }

  /** A READY thread goes to the end of the list of its new priority; any other only changes its fields. */
  lemma PriorityMeaning(s: Sched, t: int, p: int)
    requires Inv(s) && t in s.threads && 0 <= p < 32 && |s.ready| == 32
    ensures var r, was := ChangePriority(s, t, p), s.threads[t].prio;
            && r.threads == s.threads[t := s.threads[t].(prio := p, mask := Mask(p))] && r.current == s.current
            && r.nest == s.nest && |r.ready| == 32 && 0 <= was < 32
            && if s.threads[t].stat != Ready then r.ready == s.ready && r.group == s.group
               else
                 && Indexed(r.group, r.ready)
                 && (forall k :: 0 <= k < |s.ready[was]| && s.ready[was][k] == t ==>
                       r.ready[p] == (if was == p then Without(s.ready[p], k) else s.ready[p]) + [t]
                       && (was != p ==> r.ready[was] == Without(s.ready[was], k)))
                 && forall x :: 0 <= x < 32 && x != p && x != was ==> r.ready[x] == s.ready[x]
  {
    hide Bit, Mask, Table, With, Minus, RemoveThread, Indexed;
    TableParts(s);
    PriorityInv(s, t, p);
    if s.threads[t].stat == Ready {
      RemoveMeaning(s, t);
      RemoveOnlyLists(s, t);
      NotCurrent(s, t);
      TableIndexed(ChangePriority(s, t, p));
    }
  }

  lemma NotCurrent(s: Sched, t: int)
    requires Inv(s) && t in s.threads && s.threads[t].stat in {Ready, Init}
    ensures t != s.current
  {
  }

  lemma TableIndexed(s: Sched)
    requires Inv(s)
    ensures Indexed(s.group, s.ready)
  {
    hide Bit;
  }

  /** A started thread is READY at its initial priority, last in that list. */
  lemma StartedMeaning(s: Sched, t: int)
    requires Inv(s) && t in s.threads && s.threads[t].stat == Init && |s.ready| == 32
    ensures var r, p := Started(s, t), s.threads[t].initPrio;
            && r.threads == s.threads[t := s.threads[t].(prio := p, mask := Mask(p), stat := Ready)]
            && r.current == s.current && r.nest == s.nest && |r.ready| == 32 && 0 <= p < 32
            && forall x :: 0 <= x < 32 ==> r.ready[x] == s.ready[x] + (if x == p then [t] else [])
  {
    hide Bit, Mask, Table, With;
    TableParts(s);
    NotCurrent(s, t);
  }

  /** A closed thread is in no list. */
  lemma ClosedMeaning(s: Sched, t: int)
    requires Inv(s) && t in s.threads && s.threads[t].stat != Close && |s.ready| == 32
    ensures var r := Closed(s, t);
            && r.threads == s.threads[t := s.threads[t].(stat := Close)] && r.current == s.current && r.nest == s.nest
            && if s.threads[t].stat == Init then r.ready == s.ready && r.group == s.group
               else Removed(s, r.(threads := s.threads), t)
  {
    hide Bit, Mask, Table, With, Minus, RemoveThread, Removed;
    TableParts(s);
    if s.threads[t].stat != Init {
      RemoveMeaning(s, t);
      RemoveOnlyLists(s, t);
      assert Closed(s, t).(threads := s.threads) == RemoveThread(s, t);
    }
  }

  lemma StartedInv(s: Sched, t: int)
    requires Inv(s) && t in s.threads && s.threads[t].stat == Init
    ensures Inv(Started(s, t))
  {
    hide Bit, Mask, Table, With, Minus;
    TableParts(s);
    var th := s.threads[t];
    var th' := th.(prio := th.initPrio, mask := Mask(th.initPrio), stat := Suspend);
    PutTable(s, t, th');
    ResumeInv(Put(s, t, th'), t);
  }

  lemma ClosedInv(s: Sched, t: int)
    requires Inv(s) && t in s.threads && s.threads[t].stat != Close
    ensures Inv(Closed(s, t))
  {
    hide Bit, Mask, Table, With, Minus;
    TableParts(s);
    if s.threads[t].stat == Init {
      PutTable(s, t, s.threads[t].(stat := Close));
    } else {
      RemoveTable(s, t, s.threads[t].(stat := Close));
    }
  }

  function Step(s: Sched, op: Op): (r: Sched)
    requires Inv(s)
    ensures Inv(r)
  {
    if !Enabled(s, op) then s
    else match op
      case DoSchedule => ScheduleSettles(s); Schedule(s)
      case DoTick => TickInv(s); Tick(s)
      case DoEnter => Nested(s, Int16(s.nest + 1)); EnterCritical(s)
      case DoExit => ExitInv(s); ExitCritical(s)
      case DoSuspend(t) => SuspendInv(s, t); SuspendThread(s, t)
      case DoResume(t) => if s.threads[t].stat == Suspend then ResumeInv(s, t); ResumeThread(s, t) else s
      case DoTimeout(t) => ResumeInv(s, t); ScheduleSettles(InsertThread(s, t)); Schedule(InsertThread(s, t))
      case DoPriority(t, p) => PriorityInv(s, t, p); ChangePriority(s, t, p)
      case DoStartup(t) => StartedInv(s, t); ScheduleSettles(Started(s, t)); Schedule(Started(s, t))
      case DoExitThread(t) => ClosedInv(s, t); ScheduleSettles(Closed(s, t)); Schedule(Closed(s, t))
      case DoDetach(t) => ClosedInv(s, t); Closed(s, t)
  }

  lemma TickInv(s: Sched)
    requires Inv(s)
    ensures Inv(Tick(s))
  {
    hide Bit, Mask, Table, Schedule;
    TableParts(s);
    var th := Cur(s);
    if (th.remaining - 1) % WORD == 0 {
      CurPut(s, th.(remaining := th.initTick, yielding := true));
      ScheduleSettles(Put(s, s.current, th.(remaining := th.initTick, yielding := true)));
    } else {
      CurPut(s, th.(remaining := (th.remaining - 1) % WORD));
    }
  }

  lemma ExitInv(s: Sched)
    requires Inv(s)
    ensures Inv(ExitCritical(s))
  {
    Nested(s, 0);
    Nested(s, Int16(s.nest - 1));
    ScheduleSettles(s.(nest := 0));
  }

  /** A step that does not take the idle thread away from the processor. */
  predicate Spares(op: Op, idle: int) {
    op != DoSuspend(idle) && op != DoExitThread(idle) && op != DoDetach(idle)
  }

  lemma StepSpares(s: Sched, op: Op, idle: int)
    requires Inv(s) && idle in s.threads && Runnable(s.threads[idle]) && Spares(op, idle)
    ensures idle in Step(s, op).threads && Runnable(Step(s, op).threads[idle])
  {
    hide Bit, Mask, Table, With, Minus, Schedule;
    TableParts(s);
    if Enabled(s, op) {
      match op
      case DoSchedule => ScheduleSettles(s);
      case DoTick => TickSpares(s, idle);
      case DoExit =>
        Nested(s, 0);
        ScheduleSettles(s.(nest := 0));
      case DoTimeout(t) =>
        ResumeInv(s, t);
        ScheduleSettles(InsertThread(s, t));
      case DoStartup(t) =>
        StartedInv(s, t);
        ScheduleSettles(Started(s, t));
      case DoExitThread(t) =>
        ClosedInv(s, t);
        ScheduleSettles(Closed(s, t));
      case _ =>
    }
  }

  lemma TickSpares(s: Sched, idle: int)
    requires Inv(s) && idle in s.threads && Runnable(s.threads[idle])
    ensures idle in Tick(s).threads && Runnable(Tick(s).threads[idle])
  {
    hide Bit, Mask, Table, Schedule;
    TableParts(s);
    var th := Cur(s);
    CurPut(s, th.(remaining := th.initTick, yielding := true));
    ScheduleSettles(Put(s, s.current, th.(remaining := th.initTick, yielding := true)));
  }

  /** The states a run passes through. */
  function Trace(s: Sched, ops: seq<Op>): (ss: seq<Sched>)
    requires Inv(s)
    ensures |ss| == |ops| + 1 && ss[0] == s
    decreases |ops|
  {
    if ops == [] then [s] else [s] + Trace(Step(s, ops[0]), ops[1..])
  }

  /**
   * In every state of every run the index agrees with the lists, and a schedule with the lock open settles the
   * processor.
   */
  lemma {:induction false} RunSettles(s: Sched, ops: seq<Op>, idle: int)
    requires Inv(s) && idle in s.threads && Runnable(s.threads[idle])
    requires forall i :: 0 <= i < |ops| ==> Spares(ops[i], idle)
    ensures forall i :: 0 <= i < |Trace(s, ops)| ==>
              Inv(Trace(s, ops)[i]) && (Trace(s, ops)[i].nest == 0 ==> Settled(Schedule(Trace(s, ops)[i])))
    decreases |ops|
  {
    hide Inv, Step, Schedule, Settled, Spares;
    SettlesWith(s, idle);
    if ops != [] {
      StepSpares(s, ops[0], idle);
      RunSettles(Step(s, ops[0]), ops[1..], idle);
    }
  }

  lemma SettlesWith(s: Sched, idle: int)
    requires Inv(s) && idle in s.threads && Runnable(s.threads[idle])
    ensures s.nest == 0 ==> Settled(Schedule(s))
  {
    ScheduleSettles(s);
  }

  /** The outermost rt_exit_critical settles; an inner one, and anything under the lock, does not switch. */
  lemma ExitSettles(s: Sched)
    requires Inv(s) && (exists t :: t in s.threads && Runnable(s.threads[t]))
    ensures s.nest == 1 ==> Settled(ExitCritical(s)) && ExitCritical(s).nest == 0
    ensures s.nest > 1 ==> ExitCritical(s) == s.(nest := s.nest - 1)
    ensures s.nest != 0 ==> Schedule(s) == s
  {
    Nested(s, 0);
    ScheduleSettles(s.(nest := 0));
    hide Inv, Schedule;
    assert Int16(0) == 0;
  }

  /** The 16-bit nest: it stays a lock count up to 32767, and past that an exit no longer undoes an enter. */
  lemma ExitUndoesEnter(s: Sched)
    requires Inv(s) && s.nest != 0
    ensures Inv(EnterCritical(s))
    ensures ExitCritical(EnterCritical(s)) == s <==> s.nest > 0
    ensures s.nest > 0 ==> (EnterCritical(s).nest > 0 <==> s.nest < 0x7fff)
  {
    hide Bit, Mask, Table, Schedule;
    Nested(s, Int16(s.nest + 1));
    var e := EnterCritical(s);
    Nested(e, 0);
    ScheduleSettles(e.(nest := 0));
    if s.nest == 0x7fff {
      assert e.nest == -0x8000 && Int16(e.nest - 1) == 0x7fff;
    }
  }

  lemma ScheduleLocked(s: Sched)
    requires Inv(s) && s.nest != 0
    ensures Schedule(s) == s
  {
  }

  /**
   * Entering locks the scheduler, up to the range of the count; leaving again gives back what there was, or
   * schedules.
   */
  lemma EnterMeaning(s: Sched)
    requires Inv(s)
    ensures var e := EnterCritical(s);
            && Inv(e)
            && (e.nest != 0 ==> Schedule(e) == e)
            && (e.nest == 0 <==> s.nest == -1)
            && (s.nest == 0 ==> ExitCritical(e) == Schedule(s))
            && (s.nest > 0 ==> ExitCritical(e) == s)
  {
    hide Bit, Mask, Table, Schedule;
    Nested(s, Int16(s.nest + 1));
    if EnterCritical(s).nest != 0 {
      ScheduleLocked(EnterCritical(s));
    }
    if s.nest > 0 {
      ExitUndoesEnter(s);
    }
    hide Inv;
    if s.nest == 0 {
      assert EnterCritical(s).(nest := 0) == s;
    }
  }

  /** The whole effect of a schedule that rotates the current thread's list. */
  lemma Rotated(s: Sched)
    requires Inv(s) && s.nest == 0 && Settled(s) && Cur(s).yielding && |s.ready| == 32 && 0 <= Cur(s).prio < 32
    requires s.ready[Cur(s).prio] != []
    ensures var p, q, t := Cur(s).prio, s.ready[Cur(s).prio], Schedule(s);
            && q[0] in s.threads && q[0] != s.current
            && t.current == q[0] && t.nest == 0
            && t.ready == s.ready[p := q[1..] + [s.current]]
            && t.threads
                == s.threads[s.current := Cur(s).(stat := Ready,
                    yielding := false)][q[0] := s.threads[q[0]].(stat := Running)]
  {
    hide Bit, Mask, With, Minus, Lowest;
    var p, q := Cur(s).prio, s.ready[Cur(s).prio];
    SomeBit(s, p);
    ReadyBelow(s);
    BestReady(s);
    Listed(s, p, 0);
    assert q[0] in s.threads && s.threads[q[0]].prio == p && s.threads[q[0]].stat == Ready;
    assert Lowest(s.group) == p;
    FirstOut(q, s.current);
    assert Sound(s.threads[q[0]]) && Sound(Cur(s));
  }

  lemma SomeBit(s: Sched, p: int)
    requires Table(s) && 0 <= p < 32 && s.ready[p] != []
    ensures s.group != 0
  {
    hide Mask, Bit;
    NoBit(p);
  }

  lemma FirstOut(q: seq<int>, c: int)
    requires q != []
    ensures Drop(q + [c], q[0]) == q[1..] + [c]
  {
    assert IndexOf(q + [c], q[0]) == 0;
  }

  /** rt_thread_yield hands over exactly when the YIELD flag is set and a thread of the same priority is ready. */
  lemma YieldMoves(s: Sched)
    requires Inv(s) && s.nest == 0 && Settled(s) && |s.ready| == 32 && 0 <= Cur(s).prio < 32
    ensures Schedule(s).current != s.current <==> Cur(s).yielding && s.ready[Cur(s).prio] != []
  {
    hide Bit, Mask, With, Minus, Lowest;
    if Cur(s).yielding && s.ready[Cur(s).prio] != [] {
      Rotated(s);
    } else if s.group != 0 {
      ReadyBelow(s);
      BestReady(s);
    }
  }

  /** Two threads of one priority and no expired slice: rt_thread_yield returns to its caller. */
  lemma YieldKeepsRunning()
    ensures var a := Thread(Running, false, 10, 10, Mask(10), 5, 5);
            var s := Sched(map[0 := a, 1 := a.(stat := Ready)], seq(32, i => if i == 10 then [1] else []), Mask(10),
                0, 0);
            Inv(s) && Settled(s) && s.ready[Cur(s).prio] == [1] && Schedule(s).current == 0
  {
    hide With, Minus;
    var a := Thread(Running, false, 10, 10, Mask(10), 5, 5);
    var s := Sched(map[0 := a, 1 := a.(stat := Ready)], seq(32, i => if i == 10 then [1] else []), Mask(10), 0, 0);
    forall p | 0 <= p < 32 ensures Bit(Mask(10), p) <==> p == 10 {
    }
    hide Mask, Bit;
    assert Inv(s);
    YieldMoves(s);
  }

  /** The ticks until the current slice ends; a counter at zero wraps first. */
  function Span(t: Thread): int {
    if t.remaining == 0 then WORD else t.remaining
  }

  function Ticks(s: Sched, n: nat): Sched
    requires Inv(s)
    decreases n
  {
    if n == 0 then s else TickInv(s); Ticks(Tick(s), n - 1)
  }

  lemma {:induction false} TicksAdd(s: Sched, m: nat, n: nat)
    requires Inv(s)
    ensures Inv(Ticks(s, m)) && Ticks(s, m + n) == Ticks(Ticks(s, m), n)
    decreases m
  {
    hide Inv, Tick;
    if m > 0 {
      TickInv(s);
      TicksAdd(Tick(s), m - 1, n);
    }
  }

  /** What the round-robin results assume: an open lock, and nothing more urgent ready. */
  ghost predicate Calm(s: Sched) {
    && Inv(s) && s.nest == 0 && Settled(s)
    && |s.ready| == 32 && 0 <= Cur(s).prio < 32 && 0 <= Cur(s).remaining < WORD
  }

  /** Within a slice a tick only counts. */
  lemma TickCounts(s: Sched)
    requires Calm(s) && Span(Cur(s)) > 1
    ensures Tick(s) == Put(s, s.current, Cur(s).(remaining := Span(Cur(s)) - 1)) && Calm(Tick(s))
  {
    hide Bit, Mask, Table, Schedule;
    TableParts(s);
    var th := Cur(s);
    assert (th.remaining - 1) % WORD == Span(th) - 1;
    CurPut(s, th.(remaining := Span(th) - 1));
  }

  lemma {:induction false} SliceCounts(s: Sched, n: nat)
    requires Calm(s) && n < Span(Cur(s))
    ensures Calm(Ticks(s, n))
    ensures Ticks(s, n) == if n == 0 then s else Put(s, s.current, Cur(s).(remaining := Span(Cur(s)) - n))
    decreases n
  {
    hide Calm, Inv, Tick;
    CalmParts(s);
    if n > 0 {
      TickCounts(s);
      CalmParts(Tick(s));
      SliceCounts(Tick(s), n - 1);
    }
  }

  lemma CalmParts(s: Sched)
    requires Calm(s)
    ensures Inv(s) && s.current in s.threads && 0 <= Cur(s).remaining < WORD && s.nest == 0
    ensures |s.ready| == 32 && 0 <= Cur(s).prio < 32
  {
    hide Inv;
  }

  /** The last tick of a slice rotates the list by one. */
  lemma TickRotates(s: Sched)
    requires Calm(s) && Span(Cur(s)) == 1 && s.ready[Cur(s).prio] != []
    ensures var p, q, t := Cur(s).prio, s.ready[Cur(s).prio], Tick(s);
            && q[0] in s.threads && q[0] != s.current
            && t.current == q[0] && t.ready == s.ready[p := q[1..] + [s.current]]
            && t.threads
                == s.threads[s.current := Cur(s).(stat := Ready, yielding := false, remaining := Cur(s).initTick)]
                                     [q[0] := s.threads[q[0]].(stat := Running)]
            && Calm(t)
  {
    hide Bit, Mask, Table, Schedule;
    TableParts(s);
    var th := Cur(s);
    var th' := th.(remaining := th.initTick, yielding := true);
    assert (th.remaining - 1) % WORD == 0;
    CurPut(s, th');
    var u := Put(s, s.current, th');
    Rotated(u);
    ScheduleSettles(u);
    TableParts(Schedule(u));
    assert Sound(Cur(Schedule(u)));
  }

  lemma PeersListed(s: Sched)
    requires Calm(s)
    ensures var q := s.ready[Cur(s).prio];
            forall j :: 0 <= j < |q| ==> q[j] in s.threads && q[j] != s.current && s.threads[q[j]].prio == Cur(s).prio
  {
    hide Table;
    forall j | 0 <= j < |s.ready[Cur(s).prio]|
      ensures var t := s.ready[Cur(s).prio][j];
                t in s.threads && s.threads[t].stat == Ready
                && s.threads[t].prio == Cur(s).prio
    {
      Listed(s, Cur(s).prio, j);
    }
  }

  /** The ready threads of the current thread's priority. */
  function Peers(s: Sched): (q: seq<int>)
    requires Calm(s)
    ensures Distinct(q)
    ensures forall j :: 0 <= j < |q| ==> q[j] in s.threads && q[j] != s.current && s.threads[q[j]].prio == Cur(s).prio
    ensures forall j :: 0 <= j < |q| ==> 0 < Span(s.threads[q[j]])
  {
    hide Bit, Mask;
    var q := s.ready[Cur(s).prio];
    PeersListed(s);
    TableParts(s);
    q
  }

  /**
   * The ticks until the i-th waiting peer runs: the rest of the current slice, and the slices of the peers before
   * it.
   */
  function Wait(s: Sched, i: nat): nat
    requires Calm(s) && i < |Peers(s)|
    decreases i
  {
    hide Calm, Peers;
    CalmParts(s);
    if i == 0 then Span(Cur(s)) else Wait(s, i - 1) + Span(s.threads[Peers(s)[i - 1]])
  }

  /** After exactly that many ticks the i-th peer runs, and the list has turned by i + 1. */
  lemma {:induction false} RoundRobin(s: Sched, i: nat)
    requires Calm(s) && i < |Peers(s)|
    ensures var q, t := Peers(s), Ticks(s, Wait(s, i));
            && Calm(t) && t.current == q[i] && Peers(t) == q[i + 1..] + [s.current] + q[..i]
            && t.threads.Keys == s.threads.Keys && Span(Cur(t)) == Span(s.threads[q[i]])
            && (forall j :: i < j < |q| ==> t.threads[q[j]] == s.threads[q[j]])
    decreases i
  {
    hide Calm, Inv, Tick, Peers;
    CalmParts(s);
    if i == 0 {
      SliceRotates(s);
    } else {
      RoundRobin(s, i - 1);
      var q, u := Peers(s), Ticks(s, Wait(s, i - 1));
      CalmParts(u);
      assert Peers(u)[0] == q[i];
      SliceRotates(u);
      TicksAdd(s, Wait(s, i - 1), Span(Cur(u)));
      assert Peers(u)[1..] + [u.current] == q[i + 1..] + [s.current] + q[..i];
    }
  }

  /** One whole slice: the list turns by one. */
  lemma SliceRotates(s: Sched)
    requires Calm(s) && Peers(s) != []
    ensures var q, n := Peers(s), Span(Cur(s));
            && n > 0
            && var t := Ticks(s, n);
               && Calm(t) && t.current == q[0] && Peers(t) == q[1..] + [s.current]
               && Cur(t) == s.threads[q[0]].(stat := Running) && t.threads.Keys == s.threads.Keys
               && (forall x :: x in s.threads && x != s.current && x != q[0] ==> t.threads[x] == s.threads[x])
  {
    hide Inv, Tick, Settled, Table;
    CalmParts(s);
    var n := Span(Cur(s));
    SliceCounts(s, n - 1);
    var u := Ticks(s, n - 1);
    TickRotates(u);
    TicksAdd(s, n - 1, 1);
    assert Ticks(u, 1) == Tick(u);
  }
}
