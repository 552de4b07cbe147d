/** ipc.c: event sets. */
module EventModel {
  import opened SuspendLists

  /** A 32-bit word of flags as the set of its bits: `|`, `&` and `&= ~` are union, intersection and difference. */
  type Bits = set<int>

  /** A thread's event_set and the bits of event_info: RT_EVENT_FLAG_AND, OR and CLEAR. */
  datatype Interest = Interest(want: Bits, all: bool, some: bool, clear: bool)

  datatype Event = Event(flags: Bits, waiting: seq<Waiter>, info: map<int, Interest>, fifo: bool, now: int)

  /** The condition of both rt_event_send and rt_event_recv; AND is tested first. */
  predicate Satisfied(i: Interest, flags: Bits) {
    if i.all then i.want * flags == i.want else i.some && i.want * flags != {}
  }

  /** What rt_event_send leaves in event_set, and in the event. */
  function Delivered(i: Interest, flags: Bits): Interest {
    if !i.all && i.some then i.(want := i.want * flags) else i
  }

  function AfterDelivery(i: Interest, flags: Bits): Bits {
    if i.clear then flags - Delivered(i, flags).want else flags
  }

  /** What an rt_event_recv that need not wait reports, and leaves in the event. */
  function Received(i: Interest, flags: Bits): (Bits, Bits) {
    (flags * i.want, if i.clear then flags - i.want else flags)
  }

  /** Delivery by wake-up and an immediate receive at that point are the same. */
  lemma DeliveryIsReceive(i: Interest, flags: Bits)
    requires Satisfied(i, flags)
    ensures (Delivered(i, flags).want, AfterDelivery(i, flags)) == Received(i, flags)
  {
    assert Delivered(i, flags).want == flags * i.want;
    assert AfterDelivery(i, flags) == Received(i, flags).1;
  }

  datatype Walked = Walked(kept: seq<Waiter>, info: map<int, Interest>, flags: Bits, woken: seq<int>)

  ghost predicate Known(q: seq<Waiter>, info: map<int, Interest>) {
    forall k :: 0 <= k < |q| ==> q[k].tid in info
  }

  /** The walk of rt_event_send over the list. */
  function Walk(q: seq<Waiter>, info: map<int, Interest>, flags: Bits): (r: Walked)
    requires Known(q, info)
    ensures r.info.Keys == info.Keys && |r.kept| + |r.woken| == |q|
    decreases |q|
  {
    if q == [] then Walked([], info, flags, [])
    else
      var i := info[q[0].tid];
      if Satisfied(i, flags) then
        var r := Walk(q[1..], info[q[0].tid := Delivered(i, flags)], AfterDelivery(i, flags));
        r.(woken := [q[0].tid] + r.woken)
      else
        var r := Walk(q[1..], info, flags);
        r.(kept := [q[0]] + r.kept)
  }

  /** rt_event_send of a non-empty set. */
  function Send(e: Event, flags: Bits): Event
    requires Known(e.waiting, e.info)
  {
    var r := Walk(e.waiting, e.info, e.flags + flags);
    e.(flags := r.flags, info := r.info, waiting := r.kept)
  }

  datatype Outcome = Got(bits: Bits) | Refused | Asleep | Invalid

  /** rt_event_recv by thread t of priority p; it asserts that AND or OR is given. */
  function Recv(e: Event, t: int, p: int, i: Interest, timeout: int): (Event, Outcome) {
    if i.want == {} then (e, Invalid)
    else if Satisfied(i, e.flags) then
      (e.(flags := Received(i, e.flags).1), Got(Received(i, e.flags).0))
    else if timeout == 0 then (e, Refused)
    else (e.(info := e.info[t := i], waiting := Enqueue(e.waiting, Waiter(t, p, e.now), e.fifo), now := e.now + 1),
        Asleep)
  }

  function Expire(e: Event, t: int): Event {
    e.(waiting := Leave(e.waiting, t))
  }

  /** RT_IPC_CMD_RESET. */
  function Reset(e: Event): Event {
    e.(waiting := [], flags := {})
  }

  /** No suspended thread's condition holds. */
  ghost predicate NoneSatisfied(q: seq<Waiter>, info: map<int, Interest>, flags: Bits) {
    forall k :: 0 <= k < |q| ==> q[k].tid in info && !Satisfied(info[q[k].tid], flags)
  }

  ghost predicate Inv(e: Event) {
    NoneSatisfied(e.waiting, e.info, e.flags) && Ordered(e.waiting, e.fifo) && Apart(e.waiting)
        && Earlier(e.waiting, e.now)
  }

  /** A condition that does not hold cannot start to hold when bits go away. */
  lemma FewerBits(i: Interest, s: Bits, r: Bits)
    requires r <= s && !Satisfied(i, s)
    ensures !Satisfied(i, r)
  {
  }

  lemma AfterDeliverySub(i: Interest, flags: Bits)
    ensures AfterDelivery(i, flags) <= flags
  {
  }

  /** During a walk the set only shrinks. */
  lemma {:induction false} WalkShrinks(q: seq<Waiter>, info: map<int, Interest>, flags: Bits)
    requires Known(q, info)
    ensures Walk(q, info, flags).flags <= flags
    decreases |q|
  {
    hide Satisfied, AfterDelivery, Delivered;
    if q != [] {
      var i := info[q[0].tid];
      if Satisfied(i, flags) {
        WalkShrinks(q[1..], info[q[0].tid := Delivered(i, flags)], AfterDelivery(i, flags));
        AfterDeliverySub(i, flags);
      } else {
        WalkShrinks(q[1..], info, flags);
      }
    }
  }

  /** A walk leaves the interest of threads that are not in the list alone. */
  lemma {:induction false} WalkLeaves(q: seq<Waiter>, info: map<int, Interest>, flags: Bits, t: int)
    requires Known(q, info) && t in info && (forall k :: 0 <= k < |q| ==> q[k].tid != t)
    ensures Walk(q, info, flags).info[t] == info[t]
    decreases |q|
  {
    hide Satisfied, AfterDelivery, Delivered;
    if q != [] {
      var i := info[q[0].tid];
      if Satisfied(i, flags) {
        WalkLeaves(q[1..], info[q[0].tid := Delivered(i, flags)], AfterDelivery(i, flags), t);
      } else {
        WalkLeaves(q[1..], info, flags, t);
      }
    }
  }

  /** Nobody who stays asleep is satisfied by what is left, although earlier wake-ups took bits away. */
  lemma {:induction false} WalkServes(q: seq<Waiter>, info: map<int, Interest>, flags: Bits)
    requires Known(q, info) && Apart(q)
    ensures NoneSatisfied(Walk(q, info, flags).kept, Walk(q, info, flags).info, Walk(q, info, flags).flags)
    decreases |q|
  {
    hide Satisfied, AfterDelivery, Delivered;
    if q != [] {
      var i := info[q[0].tid];
      if Satisfied(i, flags) {
        WalkServes(q[1..], info[q[0].tid := Delivered(i, flags)], AfterDelivery(i, flags));
      } else {
        WalkServes(q[1..], info, flags);
        WalkLeaves(q[1..], info, flags, q[0].tid);
        WalkShrinks(q[1..], info, flags);
        FewerBits(i, flags, Walk(q[1..], info, flags).flags);
      }
    }
  }

  /** The walk keeps a part of the list, in its order. */
  lemma {:induction false} WalkKeeps(q: seq<Waiter>, info: map<int, Interest>, flags: Bits, fifo: bool, now: int)
    requires Known(q, info) && Ordered(q, fifo) && Apart(q) && Earlier(q, now)
    ensures var r := Walk(q, info, flags).kept;
            && Ordered(r, fifo) && Apart(r) && Earlier(r, now)
            && (forall k :: 0 <= k < |r| ==> r[k] in q)
    decreases |q|
  {
    hide Satisfied, AfterDelivery, Delivered;
    if q != [] {
      var i := info[q[0].tid];
      var info1 := if Satisfied(i, flags) then info[q[0].tid := Delivered(i, flags)] else info;
      var set1 := if Satisfied(i, flags) then AfterDelivery(i, flags) else flags;
      WalkKeeps(q[1..], info1, set1, fifo, now);
      if !Satisfied(i, flags) {
        FirstKept(q, Walk(q[1..], info, flags).kept, fifo);
      }
    }
  }

  lemma FirstKept(q: seq<Waiter>, r: seq<Waiter>, fifo: bool)
    requires q != [] && Ordered(q, fifo) && Apart(q) && Ordered(r, fifo) && Apart(r)
    requires forall k :: 0 <= k < |r| ==> r[k] in q[1..]
    ensures Ordered([q[0]] + r, fifo) && Apart([q[0]] + r)
  {
    forall k | 0 <= k < |r| ensures Before(q[0], r[k], fifo) && q[0].tid != r[k].tid {
      var j :| 0 <= j < |q[1..]| && q[1..][j] == r[k];
      assert q[j + 1] == r[k];
    }
  }

  /** The walk as a sequence of receives, in list order: the simple meaning of a send. */
  function Receives(q: seq<Waiter>, info: map<int, Interest>, flags: Bits): (seq<(int, Bits)>, Bits)
    requires Known(q, info)
    decreases |q|
  {
    if q == [] then ([], flags)
    else
      var i := info[q[0].tid];
      if Satisfied(i, flags) then
        var (got, rest) := Received(i, flags);
        var (r, s) := Receives(q[1..], info, rest);
        ([(q[0].tid, got)] + r, s)
      else Receives(q[1..], info, flags)
  }

  /** A send wakes the threads, with the sets, and leaves the bits, that immediate receives in list order would. */
  lemma {:induction false} WalkIsReceives(q: seq<Waiter>, info: map<int, Interest>, flags: Bits)
    requires Known(q, info) && Apart(q)
    ensures var r, s := Walk(q, info, flags), Receives(q, info, flags);
            && r.flags == s.1 && |r.woken| == |s.0|
            && forall k :: 0 <= k < |s.0| ==>
                  r.woken[k] == s.0[k].0 && r.woken[k] in r.info
                  && r.info[r.woken[k]].want == s.0[k].1
    decreases |q|
  {
    hide Satisfied, AfterDelivery, Delivered, Received;
    if q != [] {
      var i, t := info[q[0].tid], q[0].tid;
      if Satisfied(i, flags) {
        DeliveryIsReceive(i, flags);
        var info1 := info[t := Delivered(i, flags)];
        SameReceives(q[1..], info, info1, AfterDelivery(i, flags));
        WalkIsReceives(q[1..], info1, AfterDelivery(i, flags));
        WalkLeaves(q[1..], info1, AfterDelivery(i, flags), t);
      } else {
        WalkIsReceives(q[1..], info, flags);
      }
    }
  }

  lemma {:induction false} SameReceives(q: seq<Waiter>, info: map<int, Interest>, info': map<int, Interest>,
      flags: Bits)
    requires Known(q, info) && Known(q, info') && (forall k :: 0 <= k < |q| ==> info[q[k].tid] == info'[q[k].tid])
    ensures Receives(q, info, flags) == Receives(q, info', flags)
    decreases |q|
  {
    hide Satisfied, Received;
    if q != [] {
      var i := info[q[0].tid];
      SameReceives(q[1..], info, info', if Satisfied(i, flags) then Received(i, flags).1 else flags);
    }
  }

  lemma SendInv(e: Event, flags: Bits)
    requires Inv(e)
    ensures Inv(Send(e, flags))
  {
    hide Satisfied, Ordered, Apart, Earlier, Walk;
    WalkServes(e.waiting, e.info, e.flags + flags);
    WalkKeeps(e.waiting, e.info, e.flags + flags, e.fifo, e.now);
  }

  /** The threads a sequence of receives serves. */
  ghost predicate Served(got: seq<(int, Bits)>, t: int) {
    exists k :: 0 <= k < |got| && got[k].0 == t
  }

  /** Some thread that was served bit x had asked to clear what it receives. */
  ghost predicate Cleared(got: seq<(int, Bits)>, info: map<int, Interest>, x: int) {
    exists k :: 0 <= k < |got| && got[k].0 in info && info[got[k].0].clear && x in got[k].1
  }

  /** A bit that is set is gone afterwards exactly if a thread that clears received it. */
  lemma {:induction false} ReceivesClear(q: seq<Waiter>, info: map<int, Interest>, flags: Bits, x: int)
    requires Known(q, info)
    ensures x in Receives(q, info, flags).1 <==> x in flags && !Cleared(Receives(q, info, flags).0, info, x)
    decreases |q|
  {
    if q != [] {
      var i := info[q[0].tid];
      if Satisfied(i, flags) {
        var (got, rest) := Received(i, flags);
        var r := Receives(q[1..], info, rest).0;
        var s := Receives(q, info, flags).0;
        ReceivesClear(q[1..], info, rest, x);
        assert s == [(q[0].tid, got)] + r;
        if Cleared(r, info, x) {
          var k :| 0 <= k < |r| && r[k].0 in info && info[r[k].0].clear && x in r[k].1;
          assert s[k + 1] == r[k];
        }
        if Cleared(s, info, x) && !Cleared(r, info, x) {
          var k :| 0 <= k < |s| && s[k].0 in info && info[s[k].0].clear && x in s[k].1;
          assert k > 0 ==> s[k] == r[k - 1];
        }
        assert s[0] == (q[0].tid, got);
      } else {
        ReceivesClear(q[1..], info, flags, x);
      }
    }
  }

  lemma {:induction false} ReceivesListed(q: seq<Waiter>, info: map<int, Interest>, flags: Bits, t: int)
    requires Known(q, info)
    ensures Served(Receives(q, info, flags).0, t) ==> exists k :: 0 <= k < |q| && q[k].tid == t
    decreases |q|
  {
    hide Satisfied, Received;
    if q != [] {
      var i := info[q[0].tid];
      var rest := if Satisfied(i, flags) then Received(i, flags).1 else flags;
      ReceivesListed(q[1..], info, rest, t);
      var s, r := Receives(q, info, flags).0, Receives(q[1..], info, rest).0;
      if Served(s, t) && q[0].tid != t {
        var k :| 0 <= k < |s| && s[k].0 == t;
        assert Served(r, t) by {
          assert Satisfied(i, flags) ==> k > 0 && s[k] == r[k - 1];
        }
        var j :| 0 <= j < |q[1..]| && q[1..][j].tid == t;
        assert q[j + 1].tid == t;
      }
    }
  }

  /** Exactly the threads that were not served stay in the list. */
  lemma {:induction false} WalkKeepsOthers(q: seq<Waiter>, info: map<int, Interest>, flags: Bits, w: Waiter)
    requires Known(q, info) && Apart(q)
    ensures w in Walk(q, info, flags).kept <==> w in q && !Served(Receives(q, info, flags).0, w.tid)
    decreases |q|
  {
    hide Satisfied, Delivered, AfterDelivery, Received;
    if q != [] {
      var i, t := info[q[0].tid], q[0].tid;
      assert w in q <==> w == q[0] || w in q[1..];
      if Satisfied(i, flags) {
        DeliveryIsReceive(i, flags);
        var info1, rest := info[t := Delivered(i, flags)], AfterDelivery(i, flags);
        WalkKeepsOthers(q[1..], info1, rest, w);
        SameReceives(q[1..], info, info1, rest);
        ServedMore(t, Received(i, flags).0, Receives(q[1..], info, rest).0, w.tid);
        if w in q[1..] {
          assert w.tid != t;
        }
      } else {
        WalkKeepsOthers(q[1..], info, flags, w);
        ReceivesListed(q[1..], info, flags, t);
      }
    }
  }

  lemma ServedMore(t: int, got: Bits, r: seq<(int, Bits)>, u: int)
    ensures Served([(t, got)] + r, u) <==> u == t || Served(r, u)
  {
    var s := [(t, got)] + r;
    assert s[0].0 == t;
    if Served(r, u) {
      var k :| 0 <= k < |r| && r[k].0 == u;
      assert s[k + 1] == r[k];
    }
    if Served(s, u) && u != t {
      var k :| 0 <= k < |s| && s[k].0 == u;
      assert s[k] == r[k - 1];
    }
  }

  /**
   * What a send does: the sent bits join those there are, the threads in the list receive in order, exactly those
   * served leave it with the bits they received, and a bit is gone exactly if a thread that clears received it.
   */
  lemma SendOutcome(e: Event, flags: Bits)
    requires Inv(e)
    ensures Known(e.waiting, e.info)
    ensures var r, (got, rest) := Send(e, flags), Receives(e.waiting, e.info, e.flags + flags);
            && r == e.(flags := rest, waiting := r.waiting, info := r.info)
            && (forall w :: w in r.waiting <==> w in e.waiting && !Served(got, w.tid))
            && (forall k :: 0 <= k < |got| ==> got[k].0 in r.info && r.info[got[k].0].want == got[k].1)
            && (forall x :: x in r.flags <==> (x in e.flags || x in flags) && !Cleared(got, e.info, x))
    ensures e.waiting == [] ==> Send(e, flags) == e.(flags := e.flags + flags)
  {
    hide Satisfied, Ordered, Earlier, Apart, Walk, Receives, Served, Cleared;
    var q, all := e.waiting, e.flags + flags;
    WalkIsReceives(q, e.info, all);
    forall w ensures w in Walk(q, e.info, all).kept <==> w in q && !Served(Receives(q, e.info, all).0, w.tid) {
      WalkKeepsOthers(q, e.info, all, w);
    }
    forall x ensures x in Receives(q, e.info, all).1 <==> x in all && !Cleared(Receives(q, e.info, all).0, e.info, x) {
      ReceivesClear(q, e.info, all, x);
    }
    if q == [] {
      WalkEmpty(e.info, all);
    }
  }

  lemma WalkEmpty(info: map<int, Interest>, flags: Bits)
    ensures Walk([], info, flags) == Walked([], info, flags, [])
  {
  }

  /**
   * How a receive ends: an error for no bits; with the bits if its condition holds; without waiting; or asleep in
   * its place.
   */
  lemma RecvOutcome(e: Event, t: int, p: int, i: Interest, timeout: int)
    requires Inv(e)
    ensures var (r, o) := Recv(e, t, p, i, timeout);
            if i.want == {} then o == Invalid && r == e
            else if if i.all then i.want <= e.flags else i.some && !(i.want !! e.flags) then
              o == Got(i.want * e.flags) && r == e.(flags := if i.clear then e.flags - i.want else e.flags)
            else if timeout == 0 then o == Refused && r == e
            else
              && o == Asleep && r == e.(info := e.info[t := i], waiting := r.waiting, now := r.now)
              && Joined(e.waiting, r.waiting, Waiter(t, p, e.now), e.fifo)
  {
    hide Ordered, Apart, Earlier, Enqueue, Joined;
    EnqueuePlace(e.waiting, Waiter(t, p, e.now), e.fifo);
    assert e.flags * i.want == i.want * e.flags;
    NothingShared(i.want, e.flags);
    assert i.want <= e.flags <==> i.want * e.flags == i.want;
  }

  lemma NothingShared(a: Bits, b: Bits)
    ensures a !! b <==> a * b == {}
  {
    if a * b == {} {
      forall x | x in a ensures x !in b {
        assert x !in a * b;
      }
    }
  }

  /** Bits sent while nobody waits are there for the next receive, without waiting. */
  lemma SendThenRecv(e: Event, flags: Bits, t: int, p: int, i: Interest)
    requires Inv(e) && i.want != {}
    ensures Inv(Send(e, flags))
    ensures Satisfied(i, Send(e, flags).flags) ==>
              Recv(Send(e, flags), t, p, i, 0).1 == Got(i.want * Send(e, flags).flags)
    ensures e.waiting == [] && i.some && !i.all && !(i.want !! flags) ==>
              Recv(Send(e, flags), t, p, i, 0).1 == Got(i.want * (e.flags + flags))
  {
    hide Inv, Send, Recv;
    SendInv(e, flags);
    SendOutcome(e, flags);
    RecvOutcome(Send(e, flags), t, p, i, 0);
    assert i.want * Send(e, flags).flags == i.want ==> i.want <= Send(e, flags).flags;
  }

  lemma RecvInv(e: Event, t: int, p: int, i: Interest, timeout: int)
    requires Inv(e) && !Waits(e.waiting, t)
    ensures Inv(Recv(e, t, p, i, timeout).0)
  {
    hide Satisfied, Ordered, Apart, Earlier, Enqueue, Find;
    if i.want != {} {
      if Satisfied(i, e.flags) {
        Shrink(e, i);
      } else if timeout != 0 {
        var w := Waiter(t, p, e.now);
        EnqueueOrdered(e.waiting, w, e.fifo);
        EnqueueApart(e.waiting, w, e.fifo);
        EnqueueEarlier(e.waiting, w, e.fifo);
        Joins(e, w, i);
      }
    }
  }

  lemma Shrink(e: Event, i: Interest)
    requires NoneSatisfied(e.waiting, e.info, e.flags)
    ensures NoneSatisfied(e.waiting, e.info, Received(i, e.flags).1)
  {
    hide Satisfied;
    forall k | 0 <= k < |e.waiting| ensures !Satisfied(e.info[e.waiting[k].tid], Received(i, e.flags).1) {
      FewerBits(e.info[e.waiting[k].tid], e.flags, Received(i, e.flags).1);
    }
  }

  lemma Joins(e: Event, w: Waiter, i: Interest)
    requires NoneSatisfied(e.waiting, e.info, e.flags) && !Satisfied(i, e.flags) && !Waits(e.waiting, w.tid)
    ensures NoneSatisfied(Enqueue(e.waiting, w, e.fifo), e.info[w.tid := i], e.flags)
  {
    hide Satisfied, Enqueue;
    EnqueueMembers(e.waiting, w, e.fifo);
    var r := Enqueue(e.waiting, w, e.fifo);
    forall k | 0 <= k < |r| ensures r[k].tid in e.info[w.tid := i]
        && !Satisfied(e.info[w.tid := i][r[k].tid], e.flags) {
      assert r[k] in r;
    }
  }

  /** A thread that times out leaves the list, and nothing else changes. */
  lemma ExpireOutcome(e: Event, t: int, w: Waiter)
    requires Inv(e)
    ensures Expire(e, t) == e.(waiting := Expire(e, t).waiting)
    ensures w in Expire(e, t).waiting <==> w in e.waiting && w.tid != t
  {
    LeaveMembers(e.waiting, t, w);
  }

  lemma ExpireInv(e: Event, t: int)
    requires Inv(e)
    ensures Inv(Expire(e, t))
  {
    hide Satisfied, Ordered, Apart, Earlier, Leave;
    LeaveKeeps(e.waiting, t, e.fifo, e.now);
    var r := Leave(e.waiting, t);
    forall k | 0 <= k < |r| ensures r[k].tid in e.info && !Satisfied(e.info[r[k].tid], e.flags) {
      assert r[k] in r;
    }
  }

  datatype Op = DoSend(flags: Bits) | DoRecv(t: int, p: int, i: Interest, timeout: int) | DoExpire(t: int) | DoReset

  function Step(e: Event, op: Op): Event
    requires Inv(e)
  {
    match op
    case DoSend(flags) => if flags == {} then e else Send(e, flags)
    case DoRecv(t, p, i, timeout) => if Waits(e.waiting, t) || !(i.all || i.some) then e
        else Recv(e, t, p, i, timeout).0
    case DoExpire(t) => Expire(e, t)
    case DoReset => Reset(e)
  }

  lemma StepInv(e: Event, op: Op)
    requires Inv(e)
    ensures Inv(Step(e, op))
  {
    match op
    case DoSend(flags) =>
      if flags != {} {
        SendInv(e, flags);
      }
    case DoRecv(t, p, i, timeout) =>
      if !Waits(e.waiting, t) {
        RecvInv(e, t, p, i, timeout);
      }
    case DoExpire(t) => ExpireInv(e, t);
    case DoReset =>
  }

  function Trace(e: Event, ops: seq<Op>): (es: seq<Event>)
    requires Inv(e)
    ensures |es| == |ops| + 1 && es[0] == e
    decreases |ops|
  {
    if ops == [] then [e] else StepInv(e, ops[0]); [e] + Trace(Step(e, ops[0]), ops[1..])
  }

  /** In every state of every run no suspended thread could be served from the set. */
  lemma {:induction false} RunServes(e: Event, ops: seq<Op>)
    requires Inv(e)
    ensures forall i :: 0 <= i < |Trace(e, ops)| ==> Inv(Trace(e, ops)[i])
    decreases |ops|
  {
    hide Inv, Step;
    if ops != [] {
      StepInv(e, ops[0]);
      RunServes(Step(e, ops[0]), ops[1..]);
    }
  }
}

/** ipc.c: the event object and its operations, one critical section each. */
module EventImpl {
  import opened SuspendLists
  import opened EventModel

  class EventObject {
    var flags: Bits
    var suspend_thread: seq<Waiter>
    /** The threads' event_set and event_info fields. */
    var info: map<int, Interest>
    var fifo: bool
    var now: int

    ghost function Abs(): Event
      reads this
    {
      Event(flags, suspend_thread, info, fifo, now)
    }

    /** rt_event_init. */
    constructor (fifo: bool)
      ensures Abs() == Event({}, [], map[], fifo, 0) && Inv(Abs())
    {
      flags, suspend_thread, info, this.fifo, now := {}, [], map[], fifo, 0;
    }

    /** The wake-up of the thread at position k, if its condition holds. */
    method Serve(k: int) returns (woken: bool)
      requires 0 <= k < |suspend_thread| && suspend_thread[k].tid in info
      modifies this
      ensures fifo == old(fifo) && now == old(now)
      ensures var t := old(suspend_thread)[k].tid;
              var i := old(info)[t];
              && woken == Satisfied(i, old(flags))
              && suspend_thread
                  == (if woken then old(suspend_thread)[..k] + old(suspend_thread)[k + 1..] else old(suspend_thread))
              && info == (if woken then old(info)[t := Delivered(i, old(flags))] else old(info))
              && flags == (if woken then AfterDelivery(i, old(flags)) else old(flags))
    {
      var t := suspend_thread[k].tid;
      var i := info[t];
      woken := false;
      if i.all {
        if i.want * flags == i.want {
          woken := true;
        }
      } else if i.some {
        if i.want * flags != {} {
          info := info[t := i.(want := i.want * flags)];
          woken := true;
        }
      }
      if woken {
        if i.clear {
          flags := flags - info[t].want;
        }
        suspend_thread := suspend_thread[..k] + suspend_thread[k + 1..];
        assert info == old(info)[t := Delivered(i, old(flags))];
      }
    }

    /** The loop of rt_event_send. */
    method WalkList() returns (woken: seq<int>)
      requires Known(suspend_thread, info)
      modifies this
      ensures fifo == old(fifo) && now == old(now)
      ensures Walked(suspend_thread, info, flags, woken) == Walk(old(suspend_thread), old(info), old(flags))
    {
      hide Known, Satisfied, Delivered, AfterDelivery, Walk;
      woken := [];
      ghost var q, n := suspend_thread, 0;
      var k := 0;
      assert q[0..] == q;
      while k < |suspend_thread|
        invariant 0 <= k <= |suspend_thread| && 0 <= n <= |q| && suspend_thread[k..] == q[n..]
        invariant fifo == old(fifo) && now == old(now) && Known(q[n..], info)
        invariant var r := Walk(q[n..], info, flags);
                  Walk(q, old(info), old(flags))
                      == Walked(suspend_thread[..k] + r.kept, r.info, r.flags, woken + r.woken)
        decreases |q| - n
      {
        assert suspend_thread[k] == q[n] && q[n..][0] == q[n] && q[n..][1..] == q[n + 1..];
        ghost var before := suspend_thread;
        var t := suspend_thread[k].tid;
        WalkStep(q[n..], info, flags);
        var w := Serve(k);
        n := n + 1;
        ghost var r := Walk(q[n..], info, flags);
        if w {
          CutOut(before, k);
          Regroup(woken, t, r.woken);
          woken := woken + [t];
        } else {
          Regroup(suspend_thread[..k], q[n - 1], r.kept);
          assert suspend_thread[..k + 1] == suspend_thread[..k] + [q[n - 1]];
          k := k + 1;
        }
      }
      WalkNone(info, flags);
      assert suspend_thread[..k] == suspend_thread;
    }

    /** rt_event_send; `woken` are the threads made ready, in order. */
    method Send(bits: Bits) returns (ok: bool, woken: seq<int>)
      requires Inv(Abs())
      modifies this
      ensures Inv(Abs()) && ok == (bits != {})
      ensures Abs() == Step(old(Abs()), DoSend(bits))
      ensures Known(old(suspend_thread), old(info))
      ensures woken == if ok then Walk(old(suspend_thread), old(info), old(flags) + bits).woken else []
    {
      hide Inv, Walk;
      InvKnown(Abs());
      if bits == {} {
        return false, [];
      }
      SendInv(Abs(), bits);
      flags := flags + bits;
      woken := WalkList();
      ok := true;
    }

    /** rt_event_recv, up to the point where the caller returns or sleeps. */
    method Recv(t: int, p: int, i: Interest, timeout: int) returns (o: Outcome)
      requires Inv(Abs()) && !Waits(suspend_thread, t) && (i.all || i.some)
      modifies this
      ensures Inv(Abs()) && (Abs(), o) == EventModel.Recv(old(Abs()), t, p, i, timeout)
    {
      hide Inv;
      RecvInv(Abs(), t, p, i, timeout);
      if i.want == {} {
        return Invalid;
      }
      var status := false;
      if i.all {
        if i.want * flags == i.want {
          status := true;
        }
      } else if i.some {
        if i.want * flags != {} {
          status := true;
        }
      }
      if status {
        o := Got(flags * i.want);
        if i.clear {
          flags := flags - i.want;
        }
      } else if timeout == 0 {
        o := Refused;
      } else {
        info := info[t := i];
        suspend_thread := Enqueue(suspend_thread, Waiter(t, p, now), fifo);
        now := now + 1;
        o := Asleep;
      }
    }

    /** rt_event_control with RT_IPC_CMD_RESET. */
    method Reset() returns (failed: seq<int>)
      requires Inv(Abs())
      modifies this
      ensures Inv(Abs()) && Abs() == EventModel.Reset(old(Abs()))
      ensures flags == {} && suspend_thread == []
      ensures failed == Tids(old(suspend_thread))
    {
      suspend_thread, failed := ResumeAll(suspend_thread);
      flags := {};
    }
  }

  /** What is left of a list without its element at k. */
  lemma CutOut<T>(s: seq<T>, k: nat)
    requires k < |s|
    ensures (s[..k] + s[k + 1..])[..k] == s[..k] && (s[..k] + s[k + 1..])[k..] == s[k + 1..]
  {
  }

  lemma Regroup<T>(a: seq<T>, x: T, b: seq<T>)
    ensures a + ([x] + b) == (a + [x]) + b
  {
  }

  lemma WalkNone(info: map<int, Interest>, flags: Bits)
    ensures Walk([], info, flags) == Walked([], info, flags, [])
  {
  }

  /** What the first thread of a list does to the walk. */
  lemma WalkStep(q: seq<Waiter>, info: map<int, Interest>, flags: Bits)
    requires q != [] && Known(q, info)
    ensures q[0].tid in info
    ensures var i := info[q[0].tid];
            if Satisfied(i, flags) then
              var info1 := info[q[0].tid := Delivered(i, flags)];
              var r := Walk(q[1..], info1, AfterDelivery(i, flags));
              Known(q[1..], info1) && Walk(q, info, flags) == r.(woken := [q[0].tid] + r.woken)
            else
              var r := Walk(q[1..], info, flags);
              Known(q[1..], info) && Walk(q, info, flags) == r.(kept := [q[0]] + r.kept)
  {
    hide Satisfied, Delivered, AfterDelivery;
  }

  lemma InvKnown(e: Event)
    requires Inv(e)
    ensures Known(e.waiting, e.info)
  {
    hide Satisfied;
  }
}
