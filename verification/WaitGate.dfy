/** The wait-and-retry protocol shared by mailboxes, message queues and memory pools. */
module WaitGate {
  import opened SuspendLists

  datatype Order = Fifo | Prio | Lifo

  /**
   * A counted resource, the threads asleep for it, and the threads resumed for it that have not tried again.
   * A resumed thread owns nothing: others may take the unit first.
   */
  datatype Gate = Gate(units: int, waiting: seq<Waiter>, woken: set<int>, order: Order, now: int)

  datatype Outcome = Got | Refused | Asleep

  function Join(q: seq<Waiter>, w: Waiter, order: Order): seq<Waiter> {
    if order == Lifo then [w] + q else Enqueue(q, w, order == Fifo)
  }

  /** One pass of the retry loop, first or repeated: take a unit, give up, or sleep. */
  function Try(g: Gate, t: int, p: int, time: int): (Gate, Outcome) {
    var g' := g.(woken := g.woken - {t});
    if g.units > 0 then (g'.(units := g.units - 1), Got)
    else if time == 0 then (g', Refused)
    else (g'.(waiting := Join(g.waiting, Waiter(t, p, g.now), g.order), now := g.now + 1), Asleep)
  }

  /** A unit comes back and the first sleeper is resumed. */
  function Give(g: Gate): Gate {
    if g.waiting == [] then g.(units := g.units + 1)
    else g.(units := g.units + 1, waiting := g.waiting[1..], woken := g.woken + {g.waiting[0].tid})
  }

  function Expire(g: Gate, t: int): Gate {
    g.(waiting := Leave(g.waiting, t))
  }

  /** Every sleeper is resumed with an error; the resource is set anew. */
  function Flush(g: Gate, units: int): Gate {
    g.(waiting := [], units := units)
  }

  /** No lost wake-up: while a thread sleeps, the free units are at most the resumed threads still on their way. */
  ghost predicate Inv(g: Gate) {
    && 0 <= g.units
    && (g.waiting != [] ==> g.units <= |g.woken|)
    && Apart(g.waiting) && Earlier(g.waiting, g.now) && (g.order != Lifo ==> Ordered(g.waiting, g.order == Fifo))
    && (forall w :: w in g.waiting ==> w.tid !in g.woken)
  }

  lemma JoinMembers(q: seq<Waiter>, w: Waiter, order: Order)
    ensures forall x :: x in Join(q, w, order) <==> x in q || x == w
    ensures |Join(q, w, order)| == |q| + 1
  {
    EnqueueMembers(q, w, order == Fifo);
  }

  lemma JoinKeeps(q: seq<Waiter>, w: Waiter, order: Order)
    requires Apart(q) && Earlier(q, w.since) && (order != Lifo ==> Ordered(q, order == Fifo)) && !Waits(q, w.tid)
    ensures var r := Join(q, w, order);
            Apart(r) && Earlier(r, w.since + 1) && (order != Lifo ==> Ordered(r, order == Fifo))
  {
    if order == Lifo {
      assert forall i :: 0 <= i < |q| ==> ([w] + q)[i + 1] == q[i];
    } else {
      hide Apart, Earlier, Ordered, Enqueue;
      EnqueueOrdered(q, w, order == Fifo);
      EnqueueApart(q, w, order == Fifo);
      EnqueueEarlier(q, w, order == Fifo);
    }
  }

  lemma OneLess(s: set<int>, t: int)
    ensures |s - {t}| >= |s| - 1 && (t in s ==> |s - {t}| == |s| - 1) && (t !in s ==> s - {t} == s)
  {
    if t in s {
      assert s == (s - {t}) + {t};
    } else {
      assert s - {t} == s;
    }
  }

  lemma TryInv(g: Gate, t: int, p: int, time: int)
    requires Inv(g) && !Waits(g.waiting, t)
    ensures Inv(Try(g, t, p, time).0)
  {
    hide Ordered, Apart, Earlier, Join;
    OneLess(g.woken, t);
    if g.units == 0 && time != 0 {
      JoinKeeps(g.waiting, Waiter(t, p, g.now), g.order);
      JoinMembers(g.waiting, Waiter(t, p, g.now), g.order);
    }
  }

  /** r is q with w at its place: in front for a pool, else behind all that are to be served before it. */
  ghost predicate Placed(q: seq<Waiter>, r: seq<Waiter>, w: Waiter, order: Order) {
    if order == Lifo then r == [w] + q else Joined(q, r, w, order == Fifo)
  }

  /** A pass takes a unit if there is one, gives up if it may not wait, and sleeps in its place otherwise. */
  lemma TryMeaning(g: Gate, t: int, p: int, time: int)
    requires Inv(g)
    ensures var (g', o) := Try(g, t, p, time);
            && g'.order == g.order && g'.woken == g.woken - {t}
            && if g.units > 0 then o == Got && g'.units == g.units - 1 && g'.waiting == g.waiting && g'.now == g.now
               else if time == 0 then o == Refused && g'.units == 0 && g'.waiting == g.waiting && g'.now == g.now
               else o == Asleep && g'.units == 0 && g'.now > g.now
                    && Placed(g.waiting, g'.waiting, Waiter(t, p, g.now), g.order)
  {
    hide Ordered, Apart, Earlier, Joined, Enqueue;
    if g.order != Lifo {
      EnqueuePlace(g.waiting, Waiter(t, p, g.now), g.order == Fifo);
    }
  }

  /** A unit that comes back resumes exactly the first sleeper, who owns nothing yet. */
  lemma GiveMeaning(g: Gate)
    ensures var g' := Give(g);
            && g'.units == g.units + 1 && g'.order == g.order && g'.now == g.now
            && g'.waiting == (if g.waiting == [] then [] else g.waiting[1..])
            && g'.woken == (if g.waiting == [] then g.woken else g.woken + {g.waiting[0].tid})
  {
  }

  lemma GiveInv(g: Gate)
    requires Inv(g)
    ensures Inv(Give(g))
  {
    if g.waiting != [] {
      assert g.waiting[0] in g.waiting;
      forall w | w in g.waiting[1..] ensures w.tid !in g.woken + {g.waiting[0].tid} {
        var i :| 0 <= i < |g.waiting[1..]| && g.waiting[1..][i] == w;
        assert g.waiting[i + 1] == w;
      }
    }
  }

  /** A timeout takes the thread out of the list and changes nothing else. */
  lemma ExpireMeaning(g: Gate, t: int, w: Waiter)
    requires Inv(g)
    ensures Expire(g, t) == g.(waiting := Expire(g, t).waiting)
    ensures w in Expire(g, t).waiting <==> w in g.waiting && w.tid != t
  {
    LeaveMembers(g.waiting, t, w);
  }

  lemma ExpireInv(g: Gate, t: int)
    requires Inv(g)
    ensures Inv(Expire(g, t))
  {
    LeaveKeeps(g.waiting, t, g.order == Fifo, g.now);
    hide Ordered, Apart, Earlier, Leave;
  }

  lemma FlushInv(g: Gate, units: int)
    requires Inv(g) && units >= 0
    ensures Inv(Flush(g, units))
  {
  }

  /** Once every resumed thread has tried again, nobody sleeps beside a free unit. */
  lemma NobodyStranded(g: Gate)
    requires Inv(g) && g.woken == {} && g.waiting != []
    ensures g.units == 0
  {
  }
}
