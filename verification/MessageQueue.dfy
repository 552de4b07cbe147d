/** ipc.c: message queues whose send and receive are split around an unlocked copy. */
module MessageQueueModel {
  import opened SuspendLists
  import opened WaitGate
  import opened Sequences

  type Message = seq<int>

  /**
   * A thread between its two critical sections, the node it holds, and the message that node is to carry or
   * carried.
   */
  datatype Flight =
    | Sending(node: int, urgent: bool, message: Message, copied: bool)
    | Receiving(node: int, message: Message)

  /** Where a node of the pool is. */
  datatype Place = Queued | Free | Flying(t: int)

  /**
   * `queue` and `free` are the two lists of nodes, `buffers` the nodes' payload areas, `messages` what the queue means,
   * `at` the place of every node.
   */
  datatype Mq = Mq(msgSize: int, queue: seq<int>, free: seq<int>, flights: map<int, Flight>,
                   buffers: map<int, seq<int>>,
                   messages: seq<Message>, at: map<int, Place>, full: Gate, room: Gate)

  /** The nodes are divided into queue, free list and nodes in flight. */
  ghost predicate Partition(m: Mq) {
    && Distinct(m.queue) && Distinct(m.free)
    && (forall n :: n in m.queue <==> n in m.at && m.at[n] == Queued)
    && (forall n :: n in m.free <==> n in m.at && m.at[n] == Free)
    && (forall t :: t in m.flights ==> m.flights[t].node in m.at && m.at[m.flights[t].node] == Flying(t))
    && (forall n :: n in m.at && m.at[n].Flying? ==> m.at[n].t in m.flights && m.flights[m.at[n].t].node == n)
    && |m.queue| + |m.free| + |m.flights.Keys| == |m.at.Keys|
  }

  /** The node a thread holds carries its message, or will once the copy is done. */
  ghost predicate Carries(m: Mq, t: int)
    requires t in m.flights
  {
    var f := m.flights[t];
    && f.node in m.buffers && |f.message| <= m.msgSize
    && ((f.Sending? ==> f.copied) ==> f.message <= m.buffers[f.node])
  }

  /** A message is the front part of the buffer of its node. */
  ghost predicate Payload(m: Mq) {
    && m.buffers.Keys == m.at.Keys && |m.messages| == |m.queue|
    && (forall n :: n in m.buffers ==> |m.buffers[n]| == m.msgSize)
    && (forall i :: 0 <= i < |m.queue| ==> m.queue[i] in m.buffers && m.messages[i] <= m.buffers[m.queue[i]])
    && (forall t :: t in m.flights ==> Carries(m, t))
  }

  ghost predicate Gates(m: Mq) {
    && Inv(m.full) && Inv(m.room)
    && m.full.units == |m.queue| && m.room.units == |m.free|
  }

  ghost predicate Valid(m: Mq) {
    Partition(m) && Payload(m) && Gates(m)
  }

  predicate Sleeps(m: Mq, t: int) {
    Waits(m.full.waiting, t) || Waits(m.room.waiting, t)
  }

  /** First section of rt_mq_send_wait and, with no waiting, of rt_mq_urgent: a node leaves the free list. */
  function SendBegin(m: Mq, t: int, p: int, urgent: bool, d: Message, time: int): (Mq, Outcome) {
    var (g, o) := Try(m.room, t, p, time);
    if o == Got && m.free != [] then
      var n := m.free[0];
      (m.(room := g, free := m.free[1..], flights := m.flights[t := Sending(n, urgent, d, false)],
          at := m.at[n := Flying(t)]), o)
    else (m.(room := g), o)
  }

  /** d written over the front of a buffer. */
  function Over(d: Message, b: seq<int>): seq<int> {
    if |d| <= |b| then d + b[|d|..] else b
  }

  /** The copy, outside any critical section. */
  function SendCopy(m: Mq, t: int): Mq
    requires t in m.flights && m.flights[t].Sending? && m.flights[t].node in m.buffers
  {
    var f := m.flights[t];
    m.(buffers := m.buffers[f.node := Over(f.message, m.buffers[f.node])],
        flights := m.flights[t := f.(copied := true)])
  }

  /** Second section: the node is linked at the tail, or at the head for an urgent message. */
  function SendEnd(m: Mq, t: int): Mq
    requires t in m.flights && m.flights[t].Sending?
  {
    var f := m.flights[t];
    m.(queue := if f.urgent then [f.node] + m.queue else m.queue + [f.node],
       messages := if f.urgent then [f.message] + m.messages else m.messages + [f.message],
       flights := m.flights - {t}, at := m.at[f.node := Queued], full := Give(m.full))
  }

  /** First section of rt_mq_recv: the head node leaves the queue. */
  function RecvBegin(m: Mq, t: int, p: int, time: int): (Mq, Outcome) {
    var (g, o) := Try(m.full, t, p, time);
    if o == Got && m.queue != [] && m.messages != [] then
      var n := m.queue[0];
      (m.(full := g, queue := m.queue[1..], messages := m.messages[1..],
          flights := m.flights[t := Receiving(n, m.messages[0])], at := m.at[n := Flying(t)]), o)
    else (m.(full := g), o)
  }

  /** What the unlocked copy of rt_mq_recv hands to a caller with room for `size` bytes. */
  function RecvCopy(m: Mq, t: int, size: int): seq<int>
    requires t in m.flights && m.flights[t].node in m.buffers && 0 <= size
  {
    var b := m.buffers[m.flights[t].node];
    if size > |b| then b else b[..size]
  }

  /** Second section: the node goes to the front of the free list. */
  function RecvEnd(m: Mq, t: int): Mq
    requires t in m.flights && m.flights[t].Receiving?
  {
    var n := m.flights[t].node;
    m.(free := [n] + m.free, flights := m.flights - {t}, at := m.at[n := Free], room := Give(m.room))
  }

  /** RT_IPC_CMD_RESET: the queued nodes are freed one by one from the head; nodes in flight stay where they are. */
  function Reset(m: Mq): Mq {
    var free := Reversed(m.queue) + m.free;
    m.(queue := [], messages := [], free := free,
       at := map n | n in m.at :: if m.at[n] == Queued then Free else m.at[n],
       full := Flush(m.full, 0), room := Flush(m.room, |free|))
  }

  datatype Op =
    | DoSendBegin(t: int, p: int, urgent: bool, d: Message, time: int)
    | DoSendCopy(t: int)
    | DoSendEnd(t: int)
    | DoRecvBegin(t: int, p: int, time: int)
    | DoRecvCopy(t: int, size: int)
    | DoRecvEnd(t: int)
    | DoExpireReceiver(t: int)
    | DoExpireSender(t: int)
    | DoReset

  /** A thread does its sections in turn; one that sleeps or is in flight starts nothing new. */
  predicate Enabled(m: Mq, op: Op) {
    match op
    case DoSendBegin(t, _, urgent, d, time) => !Sleeps(m, t) && t !in m.flights && 0 < |d| <= m.msgSize
        && (urgent ==> time == 0)
    case DoSendCopy(t) => t in m.flights && m.flights[t].Sending? && !m.flights[t].copied
        && m.flights[t].node in m.buffers
    case DoSendEnd(t) => t in m.flights && m.flights[t].Sending? && m.flights[t].copied
    case DoRecvBegin(t, _, _) => !Sleeps(m, t) && t !in m.flights
    case DoRecvCopy(t, size) => t in m.flights && m.flights[t].Receiving? && m.flights[t].node in m.buffers && size > 0
    case DoRecvEnd(t) => t in m.flights && m.flights[t].Receiving?
    case _ => true
  }

  function Step(m: Mq, op: Op): Mq {
    if !Enabled(m, op) then m
    else match op
      case DoSendBegin(t, p, urgent, d, time) => SendBegin(m, t, p, urgent, d, time).0
      case DoSendCopy(t) => SendCopy(m, t)
      case DoSendEnd(t) => SendEnd(m, t)
      case DoRecvBegin(t, p, time) => RecvBegin(m, t, p, time).0
      case DoRecvCopy(_, _) => m
      case DoRecvEnd(t) => RecvEnd(m, t)
      case DoExpireReceiver(t) => m.(full := Expire(m.full, t))
      case DoExpireSender(t) => m.(room := Expire(m.room, t))
      case DoReset => Reset(m)
  }

  lemma KeysLess(f: map<int, Flight>, t: int)
    requires t in f
    ensures |(f - {t}).Keys| == |f.Keys| - 1
  {
    assert (f - {t}).Keys == f.Keys - {t};
  }

  lemma KeysMore(f: map<int, Flight>, t: int, x: Flight)
    requires t !in f
    ensures |f[t := x].Keys| == |f.Keys| + 1
  {
    assert f[t := x].Keys == f.Keys + {t};
  }

  lemma SameKeys(a: map<int, Place>, n: int, x: Place)
    requires n in a
    ensures a[n := x].Keys == a.Keys
  {
  }

  lemma SendBeginPartition(m: Mq, t: int, p: int, urgent: bool, d: Message, time: int)
    requires Partition(m) && Enabled(m, DoSendBegin(t, p, urgent, d, time))
    ensures Partition(SendBegin(m, t, p, urgent, d, time).0)
  {
    hide Distinct, Try, Sleeps;
    if m.free != [] {
      TakeFirst(m.free);
      assert m.free[0] in m.free;
      KeysMore(m.flights, t, Sending(m.free[0], urgent, d, false));
      SameKeys(m.at, m.free[0], Flying(t));
    }
  }

  lemma SendBeginPayload(m: Mq, t: int, p: int, urgent: bool, d: Message, time: int)
    requires Payload(m) && Enabled(m, DoSendBegin(t, p, urgent, d, time)) && (m.free != [] ==> m.free[0] in m.at)
    ensures Payload(SendBegin(m, t, p, urgent, d, time).0)
  {
    hide Try, Sleeps;
    var r := SendBegin(m, t, p, urgent, d, time).0;
    forall u | u in r.flights ensures Carries(r, u) {
      assert u != t ==> Carries(m, u);
    }
  }

  lemma FirstAt(m: Mq)
    requires Partition(m)
    ensures m.free != [] ==> m.free[0] in m.at
    ensures m.queue != [] ==> m.queue[0] in m.at
  {
    hide Distinct;
    if m.free != [] {
      var n := m.free[0];
      assert n in m.free;
    }
    if m.queue != [] {
      var n := m.queue[0];
      assert n in m.queue;
    }
  }

  lemma SendBeginValid(m: Mq, t: int, p: int, urgent: bool, d: Message, time: int)
    requires Valid(m) && Enabled(m, DoSendBegin(t, p, urgent, d, time))
    ensures Valid(SendBegin(m, t, p, urgent, d, time).0)
  {
    hide Partition, Payload, Inv, Join;
    FirstAt(m);
    SendBeginPartition(m, t, p, urgent, d, time);
    SendBeginPayload(m, t, p, urgent, d, time);
    TryInv(m.room, t, p, time);
  }

  lemma SendCopyValid(m: Mq, t: int)
    requires Valid(m) && Enabled(m, DoSendCopy(t))
    ensures Valid(SendCopy(m, t))
  {
    hide Inv, Distinct;
    var f := m.flights[t];
    assert SendCopy(m, t).flights.Keys == m.flights.Keys;
    forall i | 0 <= i < |m.queue| ensures m.queue[i] != f.node {
      assert m.queue[i] in m.queue;
    }
  }

  lemma SendEndPartition(m: Mq, t: int)
    requires Partition(m) && Enabled(m, DoSendEnd(t))
    ensures Partition(SendEnd(m, t))
  {
    hide Give, Distinct;
    var f := m.flights[t];
    KeysLess(m.flights, t);
    SameKeys(m.at, f.node, Queued);
    PutFirst(m.queue, f.node);
  }

  lemma SendEndPayload(m: Mq, t: int)
    requires Payload(m) && Enabled(m, DoSendEnd(t)) && m.flights[t].node in m.at
    ensures Payload(SendEnd(m, t))
  {
    hide Give;
    assert Carries(m, t);
    forall u | u in SendEnd(m, t).flights ensures Carries(SendEnd(m, t), u) {
      assert Carries(m, u);
    }
  }

  lemma SendEndValid(m: Mq, t: int)
    requires Valid(m) && Enabled(m, DoSendEnd(t))
    ensures Valid(SendEnd(m, t))
  {
    hide Partition, Payload, Inv;
    FlightAt(m, t);
    SendEndPartition(m, t);
    SendEndPayload(m, t);
    GiveInv(m.full);
  }

  lemma FlightAt(m: Mq, t: int)
    requires Partition(m) && t in m.flights
    ensures m.flights[t].node in m.at && m.at[m.flights[t].node] == Flying(t)
  {
    hide Distinct;
  }

  lemma RecvBeginPartition(m: Mq, t: int, p: int, time: int)
    requires Partition(m) && |m.messages| == |m.queue| && Enabled(m, DoRecvBegin(t, p, time))
    ensures Partition(RecvBegin(m, t, p, time).0)
  {
    hide Distinct, Try, Sleeps;
    if m.queue != [] {
      TakeFirst(m.queue);
      assert m.queue[0] in m.queue;
      KeysMore(m.flights, t, Receiving(m.queue[0], m.messages[0]));
      SameKeys(m.at, m.queue[0], Flying(t));
    }
  }

  lemma RecvBeginPayload(m: Mq, t: int, p: int, time: int)
    requires Payload(m) && Enabled(m, DoRecvBegin(t, p, time)) && (m.queue != [] ==> m.queue[0] in m.at)
    ensures Payload(RecvBegin(m, t, p, time).0)
  {
    hide Try, Sleeps;
    var r := RecvBegin(m, t, p, time).0;
    forall u | u in r.flights ensures Carries(r, u) {
      assert u != t ==> Carries(m, u);
    }
  }

  lemma RecvBeginValid(m: Mq, t: int, p: int, time: int)
    requires Valid(m) && Enabled(m, DoRecvBegin(t, p, time))
    ensures Valid(RecvBegin(m, t, p, time).0)
  {
    hide Partition, Inv, Join;
    FirstAt(m);
    RecvBeginPartition(m, t, p, time);
    RecvBeginPayload(m, t, p, time);
    TryInv(m.full, t, p, time);
  }

  lemma RecvEndPayload(m: Mq, t: int)
    requires Payload(m) && Enabled(m, DoRecvEnd(t)) && m.flights[t].node in m.at
    ensures Payload(RecvEnd(m, t))
  {
    hide Give;
    SameKeys(m.at, m.flights[t].node, Free);
    forall u | u in RecvEnd(m, t).flights ensures Carries(RecvEnd(m, t), u) {
      assert Carries(m, u);
    }
  }

  lemma RecvEndPartition(m: Mq, t: int)
    requires Partition(m) && Enabled(m, DoRecvEnd(t))
    ensures Partition(RecvEnd(m, t))
  {
    hide Give, Distinct;
    var n := m.flights[t].node;
    KeysLess(m.flights, t);
    SameKeys(m.at, n, Free);
    PutFirst(m.free, n);
  }

  lemma RecvEndValid(m: Mq, t: int)
    requires Valid(m) && Enabled(m, DoRecvEnd(t))
    ensures Valid(RecvEnd(m, t))
  {
    hide Partition, Payload, Inv;
    FlightAt(m, t);
    RecvEndPartition(m, t);
    RecvEndPayload(m, t);
    GiveInv(m.room);
  }

  lemma {:induction false} ReversedDistinct(s: seq<int>, rest: seq<int>)
    requires Distinct(s) && Distinct(rest) && (forall x :: x in s ==> x !in rest)
    ensures Distinct(Reversed(s) + rest) && (forall x :: x in Reversed(s) + rest <==> x in s || x in rest)
    decreases |s|
  {
    if s == [] {
      assert Reversed(s) + rest == rest;
    } else {
      TakeFirst(s);
      PutFirst(rest, s[0]);
      ReversedDistinct(s[1..], [s[0]] + rest);
      assert Reversed(s) + rest == Reversed(s[1..]) + ([s[0]] + rest);
    }
  }

  lemma ResetValid(m: Mq)
    requires Valid(m)
    ensures Valid(Reset(m))
  {
    hide Inv;
    ReversedDistinct(m.queue, m.free);
    hide Distinct;
    FlushInv(m.full, 0);
    FlushInv(m.room, |Reversed(m.queue) + m.free|);
    assert Reset(m).at.Keys == m.at.Keys;
  }

  lemma StepValid(m: Mq, op: Op)
    requires Valid(m)
    ensures Valid(Step(m, op)) && Step(m, op).at.Keys == m.at.Keys && Step(m, op).msgSize == m.msgSize
  {
    if Enabled(m, op) {
      StepKeys(m, op);
      hide Partition, Payload, Inv, Enabled, Try, Give, Reversed;
      match op
      case DoSendBegin(t, p, urgent, d, time) => SendBeginValid(m, t, p, urgent, d, time);
      case DoSendCopy(t) => SendCopyValid(m, t);
      case DoSendEnd(t) => SendEndValid(m, t);
      case DoRecvBegin(t, p, time) => RecvBeginValid(m, t, p, time);
      case DoRecvCopy(_, _) => {}
      case DoRecvEnd(t) => RecvEndValid(m, t);
      case DoExpireReceiver(t) =>
        ExpireInv(m.full, t);
        SameLists(m, m.(full := Expire(m.full, t)));
      case DoExpireSender(t) =>
        ExpireInv(m.room, t);
        SameLists(m, m.(room := Expire(m.room, t)));
      case DoReset => ResetValid(m);
    }
  }

  lemma SameLists(m: Mq, r: Mq)
    requires Valid(m) && r == m.(full := r.full, room := r.room)
    ensures Partition(r) && Payload(r)
  {
    hide Inv, Distinct;
  }

  lemma StepKeys(m: Mq, op: Op)
    requires Valid(m)
    ensures Step(m, op).at.Keys == m.at.Keys && Step(m, op).msgSize == m.msgSize
  {
    hide Inv, Distinct, Try, Give, Reversed;
    if m.free != [] {
      assert m.free[0] in m.free;
    }
    if m.queue != [] {
      assert m.queue[0] in m.queue;
    }
  }

  function Trace(m: Mq, ops: seq<Op>): (ms: seq<Mq>)
    ensures |ms| == |ops| + 1 && ms[0] == m
    decreases |ops|
  {
    if ops == [] then [m] else [m] + Trace(Step(m, ops[0]), ops[1..])
  }

  /**
   * In every interleaving of the split operations, timeouts and resets the partition, the payloads and the gates
   * stay right.
   */
  lemma {:induction false} RunPartition(m: Mq, ops: seq<Op>)
    requires Valid(m)
    ensures forall i :: 0 <= i < |Trace(m, ops)| ==> Valid(Trace(m, ops)[i]) && Trace(m, ops)[i].at.Keys == m.at.Keys
    decreases |ops|
  {
    hide Valid, Step;
    if ops != [] {
      StepValid(m, ops[0]);
      RunPartition(Step(m, ops[0]), ops[1..]);
    }
  }

  /** What the first section of a receive does, with a message, without one, and when it may not wait. */
  lemma RecvBeginOutcome(m: Mq, t: int, p: int, time: int)
    requires Valid(m)
    ensures var (r, o) := RecvBegin(m, t, p, time);
            if m.queue != [] then
              && o == Got && r.queue == m.queue[1..] && |m.messages| > 0 && r.messages == m.messages[1..]
              && r.free == m.free && r.buffers == m.buffers && r.full.waiting == m.full.waiting && r.room == m.room
              && r.flights == m.flights[t := Receiving(m.queue[0], m.messages[0])]
            else
              && r == m.(full := r.full) && r.full.units == 0
              && if time == 0 then o == Refused && r.full.waiting == m.full.waiting
                 else o == Asleep && Placed(m.full.waiting, r.full.waiting, Waiter(t, p, m.full.now), m.full.order)
  {
    hide Partition, Inv, Try, Placed;
    TryMeaning(m.full, t, p, time);
  }

  /** The same for a send, which waits for a node. */
  lemma SendBeginOutcome(m: Mq, t: int, p: int, urgent: bool, d: Message, time: int)
    requires Valid(m)
    ensures var (r, o) := SendBegin(m, t, p, urgent, d, time);
            if m.free != [] then
              && o == Got && r.free == m.free[1..] && r.queue == m.queue && r.messages == m.messages
              && r.buffers == m.buffers && r.room.waiting == m.room.waiting && r.full == m.full
              && r.flights == m.flights[t := Sending(m.free[0], urgent, d, false)]
            else
              && r == m.(room := r.room) && r.room.units == 0
              && if time == 0 then o == Refused && r.room.waiting == m.room.waiting
                 else o == Asleep && Placed(m.room.waiting, r.room.waiting, Waiter(t, p, m.room.now), m.room.order)
  {
    hide Partition, Payload, Inv, Try, Placed;
    TryMeaning(m.room, t, p, time);
  }

  /** The second sections wake exactly the first sleeper on the other side. */
  lemma EndOutcome(m: Mq, t: int)
    requires t in m.flights
    ensures m.flights[t].Sending? ==>
              var r := SendEnd(m, t);
              && r.full.units == m.full.units + 1 && r.room == m.room && t !in r.flights && r.free == m.free
              && r.full.waiting == (if m.full.waiting == [] then [] else m.full.waiting[1..])
    ensures m.flights[t].Receiving? ==>
              var r := RecvEnd(m, t);
              && r.room.units == m.room.units + 1 && r.full == m.full && t !in r.flights && r.queue == m.queue
              && r.room.waiting == (if m.room.waiting == [] then [] else m.room.waiting[1..])
  {
    hide Give;
    GiveMeaning(m.full);
    GiveMeaning(m.room);
  }

  /** After a reset nobody sleeps, and the nodes that were queued are free in the order in which they were freed. */
  lemma ResetOutcome(m: Mq)
    requires Valid(m)
    ensures var r := Reset(m);
            && r.queue == [] && r.messages == [] && r.flights == m.flights && r.buffers == m.buffers
            && r.full.waiting == [] && r.room.waiting == []
            && |r.free| == |m.queue| + |m.free| && r.free[|m.queue|..] == m.free
            && (forall i :: 0 <= i < |m.queue| ==> r.free[i] == m.queue[|m.queue| - 1 - i])
  {
    hide Partition, Inv;
    forall i | 0 <= i < |m.queue| ensures Reset(m).free[i] == m.queue[|m.queue| - 1 - i] {
      ReversedAt(m.queue, i);
    }
  }

  /** What each step does to the sequence of messages the queue stands for. */
  lemma StepMeaning(m: Mq, op: Op)
    requires Valid(m) && Enabled(m, op)
    ensures op.DoSendEnd? ==>
              var f := m.flights[op.t];
              Step(m, op).messages == if f.urgent then [f.message] + m.messages else m.messages + [f.message]
    ensures op.DoRecvBegin? ==>
              if m.messages == [] then Step(m, op).messages == [] && !(op.t in Step(m, op).flights)
              else Step(m, op).messages == m.messages[1..] && op.t in Step(m, op).flights
                   && Step(m, op).flights[op.t].message == m.messages[0]
    ensures op.DoReset? ==> Step(m, op).messages == []
    ensures !op.DoSendEnd? && !op.DoRecvBegin? && !op.DoReset? ==> Step(m, op).messages == m.messages
  {
    hide Partition, Inv, Reversed, Give;
  }

  /** A caller with room for `size` bytes got message d: all of it in front, or as much as fits. */
  predicate Yields(r: seq<int>, size: int, d: Message) {
    0 < size && if size >= |d| then d <= r else r == d[..size]
  }

  /**
   * A receiver's copy, however late, yields the message that was at the head when it began: all of it, or as much
   * as fits.
   */
  lemma ReceiverGetsMessage(m: Mq, t: int, size: int)
    requires Valid(m) && t in m.flights && m.flights[t].Receiving? && m.flights[t].node in m.buffers && 0 < size
    ensures Yields(RecvCopy(m, t, size), size, m.flights[t].message)
  {
    hide Partition, Inv;
  }

  /** No step of another thread touches what a thread holds in flight. */
  lemma FlightUndisturbed(m: Mq, op: Op, t: int)
    requires Valid(m) && t in m.flights
    requires op.DoReset? || op.DoExpireReceiver? || op.DoExpireSender? || op.t != t
    ensures t in Step(m, op).flights && Step(m, op).flights[t] == m.flights[t]
    ensures m.flights[t].node in m.buffers && m.flights[t].node in Step(m, op).buffers
    ensures Step(m, op).buffers[m.flights[t].node] == m.buffers[m.flights[t].node]
  {
    hide Inv, Distinct, Try, Give, Reversed;
  }

  /**
   * While a receiver sleeps the queued messages are at most the receivers on their way, and so for senders and
   * free nodes.
   */
  lemma NoLostWakeup(m: Mq)
    requires Valid(m)
    ensures m.full.waiting != [] ==> |m.queue| <= |m.full.woken|
    ensures m.room.waiting != [] ==> |m.free| <= |m.room.woken|
    ensures |m.queue| + |m.free| + |m.flights.Keys| == |m.at.Keys|
  {
    hide Distinct;
  }

  /** What became of a receive: its copy is still to come, or gave the caller these bytes. */
  datatype Receipt = Pending | Delivered(copy: seq<int>, size: int)

  /**
   * A run with its history: `linked` the messages in the order the sends linked them, `receipts` the receives in
   * the order they took a node, `ticket` which of them a thread in flight is, and `line` the messages in the order
   * they are received.
   */
  datatype Log = Log(m: Mq, linked: seq<Message>, line: seq<Message>, receipts: seq<Receipt>, ticket: map<int, int>)

  function Begin(m: Mq): Log {
    Log(m, m.messages, m.messages, [], map[])
  }

  /** The receive of every ticket holder will copy its message, and every copy made yielded its message. */
  ghost predicate Served(l: Log) {
    && |l.receipts| <= |l.line|
    && (forall t :: t in l.ticket <==> t in l.m.flights && l.m.flights[t].Receiving?)
    && (forall t :: t in l.ticket ==> 0 <= l.ticket[t] < |l.receipts| && l.line[l.ticket[t]] == l.m.flights[t].message)
    && (forall t, u :: t in l.ticket && u in l.ticket && t != u ==> l.ticket[t] != l.ticket[u])
    && (forall i :: 0 <= i < |l.receipts| ==>
          if l.receipts[i].Pending? then exists t :: t in l.ticket && l.ticket[t] == i
          else Yields(l.receipts[i].copy, l.receipts[i].size, l.line[i]))
  }

  ghost predicate LogInv(l: Log) {
    Valid(l.m) && Served(l) && l.line[|l.receipts|..] == l.m.messages
  }

  /** A receive copies once, between its two sections. */
  predicate LogEnabled(l: Log, op: Op) {
    && Enabled(l.m, op)
    && (op.DoRecvCopy? || op.DoRecvEnd? ==>
          op.t in l.ticket && 0 <= l.ticket[op.t] < |l.receipts|
              && l.receipts[l.ticket[op.t]].Pending? == op.DoRecvCopy?)
  }

  function LogStep(l: Log, op: Op): Log
    requires |l.receipts| <= |l.line|
  {
    var m, n := Step(l.m, op), |l.receipts|;
    if !LogEnabled(l, op) then l
    else match op
      case DoSendEnd(t) =>
        var f := l.m.flights[t];
        l.(m := m, linked := l.linked + [f.message],
           line := if f.urgent then l.line[..n] + [f.message] + l.line[n..] else l.line + [f.message])
      case DoRecvBegin(t, _, _) =>
        if t in m.flights then l.(m := m, receipts := l.receipts + [Pending], ticket := l.ticket[t := n])
            else l.(m := m)
      case DoRecvCopy(t, size) =>
        l.(m := m, receipts := l.receipts[l.ticket[t] := Delivered(RecvCopy(l.m, t, size), size)])
      case DoRecvEnd(t) => l.(m := m, ticket := l.ticket - {t})
      case DoReset => l.(m := m, line := l.line[..n])
      case _ => l.(m := m)
  }

  /** The receivers in flight, as a step leaves them. */
  lemma StepReceivers(m: Mq, op: Op, u: int)
    requires Valid(m) && Enabled(m, op) && !(op.DoRecvEnd? && op.t == u)
    ensures u in m.flights && m.flights[u].Receiving? ==>
              u in Step(m, op).flights
              && Step(m, op).flights[u] == m.flights[u]
    ensures u in Step(m, op).flights && Step(m, op).flights[u].Receiving? && !(op.DoRecvBegin? && op.t == u)
            ==> u in m.flights && m.flights[u] == Step(m, op).flights[u]
  {
    hide Valid, Try, Give, Sleeps, Over, Reversed;
  }

  lemma SendEndLog(l: Log, t: int)
    requires LogInv(l) && LogEnabled(l, DoSendEnd(t))
    ensures LogInv(LogStep(l, DoSendEnd(t)))
  {
    hide Valid, Give, Yields;
    var op := DoSendEnd(t);
    var r, n := LogStep(l, op), |l.receipts|;
    StepValid(l.m, op);
    assert forall i :: 0 <= i < n ==> r.line[i] == l.line[i];
    forall u ensures u in r.ticket <==> u in r.m.flights && r.m.flights[u].Receiving? {
      StepReceivers(l.m, op, u);
    }
    assert r.line[n..] == r.m.messages;
  }

  lemma RecvBeginLog(l: Log, t: int, p: int, time: int)
    requires LogInv(l) && LogEnabled(l, DoRecvBegin(t, p, time))
    ensures LogInv(LogStep(l, DoRecvBegin(t, p, time)))
  {
    hide Valid, Sleeps, Yields, Step, Enabled;
    var op := DoRecvBegin(t, p, time);
    var r, n := LogStep(l, op), |l.receipts|;
    StepValid(l.m, op);
    StepMeaning(l.m, op);
    NotFlying(l.m, op);
    forall u | u != t
      ensures u in r.ticket <==> u in r.m.flights && r.m.flights[u].Receiving?
      ensures u in r.ticket ==> r.m.flights[u] == l.m.flights[u]
    {
      StepReceivers(l.m, op, u);
    }
    if t in r.m.flights {
      assert l.line[n] == l.m.messages[0];
      assert l.line[n + 1..] == l.m.messages[1..];
      assert r.ticket[t] == n;
    }
    forall i | 0 <= i < |r.receipts| && r.receipts[i].Pending? ensures exists u :: u in r.ticket && r.ticket[u] == i {
      if i < n {
        var u :| u in l.ticket && l.ticket[u] == i;
        assert u in r.ticket && r.ticket[u] == i;
      }
    }
  }

  lemma NotFlying(m: Mq, op: Op)
    requires op.DoRecvBegin? && Enabled(m, op)
    ensures op.t !in m.flights
    ensures op.t in Step(m, op).flights ==> Step(m, op).flights[op.t].Receiving?
  {
    hide Try, Sleeps;
  }

  lemma RecvCopyLog(l: Log, t: int, size: int)
    requires LogInv(l) && LogEnabled(l, DoRecvCopy(t, size))
    ensures LogInv(LogStep(l, DoRecvCopy(t, size)))
  {
    hide Valid, Yields;
    ReceiverGetsMessage(l.m, t, size);
    var r := LogStep(l, DoRecvCopy(t, size));
    forall i | 0 <= i < |r.receipts| && r.receipts[i].Pending? ensures exists u :: u in r.ticket && r.ticket[u] == i {
      assert l.receipts[i].Pending?;
    }
  }

  lemma RecvEndLog(l: Log, t: int)
    requires LogInv(l) && LogEnabled(l, DoRecvEnd(t))
    ensures LogInv(LogStep(l, DoRecvEnd(t)))
  {
    hide Valid, Give, Yields;
    var op := DoRecvEnd(t);
    var r := LogStep(l, op);
    StepValid(l.m, op);
    forall i | 0 <= i < |r.receipts| && r.receipts[i].Pending? ensures exists u :: u in r.ticket && r.ticket[u] == i {
      var u :| u in l.ticket && l.ticket[u] == i;
      assert u != t;
      assert u in r.ticket;
    }
  }

  /** The other steps neither start nor end a receive. */
  lemma OtherLog(l: Log, op: Op)
    requires LogInv(l) && LogEnabled(l, op) && !op.DoSendEnd? && !op.DoRecvBegin? && !op.DoRecvCopy? && !op.DoRecvEnd?
    ensures LogInv(LogStep(l, op))
  {
    hide Valid, Yields, Step, Enabled;
    var r := LogStep(l, op);
    StepValid(l.m, op);
    StepMeaning(l.m, op);
    forall u ensures u in r.ticket <==> u in r.m.flights && r.m.flights[u].Receiving? {
      StepReceivers(l.m, op, u);
    }
    forall t | t in r.ticket ensures r.line[r.ticket[t]] == r.m.flights[t].message {
      StepReceivers(l.m, op, t);
    }
  }

  /** In every step what the copies gave, and what the queue stands for, are the messages in line. */
  lemma LogStepInv(l: Log, op: Op)
    requires LogInv(l)
    ensures LogInv(LogStep(l, op))
  {
    hide LogInv, LogStep, Served;
    LineLong(l);
    if LogEnabled(l, op) {
      match op
      case DoSendEnd(t) => SendEndLog(l, t);
      case DoRecvBegin(t, p, time) => RecvBeginLog(l, t, p, time);
      case DoRecvCopy(t, size) => RecvCopyLog(l, t, size);
      case DoRecvEnd(t) => RecvEndLog(l, t);
      case _ => OtherLog(l, op);
    } else {
      Unchanged(l, op);
    }
  }

  lemma LineLong(l: Log)
    requires LogInv(l)
    ensures |l.receipts| <= |l.line|
  {
  }

  lemma Unchanged(l: Log, op: Op)
    requires |l.receipts| <= |l.line| && !LogEnabled(l, op)
    ensures LogStep(l, op) == l
  {
  }

  /** The log after a whole run. */
  function LogRun(l: Log, ops: seq<Op>): Log
    requires LogInv(l)
    decreases |ops|
  {
    if ops == [] then l
    else
      LogStepInv(l, ops[0]);
      LogRun(LogStep(l, ops[0]), ops[1..])
  }

  lemma {:induction false} RunServes(l: Log, ops: seq<Op>)
    requires LogInv(l)
    ensures LogInv(LogRun(l, ops))
    decreases |ops|
  {
    hide LogInv, LogStep;
    LineLong(l);
    if ops != [] {
      LogStepInv(l, ops[0]);
      RunServes(LogStep(l, ops[0]), ops[1..]);
    }
  }

  /** Neither an urgent send nor a reset. */
  predicate Plain(op: Op) {
    !op.DoReset? && (op.DoSendBegin? ==> !op.urgent)
  }

  ghost predicate PlainLog(l: Log) {
    l.line == l.linked && forall t :: t in l.m.flights && l.m.flights[t].Sending? ==> !l.m.flights[t].urgent
  }

  lemma PlainStep(l: Log, op: Op)
    requires LogInv(l) && PlainLog(l) && Plain(op)
    ensures |l.receipts| <= |l.line| && PlainLog(LogStep(l, op))
  {
    hide Valid, Try, Give, Sleeps, Over, Yields, RecvCopy;
  }

  lemma {:induction false} PlainRun(l: Log, ops: seq<Op>)
    requires LogInv(l) && PlainLog(l) && (forall i :: 0 <= i < |ops| ==> Plain(ops[i]))
    ensures PlainLog(LogRun(l, ops))
    decreases |ops|
  {
    hide LogInv, LogStep, PlainLog, Plain;
    LineLong(l);
    if ops != [] {
      LogStepInv(l, ops[0]);
      PlainStep(l, ops[0]);
      PlainRun(LogStep(l, ops[0]), ops[1..]);
    }
  }

  /**
   * In every run without urgent sends and resets, over every interleaving of the unlocked copies: the k-th receive
   * to take a node gave its caller the k-th message linked, and the queue stands for the linked messages nobody
   * has taken yet.
   */
  lemma RunFifo(m: Mq, ops: seq<Op>)
    requires Valid(m) && m.flights == map[] && (forall i :: 0 <= i < |ops| ==> Plain(ops[i]))
    ensures LogInv(Begin(m))
    ensures var l := LogRun(Begin(m), ops);
            && |l.receipts| <= |l.linked| && l.linked[|l.receipts|..] == l.m.messages
            && (forall i :: 0 <= i < |l.receipts| && l.receipts[i].Delivered? ==>
                  Yields(l.receipts[i].copy, l.receipts[i].size, l.linked[i]))
            && (forall i ::
                  0 <= i < |l.receipts| && l.receipts[i].Pending?
                  ==> exists t :: t in l.m.flights && t in l.ticket && l.ticket[t] == i)
  {
    hide Valid, Yields;
    BeginInv(m);
    hide LogInv;
    RunServes(Begin(m), ops);
    PlainRun(Begin(m), ops);
    LineInOrder(LogRun(Begin(m), ops));
  }

  lemma BeginInv(m: Mq)
    requires Valid(m) && m.flights == map[]
    ensures LogInv(Begin(m)) && PlainLog(Begin(m))
  {
    hide Valid;
    assert m.messages[0..] == m.messages;
  }

  lemma LineInOrder(l: Log)
    requires LogInv(l)
    ensures Served(l) && l.line[|l.receipts|..] == l.m.messages
  {
  }
}
