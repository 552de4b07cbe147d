/** ipc.c: the message queue object, its nodes linked through their headers. */
module MessageQueueImpl {
  import opened Words
  import opened Sequences
  import opened Chains
  import opened SuspendLists
  import opened WaitGate
  import opened MessageQueueModel

  /** The loop of rt_mq_init: every node goes to the front of the free list. */
  method BuildFree(msgpool: int, size: int, count: int)
    returns (next: map<int, int>, areas: map<int, seq<int>>, first: int, ghost list: seq<int>,
             ghost at: map<int, Place>)
    requires msgpool > 0 && size >= 0 && 0 <= count < 0x1_0000
    ensures Chain(next, list, first) && Distinct(list) && |list| == count && areas.Keys == at.Keys
    ensures Nodes(next, at, count) && forall k :: 0 <= k < count ==> list[k] == Nth(msgpool, size + 4, count - 1 - k)
    ensures (forall n :: n in at <==> n in list)
            && (forall n :: n in at ==> at[n] == Free && n in areas && |areas[n]| == size)
  {
    next, areas, list, at, first := map[], map[], [], map[], 0;
    var temp, stride := 0, size + 4;
    while temp < count
      invariant 0 <= temp <= count && Built(next, areas, list, at, first, temp, size, msgpool + temp * stride)
      invariant |list| == temp && forall k :: 0 <= k < temp ==> list[k] == Nth(msgpool, stride, temp - 1 - k)
    {
      hide Built;
      var head := msgpool + temp * stride;
      Stride(temp, stride);
      BuiltMore(next, areas, list, at, first, temp, size, head, stride, seq(size, i => 0));
      next := next[head := first];
      areas := areas[head := seq(size, i => 0)];
      at := at[head := Free];
      list := [head] + list;
      first := head;
      temp := temp + 1;
    }
  }

  /** After n rounds: n free nodes, all below the bound, linked last to first. */
  ghost predicate Built(next: map<int, int>, areas: map<int, seq<int>>, list: seq<int>, at: map<int, Place>, first: int,
                        n: int, size: int, bound: int) {
    && Chain(next, list, first) && Distinct(list) && |list| == n && areas.Keys == at.Keys && Nodes(next, at, n)
    && (forall x :: x in at <==> x in list)
        && (forall x :: x in at ==> at[x] == Free && x in areas && |areas[x]| == size)
    && (forall x :: x in list ==> x < bound)
  }

  lemma BuiltMore(next: map<int, int>, areas: map<int, seq<int>>, list: seq<int>, at: map<int, Place>, first: int,
                  n: int, size: int, head: int, stride: int, area: seq<int>)
    requires Built(next, areas, list, at, first, n, size, head) && head > 0 && stride > 0 && |area| == size
             && n + 1 < 0x1_0000
    ensures Built(next[head := first], areas[head := area], [head] + list, at[head := Free], head, n + 1, size,
                  head + stride)
  {
    hide Chain, Distinct;
    ChainPush(next, list, first, head);
    PutFirst(list, head);
    assert head !in at;
    assert at[head := Free].Keys == at.Keys + {head};
  }

  lemma Stride(temp: int, stride: int)
    requires temp >= 0 && stride > 0
    ensures (temp + 1) * stride == temp * stride + stride && temp * stride >= 0
  {
  }

  lemma FreshValid(m: Mq)
    requires m.queue == [] && m.messages == [] && m.flights == map[] && Distinct(m.free) && |m.free| == |m.at.Keys|
    requires (forall n :: n in m.at <==> n in m.free) && m.buffers.Keys == m.at.Keys
    requires forall n :: n in m.at ==> m.at[n] == Free && |m.buffers[n]| == m.msgSize
    requires m.full == Gate(0, [], {}, m.full.order, 0) && m.room == Gate(|m.free|, [], {}, m.room.order, 0)
    ensures Valid(m)
  {
  }

  /** rt_mq_init keeps the rounded message size and the number of messages in 16 bits. */
  function StoredSize(msg_size: int): (size: int)
    ensures 0 <= size < 0x1_0000
  {
    AlignUp(msg_size) % 0x1_0000
  }

  function StoredCount(pool_size: int, stride: int): (count: int)
    requires stride > 0
    ensures 0 <= count < 0x1_0000
  {
    pool_size / stride % 0x1_0000
  }

  lemma InArea(nodes: set<int>, list: seq<int>, start: int, stride: int, size: int)
    requires stride > 0 && size >= 0 && |list| == StoredCount(size, stride) && forall n :: n in nodes <==> n in list
    requires forall k :: 0 <= k < |list| ==> list[k] == Nth(start, stride, |list| - 1 - k)
    ensures Separate(nodes, start, stride, size)
  {
    Truncated(size, stride);
    hide StoredCount, Separate;
    forall n | n in nodes ensures exists k :: 0 <= k < |list| && n == Nth(start, stride, k) {
      var i :| 0 <= i < |list| && list[i] == n;
      assert n == Nth(start, stride, |list| - 1 - i);
    }
    NthSeparate(nodes, start, stride, |list|, size);
  }

  lemma Truncated(size: int, stride: int)
    requires stride > 0 && size >= 0
    ensures StoredCount(size, stride) * stride <= size
  {
    var n := size / stride;
    NonNegative(n - n % 0x1_0000, stride);
    assert n * stride <= size;
  }

  ghost predicate Nodes(next: map<int, int>, at: map<int, Place>, max: int) {
    next.Keys == at.Keys && 0 !in at && |at.Keys| == max < 0x1_0000
  }

  ghost predicate Ready(next: map<int, int>, flights: map<int, Flight>) {
    forall t :: t in flights && flights[t].Sending? && flights[t].copied && !flights[t].urgent
                ==> flights[t].node in next && next[flights[t].node] == 0
  }

  /** Only node n and the nodes of s were written. */
  ghost predicate Untouched(was: map<int, int>, now: map<int, int>, n: int, s: seq<int>) {
    was.Keys == now.Keys && forall x :: x in now && x != n && x !in s ==> now[x] == was[x]
  }

  class MessageQueue {
    var next: map<int, int>
    var buffers: map<int, seq<int>>
    var msg_size: int
    var max_msgs: int
    var entry: int
    var msg_queue_head: int
    var msg_queue_tail: int
    var msg_queue_free: int
    var suspend_thread: seq<Waiter>
    var suspend_sender_thread: seq<Waiter>
    var order: Order
    var nowR: int
    var nowS: int

    ghost var queue: seq<int>
    ghost var free: seq<int>
    ghost var flights: map<int, Flight>
    ghost var messages: seq<Message>
    ghost var at: map<int, Place>
    ghost var wokenReceivers: set<int>
    ghost var wokenSenders: set<int>

    ghost function Abs(): Mq
      reads this
    {
      Mq(msg_size, queue, free, flights, buffers, messages, at,
         Gate(entry, suspend_thread, wokenReceivers, order, nowR),
             Gate(|free|, suspend_sender_thread, wokenSenders, order, nowS))
    }

    /** Both lists in memory; a node about to be linked at the tail already ends in RT_NULL. */
    ghost predicate Rep()
      reads this`next, this`queue, this`free, this`flights, this`at, this`max_msgs
      reads this`msg_queue_head, this`msg_queue_tail, this`msg_queue_free
    {
      && Chain(next, queue, msg_queue_head) && Chain(next, free, msg_queue_free)
      && msg_queue_tail == (if queue == [] then 0 else queue[|queue| - 1])
      && Nodes(next, at, max_msgs) && Ready(next, flights)
    }

    lemma FreeHead()
      requires Rep()
      ensures (msg_queue_free == 0 <==> free == []) && (free != [] ==> free[0] == msg_queue_free)
    {
      Empty(next, free, msg_queue_free);
    }

    /** rt_mq_init: message size and count are stored in 16 bits, and the free list is built back to front. */
    constructor (msgpool: int, msg_size: int, pool_size: int, order: Order)
      requires msgpool > 0 && 0 <= msg_size < WORD && 0 <= pool_size < WORD
      ensures Rep() && Valid(Abs()) && queue == [] && messages == [] && flights == map[] && |free| == max_msgs
      ensures this.msg_size == StoredSize(msg_size) && max_msgs == StoredCount(pool_size, this.msg_size + 4)
      ensures forall k :: 0 <= k < |free| ==> free[k] == Nth(msgpool, this.msg_size + 4, max_msgs - 1 - k)
      ensures Separate(at.Keys, msgpool, this.msg_size + 4, pool_size)
    {
      hide Valid, Nth, Separate, Chain, Distinct, StoredSize, StoredCount;
      var size := StoredSize(msg_size);
      this.msg_size := size;
      var count := StoredCount(pool_size, size + 4);
      max_msgs := count;
      this.order := order;
      msg_queue_head, msg_queue_tail, entry := 0, 0, 0;
      suspend_thread, suspend_sender_thread, nowR, nowS := [], [], 0, 0;
      wokenReceivers, wokenSenders := {}, {};
      queue, messages, flights := [], [], map[];
      var links, areas, first;
      ghost var list, places;
      links, areas, first, list, places := BuildFree(msgpool, size, count);
      InArea(places.Keys, list, msgpool, size + 4, pool_size);
      next, buffers, msg_queue_free, free, at := links, areas, first, list, places;
      new;
      FreshValid(Abs());
      EmptyChain(next);
    }

    /** `mq->msg_queue_free = msg->next`. */
    method TakeNode(ghost t: int, msg: int, ghost urgent: bool, ghost d: Message)
      requires Rep() && Valid(Abs()) && free != [] && msg == free[0]
      modifies this`msg_queue_free, this`free, this`flights, this`at
      ensures Rep() && free == old(free)[1..]
      ensures flights == old(flights)[t := Sending(msg, urgent, d, false)] && at == old(at)[msg := Flying(t)]
    {
      hide Valid, Inv, Chain, Nodes, Ready;
      Taken(Abs(), next, max_msgs, t, msg, Sending(msg, urgent, d, false), free, msg_queue_free);
      msg_queue_free := next[msg];
      free := free[1..];
      flights := flights[t := Sending(msg, urgent, d, false)];
      at := at[msg := Flying(t)];
    }

    /** The first section of rt_mq_send_wait, and of rt_mq_urgent, which never waits. */
    method SendBegin(t: int, p: int, urgent: bool, d: Message, time: int) returns (o: Outcome, msg: int, tooLong: bool)
      requires Rep() && Valid(Abs()) && !Sleeps(Abs(), t) && t !in flights && |d| > 0 && (urgent ==> time == 0)
      modifies this
      ensures Rep() && Valid(Abs()) && tooLong == (|d| > msg_size)
      ensures tooLong ==> Abs() == old(Abs()) && o == Refused
      ensures !tooLong ==> (Abs(), o) == MessageQueueModel.SendBegin(old(Abs()), t, p, urgent, d, time)
      ensures o == Got ==> t in flights && msg == flights[t].node
    {
      hide Valid, Inv, Join, Rep, Sleeps, Waits;
      if |d| > msg_size {
        return Refused, 0, true;
      }
      tooLong := false;
      ghost var m := Abs();
      SendBeginValid(m, t, p, urgent, d, time);
      msg := msg_queue_free;
      FreeHead();
      if msg == 0 {
        wokenSenders := wokenSenders - {t};
        if time == 0 {
          return Refused, 0, false;
        }
        suspend_sender_thread := Join(suspend_sender_thread, Waiter(t, p, nowS), order);
        nowS := nowS + 1;
        return Asleep, 0, false;
      }
      TakeNode(t, msg, urgent, d);
      wokenSenders := wokenSenders - {t};
      return Got, msg, false;
    }

    /** `msg->next = RT_NULL`, in rt_mq_send_wait only. */
    method CloseNode(ghost t: int, msg: int, urgent: bool)
      requires Rep() && Valid(Abs()) && t in flights && flights[t].Sending?
      requires flights[t].node == msg && flights[t].urgent == urgent
      modifies this`next
      ensures next == if urgent then old(next) else old(next)[msg := 0]
      ensures Chain(next, queue, msg_queue_head) && Chain(next, free, msg_queue_free) && Nodes(next, at, max_msgs)
      ensures Ready(next, flights[t := flights[t].(copied := true)])
    {
      hide Valid, Inv, Chain, Nodes, Ready;
      ghost var was := next;
      FlightApart(Abs(), t);
      Small(next, at, max_msgs);
      NodesKeep(next, next[msg := 0], at, max_msgs, msg, at[msg]);
      if !urgent {
        ChainFrame(next, queue, msg_queue_head, msg, 0);
        ChainFrame(next, free, msg_queue_free, msg, 0);
        next := next[msg := 0];
      }
      ReadyCopied(Abs(), was, next, t);
    }

    /** Between the sections: the node is closed, unless it goes to the head, and the message copied into it. */
    method SendCopy(ghost t: int, msg: int, urgent: bool, d: Message)
      requires Rep() && Valid(Abs()) && t in flights && flights[t].Sending? && !flights[t].copied
      requires flights[t].node == msg && flights[t].message == d && flights[t].urgent == urgent && msg in buffers
      modifies this`next, this`buffers, this`flights
      ensures Rep() && Valid(Abs()) && Abs() == MessageQueueModel.SendCopy(old(Abs()), t)
    {
      hide Valid, Inv, Chain, Nodes, Ready;
      SendCopyValid(Abs(), t);
      CloseNode(t, msg, urgent);
      buffers := buffers[msg := Over(d, buffers[msg])];
      flights := flights[t := flights[t].(copied := true)];
    }

    /** The second section of rt_mq_send_wait: the node becomes the tail. */
    method LinkTail(msg: int)
      requires Chain(next, queue, msg_queue_head) && Distinct(queue) && msg !in queue && msg != 0 && msg in next
               && next[msg] == 0
      requires msg_queue_tail == (if queue == [] then 0 else queue[|queue| - 1])
      modifies this`next, this`msg_queue_head, this`msg_queue_tail, this`queue
      ensures queue == old(queue) + [msg] && Chain(next, queue, msg_queue_head) && msg_queue_tail == msg
      ensures next.Keys == old(next).Keys && forall n :: n in next && n !in old(queue) ==> next[n] == old(next)[n]
    {
      hide Distinct;
      Empty(next, queue, msg_queue_head);
      ChainAppend(next, queue, msg_queue_head, msg);
      LastIn(next, queue, msg_queue_head);
      if msg_queue_tail != 0 {
        next := next[msg_queue_tail := msg];
      }
      msg_queue_tail := msg;
      if msg_queue_head == 0 {
        msg_queue_head := msg;
      }
      queue := queue + [msg];
    }

    /** The second section of rt_mq_urgent: the node becomes the head. */
    method LinkHead(msg: int)
      requires Chain(next, queue, msg_queue_head) && msg !in queue && msg != 0 && msg in next
      requires msg_queue_tail == (if queue == [] then 0 else queue[|queue| - 1])
      modifies this`next, this`msg_queue_head, this`msg_queue_tail, this`queue
      ensures queue == [msg] + old(queue) && Chain(next, queue, msg_queue_head)
      ensures msg_queue_tail == queue[|queue| - 1]
      ensures next.Keys == old(next).Keys && forall n :: n in next && n != msg ==> next[n] == old(next)[n]
    {
      LastIn(next, queue, msg_queue_head);
      ChainPush(next, queue, msg_queue_head, msg);
      next := next[msg := msg_queue_head];
      msg_queue_head := msg;
      if msg_queue_tail == 0 {
        msg_queue_tail := msg;
      }
      queue := [msg] + queue;
    }

    /** The part of the two sends' second sections that links the node. */
    method LinkNode(msg: int, urgent: bool)
      requires Chain(next, queue, msg_queue_head) && Distinct(queue) && msg !in queue && msg != 0 && msg in next
      requires !urgent ==> next[msg] == 0
      requires msg_queue_tail == (if queue == [] then 0 else queue[|queue| - 1])
      modifies this`next, this`msg_queue_head, this`msg_queue_tail, this`queue
      ensures queue == (if urgent then [msg] + old(queue) else old(queue) + [msg])
      ensures Chain(next, queue, msg_queue_head) && msg_queue_tail == queue[|queue| - 1]
      ensures Untouched(old(next), next, msg, old(queue))
    {
      hide Chain, Distinct;
      if urgent {
        LinkHead(msg);
      } else {
        LinkTail(msg);
      }
    }

    /** rt_ipc_list_resume on the receivers' list, if somebody waits there. */
    method WakeReceiver()
      modifies this`suspend_thread, this`wokenReceivers
      ensures suspend_thread == if old(suspend_thread) == [] then [] else old(suspend_thread)[1..]
      ensures wokenReceivers == if old(suspend_thread) == [] then old(wokenReceivers)
                                else old(wokenReceivers) + {old(suspend_thread)[0].tid}
    {
      if suspend_thread != [] {
        wokenReceivers := wokenReceivers + {suspend_thread[0].tid};
        suspend_thread := suspend_thread[1..];
      }
    }

    /** The same on the senders' list. */
    method WakeSender()
      modifies this`suspend_sender_thread, this`wokenSenders
      ensures suspend_sender_thread == if old(suspend_sender_thread) == [] then [] else old(suspend_sender_thread)[1..]
      ensures wokenSenders == if old(suspend_sender_thread) == [] then old(wokenSenders)
                              else old(wokenSenders) + {old(suspend_sender_thread)[0].tid}
    {
      if suspend_sender_thread != [] {
        wokenSenders := wokenSenders + {suspend_sender_thread[0].tid};
        suspend_sender_thread := suspend_sender_thread[1..];
      }
    }

    /** The second sections of the two sends, up to the wake-up. */
    method Land(ghost t: int, msg: int, urgent: bool)
      requires Rep() && Valid(Abs()) && t in flights && flights[t].Sending? && flights[t].copied
      requires flights[t].node == msg && flights[t].urgent == urgent
      modifies this`next, this`msg_queue_head, this`msg_queue_tail, this`queue, this`entry, this`messages,
          this`flights, this`at
      ensures Rep() && entry == old(entry) + 1
      ensures var m := MessageQueueModel.SendEnd(old(Abs()), t);
              queue == m.queue && messages == m.messages && flights == m.flights && at == m.at
    {
      hide Valid, Inv, Chain, Distinct, Nodes, Ready, Untouched;
      ghost var m := Abs();
      LinkReady(m, next, max_msgs, t);
      LinkNode(msg, urgent);
      assert Chain(next, free, msg_queue_free) && Ready(next, flights - {t})
             && Nodes(next, at[msg := Queued], max_msgs) by {
        Linked(m, old(next), next, max_msgs, t, msg_queue_free);
      }
      entry := (entry + 1) % 0x1_0000;
      messages := if urgent then [flights[t].message] + messages else messages + [flights[t].message];
      flights := flights - {t};
      at := at[msg := Queued];
    }

    /** The second sections of the two sends. */
    method SendEnd(ghost t: int, msg: int, urgent: bool)
      requires Rep() && Valid(Abs()) && t in flights && flights[t].Sending? && flights[t].copied
      requires flights[t].node == msg && flights[t].urgent == urgent
      modifies this
      ensures Rep() && Valid(Abs()) && Abs() == MessageQueueModel.SendEnd(old(Abs()), t)
    {
      hide Valid, Inv, Rep;
      SendEndValid(Abs(), t);
      Land(t, msg, urgent);
      WakeReceiver();
    }

    /** The head node leaves the queue. */
    method Unlink(ghost t: int) returns (msg: int)
      requires Rep() && Valid(Abs()) && queue != [] && entry == |queue| == |messages|
      modifies this`msg_queue_head, this`msg_queue_tail, this`entry, this`flights, this`queue, this`messages, this`at
      ensures Rep() && msg == old(queue)[0] && entry == old(entry) - 1
      ensures queue == old(queue)[1..] && messages == old(messages)[1..]
      ensures flights == old(flights)[t := Receiving(msg, old(messages)[0])] && at == old(at)[msg := Flying(t)]
    {
      hide Valid, Inv, Chain, Nodes, Ready, Distinct;
      Empty(next, queue, msg_queue_head);
      msg := msg_queue_head;
      Taken(Abs(), next, max_msgs, t, msg, Receiving(msg, messages[0]), queue, msg_queue_head);
      TailAfterPop(queue);
      msg_queue_head := next[msg];
      if msg_queue_tail == msg {
        msg_queue_tail := 0;
      }
      entry := entry - 1;
      flights := flights[t := Receiving(msg, messages[0])];
      queue, messages := queue[1..], messages[1..];
      at := at[msg := Flying(t)];
    }

    /** No message is there: give up, or sleep. */
    method AwaitMessage(t: int, p: int, time: int) returns (o: Outcome)
      requires entry == 0
      modifies this`suspend_thread, this`wokenReceivers, this`nowR
      ensures (Abs().full, o) == Try(old(Abs()).full, t, p, time) && o != Got
    {
      hide Join;
      wokenReceivers := wokenReceivers - {t};
      if time == 0 {
        return Refused;
      }
      suspend_thread := Join(suspend_thread, Waiter(t, p, nowR), order);
      nowR := nowR + 1;
      return Asleep;
    }

    /** A message is there: its node goes into flight with thread t. */
    method TakeMessage(t: int) returns (msg: int)
      requires Rep() && Valid(Abs()) && entry != 0
      modifies this
      ensures Rep() && t in flights && msg == flights[t].node
      ensures old(queue) != [] && old(messages) != []
      ensures var m := old(Abs());
              Abs() == m.(full := Try(m.full, t, 0, 0).0, queue := m.queue[1..], messages := m.messages[1..],
                          flights := m.flights[t := Receiving(m.queue[0], m.messages[0])],
                              at := m.at[m.queue[0] := Flying(t)])
    {
      hide Valid, Inv, Rep;
      Units(Abs());
      msg := Unlink(t);
      wokenReceivers := wokenReceivers - {t};
    }

    /** The first section of rt_mq_recv. */
    method RecvBegin(t: int, p: int, time: int) returns (o: Outcome, msg: int)
      requires Rep() && Valid(Abs()) && !Sleeps(Abs(), t) && t !in flights
      modifies this
      ensures Rep() && Valid(Abs()) && (Abs(), o) == MessageQueueModel.RecvBegin(old(Abs()), t, p, time)
      ensures o == Got ==> t in flights && msg == flights[t].node
    {
      hide Valid, Inv, Join, Rep, Sleeps, Waits, Try, MessageQueueModel.RecvBegin;
      RecvBeginValid(Abs(), t, p, time);
      RecvBeginCases(Abs(), t, p, time);
      Units(Abs());
      if entry == 0 {
        o := AwaitMessage(t, p, time);
        msg := 0;
      } else {
        msg := TakeMessage(t);
        o := Got;
      }
    }

    /** Between the sections: the message is copied out, as much as the caller has room for. */
    method RecvCopy(ghost t: int, msg: int, size: int) returns (r: seq<int>)
      requires Valid(Abs()) && t in flights && flights[t].Receiving? && flights[t].node == msg && msg in buffers
               && size > 0
      ensures r == MessageQueueModel.RecvCopy(Abs(), t, size) && Yields(r, size, flights[t].message)
    {
      hide Inv, Distinct;
      ReceiverGetsMessage(Abs(), t, size);
      r := buffers[msg][..if size > msg_size then msg_size else size];
    }

    /** The node becomes the first of the free list. */
    method PutBack(ghost t: int, msg: int)
      requires Rep() && Valid(Abs()) && t in flights && flights[t].Receiving? && flights[t].node == msg
      modifies this`next, this`msg_queue_free, this`free, this`flights, this`at
      ensures Rep() && free == [msg] + old(free)
      ensures flights == old(flights) - {t} && at == old(at)[msg := Free]
    {
      hide Valid, Inv, Chain, Distinct, Nodes, Ready;
      Given(Abs(), next, max_msgs, t, msg_queue_head, msg_queue_free);
      next := next[msg := msg_queue_free];
      msg_queue_free := msg;
      free := [msg] + free;
      flights := flights - {t};
      at := at[msg := Free];
    }

    /** The second section of rt_mq_recv. */
    method RecvEnd(ghost t: int, msg: int)
      requires Rep() && Valid(Abs()) && t in flights && flights[t].Receiving? && flights[t].node == msg
      modifies this
      ensures Rep() && Valid(Abs()) && Abs() == MessageQueueModel.RecvEnd(old(Abs()), t)
    {
      hide Valid, Inv, Rep;
      RecvEndValid(Abs(), t);
      PutBack(t, msg);
      WakeSender();
    }

    /** The loop of RT_IPC_CMD_RESET: the queued nodes move to the free list. */
    method FreeQueue()
      requires Chain(next, queue, msg_queue_head) && Chain(next, free, msg_queue_free)
      requires msg_queue_tail == (if queue == [] then 0 else queue[|queue| - 1])
      requires Distinct(queue) && Distinct(free) && (forall n :: n in queue ==> n !in free)
      modifies this`next, this`msg_queue_head, this`msg_queue_tail, this`msg_queue_free, this`queue, this`free
      ensures queue == [] && msg_queue_head == 0 && msg_queue_tail == 0
      ensures free == Reversed(old(queue)) + old(free) && Chain(next, free, msg_queue_free)
      ensures next.Keys == old(next).Keys && forall n :: n in next && n !in old(queue) ==> next[n] == old(next)[n]
    {
      hide Chain;
      Empty(next, queue, msg_queue_head);
      while msg_queue_head != 0
        invariant Chain(next, queue, msg_queue_head) && Chain(next, free, msg_queue_free)
        invariant msg_queue_tail == (if queue == [] then 0 else queue[|queue| - 1])
        invariant Distinct(queue) && Distinct(free) && (forall n :: n in queue ==> n !in free)
        invariant Reversed(queue) + free == Reversed(old(queue)) + old(free)
        invariant (forall n :: n in queue ==> n in old(queue)) && (msg_queue_head == 0 <==> queue == [])
        invariant next.Keys == old(next).Keys && forall n :: n in next && n !in old(queue) ==> next[n] == old(next)[n]
        decreases |queue|
      {
        var msg := msg_queue_head;
        ChainPop(next, queue, msg_queue_head);
        TakeFirst(queue);
        PutFirst(free, msg);
        TailAfterPop(queue);
        ghost var rest := queue[1..];
        msg_queue_head := next[msg];
        if msg_queue_tail == msg {
          msg_queue_tail := 0;
        }
        ChainPush(next, free, msg_queue_free, msg);
        ChainFrame(next, rest, msg_queue_head, msg, msg_queue_free);
        next := next[msg := msg_queue_free];
        msg_queue_free := msg;
        assert Reversed(queue) + free == Reversed(rest) + ([msg] + free);
        queue, free := rest, [msg] + free;
        Empty(next, queue, msg_queue_head);
      }
    }

    /** Both lists of sleepers are resumed with -RT_ERROR. */
    method FailAll() returns (failed: seq<int>)
      modifies this`suspend_thread, this`suspend_sender_thread
      ensures suspend_thread == [] && suspend_sender_thread == []
      ensures failed == Tids(old(suspend_thread)) + Tids(old(suspend_sender_thread))
    {
      var receivers, senders;
      suspend_thread, receivers := ResumeAll(suspend_thread);
      suspend_sender_thread, senders := ResumeAll(suspend_sender_thread);
      failed := receivers + senders;
    }

    /** All messages are dropped. */
    method DropMessages()
      requires Rep() && Valid(Abs())
      modifies this`next, this`msg_queue_head, this`msg_queue_tail, this`msg_queue_free, this`queue, this`free
      modifies this`entry, this`messages, this`at
      ensures Rep() && entry == 0
      ensures var m := MessageQueueModel.Reset(old(Abs()));
              queue == m.queue && messages == m.messages && free == m.free && at == m.at
    {
      hide Valid, Inv, Chain, Distinct, Nodes, Ready;
      ghost var m := Abs();
      ListsApart(m);
      FreeQueue();
      EmptyChain(next);
      assert Ready(next, flights) && Nodes(next, MessageQueueModel.Reset(m).at, max_msgs) by {
        Small(old(next), at, max_msgs);
        ReadyKept(m, old(next), next);
        NodesReset(m, old(next), next, max_msgs);
      }
      entry := 0;
      messages := [];
      at := MessageQueueModel.Reset(m).at;
    }

    /** rt_mq_control with RT_IPC_CMD_RESET. */
    method Reset() returns (failed: seq<int>)
      requires Rep() && Valid(Abs())
      modifies this
      ensures Rep() && Valid(Abs()) && Abs() == MessageQueueModel.Reset(old(Abs()))
      ensures queue == [] && suspend_thread == [] && suspend_sender_thread == []
      ensures failed == Tids(old(suspend_thread)) + Tids(old(suspend_sender_thread))
    {
      hide Valid, Inv, Chain, Distinct, Nodes, Ready;
      ResetValid(Abs());
      DropMessages();
      failed := FailAll();
    }
  }

  /** What linking a node in flight needs. */
  lemma LinkReady(m: Mq, next: map<int, int>, max: int, t: int)
    requires Valid(m) && Ready(next, m.flights) && Nodes(next, m.at, max) && t in m.flights
    requires m.flights[t].Sending? && m.flights[t].copied
    ensures var n := m.flights[t].node;
            n !in m.queue && n != 0 && n in next && (!m.flights[t].urgent ==> next[n] == 0)
    ensures Distinct(m.queue) && m.full.units == |m.queue| && |m.queue| + 1 < 0x1_0000
  {
    FlightApart(m, t);
    ListsApart(m);
    Counted(m);
    hide Valid;
  }

  /** What linking it leaves alone. */
  lemma Linked(m: Mq, was: map<int, int>, now: map<int, int>, max: int, t: int, first: int)
    requires Valid(m) && Ready(was, m.flights) && Nodes(was, m.at, max) && t in m.flights && Chain(was, m.free, first)
    requires Untouched(was, now, m.flights[t].node, m.queue)
    ensures Chain(now, m.free, first) && Ready(now, m.flights - {t})
            && Nodes(now, m.at[m.flights[t].node := Queued], max)
  {
    hide Valid, Chain, Ready, Distinct;
    FlightApart(m, t);
    ListsApart(m);
    ChainSame(was, now, m.free, first);
    ReadyLess(m, was, now, t);
    NodesKeep(was, now, m.at, max, m.flights[t].node, Queued);
  }

  /** A received node goes back to the free list. */
  lemma Given(m: Mq, was: map<int, int>, max: int, t: int, head: int, first: int)
    requires Valid(m) && Ready(was, m.flights) && Nodes(was, m.at, max) && t in m.flights
    requires Chain(was, m.queue, head) && Chain(was, m.free, first)
    ensures var n := m.flights[t].node;
            var now := was[n := first];
            && Chain(now, m.queue, head) && Chain(now, [n] + m.free, n)
            && Ready(now, m.flights - {t}) && Nodes(now, m.at[n := Free], max)
  {
    hide Valid, Chain, Ready, Distinct;
    FlightApart(m, t);
    var n := m.flights[t].node;
    NodesKeep(was, was[n := first], m.at, max, n, Free);
    ChainPush(was, m.free, first, n);
    ChainFrame(was, m.queue, head, n, first);
    ReadyLess(m, was, was[n := first], t);
  }

  /** The first node of one of the lists goes into flight. */
  lemma Taken(m: Mq, next: map<int, int>, max: int, t: int, n: int, f: Flight, s: seq<int>, first: int)
    requires Valid(m) && Ready(next, m.flights) && Nodes(next, m.at, max) && s != [] && s[0] == n
    requires (s == m.free || s == m.queue) && Chain(next, s, first) && (f.Sending? ==> !f.copied)
    ensures n == first && n in next && Chain(next, s[1..], next[n]) && Distinct(s)
    ensures Ready(next, m.flights[t := f]) && Nodes(next, m.at[n := Flying(t)], max)
  {
    hide Valid, Chain, Ready, Distinct;
    ChainPop(next, s, first);
    ListsApart(m);
    ReadyMore(next, m.flights, t, f);
    AtKeeps(m, n);
    NodesKeep(next, next, m.at, max, n, Flying(t));
  }

  lemma TailAfterPop(s: seq<int>)
    requires s != [] && Distinct(s)
    ensures var r := s[1..];
            (if s[|s| - 1] == s[0] then 0 else s[|s| - 1]) == (if r == [] then 0 else r[|r| - 1])
  {
  }

  lemma ListsApart(m: Mq)
    requires Valid(m)
    ensures Distinct(m.queue) && Distinct(m.free) && (forall n :: n in m.queue ==> n !in m.free)
    ensures |m.messages| == |m.queue|
  {
    hide Inv;
  }

  lemma FlightsApart(m: Mq)
    requires Valid(m)
    ensures forall t :: t in m.flights ==> m.flights[t].node !in m.queue
  {
    hide Inv;
  }

  /** The two ways the first section of a receive goes. */
  lemma RecvBeginCases(m: Mq, t: int, p: int, time: int)
    requires Valid(m)
    ensures MessageQueueModel.RecvBegin(m, t, p, time)
            == if m.queue == [] then (m.(full := Try(m.full, t, p, time).0), Try(m.full, t, p, time).1)
               else
                 (m.(full := Try(m.full, t, 0, 0).0, queue := m.queue[1..], messages := m.messages[1..],
                     flights := m.flights[t := Receiving(m.queue[0], m.messages[0])],
                         at := m.at[m.queue[0] := Flying(t)]), Got)
  {
    hide Partition, Inv, Join;
  }

  lemma Units(m: Mq)
    requires Valid(m)
    ensures m.full.units == |m.queue| == |m.messages|
  {
  }

  /** The counter is the length of the queue, which fits the pool. */
  lemma Counted(m: Mq)
    requires Valid(m)
    ensures m.full.units == |m.queue| && (m.flights != map[] ==> |m.queue| < |m.at.Keys|)
    ensures forall t :: t in m.flights ==> |m.queue| < |m.at.Keys|
  {
    hide Inv, Distinct;
    forall t | t in m.flights ensures |m.queue| < |m.at.Keys| {
      assert t in m.flights.Keys;
    }
  }

  /** Threads keep what they made ready when only list nodes, or the node thread t gives back, are rewritten. */
  lemma ReadyLess(m: Mq, was: map<int, int>, now: map<int, int>, t: int)
    requires Valid(m) && Ready(was, m.flights) && was.Keys == now.Keys == m.at.Keys
    requires forall n ::
              n in now && n !in m.queue && n !in m.free && (t in m.flights ==> n != m.flights[t].node)
              ==> now[n] == was[n]
    ensures Ready(now, m.flights - {t})
    ensures t !in m.flights ==> Ready(now, m.flights)
  {
    hide Inv;
  }

  lemma ReadyCopied(m: Mq, was: map<int, int>, now: map<int, int>, t: int)
    requires Valid(m) && Ready(was, m.flights) && t in m.flights && m.flights[t].Sending? && m.flights[t].node in was
    requires now == if m.flights[t].urgent then was else was[m.flights[t].node := 0]
    ensures Ready(now, m.flights[t := m.flights[t].(copied := true)])
  {
    FlightApart(m, t);
    hide Valid;
  }

  lemma Small(next: map<int, int>, at: map<int, Place>, max: int)
    requires Nodes(next, at, max)
    ensures |at.Keys| < 0x1_0000 && next.Keys == at.Keys
  {
  }

  lemma ReadyKept(m: Mq, was: map<int, int>, now: map<int, int>)
    requires Valid(m) && Ready(was, m.flights) && was.Keys == now.Keys
    requires forall n :: n in now && n !in m.queue ==> now[n] == was[n]
    ensures Ready(now, m.flights)
  {
    FlightsApart(m);
    hide Valid;
  }

  lemma NodesReset(m: Mq, was: map<int, int>, now: map<int, int>, max: int)
    requires Nodes(was, m.at, max) && was.Keys == now.Keys
    ensures Nodes(now, MessageQueueModel.Reset(m).at, max)
  {
    assert MessageQueueModel.Reset(m).at.Keys == m.at.Keys;
  }

  lemma ReadyMore(next: map<int, int>, flights: map<int, Flight>, t: int, f: Flight)
    requires Ready(next, flights) && (f.Sending? && f.copied && !f.urgent ==> f.node in next && next[f.node] == 0)
    ensures Ready(next, flights[t := f])
  {
  }

  lemma NodesKeep(next: map<int, int>, now: map<int, int>, at: map<int, Place>, max: int, n: int, x: Place)
    requires Nodes(next, at, max) && now.Keys == next.Keys && n in at
    ensures Nodes(now, at[n := x], max) && Nodes(now, at, max)
    ensures n in next && n != 0
  {
    assert at[n := x].Keys == at.Keys;
  }

  lemma AtKeeps(m: Mq, n: int)
    requires Valid(m) && (n in m.free || n in m.queue)
    ensures n in m.at
  {
  }

  /** A node in flight is in neither list, and no other thread has it. */
  lemma FlightApart(m: Mq, t: int)
    requires Valid(m) && t in m.flights
    ensures m.flights[t].node in m.at && m.flights[t].node !in m.queue && m.flights[t].node !in m.free
    ensures forall u :: u in m.flights && u != t ==> m.flights[u].node != m.flights[t].node
  {
    hide Inv;
  }
}
