/** ipc.c: mailboxes as bounded FIFO sequences with two gates. */
module MailboxModel {
  import opened SuspendLists
  import opened WaitGate

  /** `full` counts mails and holds receivers; `room` counts free slots and holds senders. */
  datatype Box = Box(size: int, mail: seq<int>, full: Gate, room: Gate)

  function Init(size: int, order: Order): Box {
    Box(size, [], Gate(0, [], {}, order, 0), Gate(size, [], {}, order, 0))
  }

  ghost predicate Valid(b: Box) {
    Inv(b.full) && Inv(b.room) && b.full.units == |b.mail| && b.room.units == b.size - |b.mail|
  }

  /** rt_mb_send_wait, from the loop test on. */
  function Send(b: Box, t: int, p: int, value: int, time: int): (Box, Outcome) {
    var (g, o) := Try(b.room, t, p, time);
    if o == Got then (b.(mail := b.mail + [value], room := g, full := Give(b.full)), o) else (b.(room := g), o)
  }

  /** rt_mb_recv, from the loop test on; the value is meaningful when the outcome is Got. */
  function Recv(b: Box, t: int, p: int, time: int): (Box, Outcome, int) {
    var (g, o) := Try(b.full, t, p, time);
    if o == Got && b.mail != [] then (b.(mail := b.mail[1..], full := g, room := Give(b.room)), o, b.mail[0])
    else (b.(full := g), o, 0)
  }

  /** RT_IPC_CMD_RESET. */
  function Reset(b: Box): Box {
    b.(mail := [], full := Flush(b.full, 0), room := Flush(b.room, b.size))
  }

  datatype Op =
    | DoSend(t: int, p: int, value: int, time: int)
    | DoRecv(t: int, p: int, time: int)
    | DoExpireReceiver(t: int)
    | DoExpireSender(t: int)
    | DoReset

  /** A mailbox with the mails that went in and came out. */
  datatype History = History(box: Box, sent: seq<int>, got: seq<int>)

  predicate Sleeps(b: Box, t: int) {
    Waits(b.full.waiting, t) || Waits(b.room.waiting, t)
  }

  function Step(h: History, op: Op): History {
    match op
    case DoSend(t, p, value, time) =>
      if Sleeps(h.box, t) then h
      else
        var (b, o) := Send(h.box, t, p, value, time);
        h.(box := b, sent := if o == Got then h.sent + [value] else h.sent)
    case DoRecv(t, p, time) =>
      if Sleeps(h.box, t) then h
      else
        var (b, o, v) := Recv(h.box, t, p, time);
        h.(box := b, got := if o == Got then h.got + [v] else h.got)
    case DoExpireReceiver(t) => h.(box := h.box.(full := Expire(h.box.full, t)))
    case DoExpireSender(t) => h.(box := h.box.(room := Expire(h.box.room, t)))
    case DoReset => h.(box := Reset(h.box))
  }

  lemma SendValid(b: Box, t: int, p: int, value: int, time: int)
    requires Valid(b) && !Waits(b.room.waiting, t)
    ensures Valid(Send(b, t, p, value, time).0) && Send(b, t, p, value, time).0.size == b.size
    ensures Send(b, t, p, value, time).1 == Got <==> |b.mail| < b.size
  {
    hide Inv, Join;
    TryInv(b.room, t, p, time);
    GiveInv(b.full);
    Bounds(b);
  }

  lemma RecvValid(b: Box, t: int, p: int, time: int)
    requires Valid(b) && !Waits(b.full.waiting, t)
    ensures Valid(Recv(b, t, p, time).0) && Recv(b, t, p, time).0.size == b.size
    ensures Recv(b, t, p, time).1 == Got <==> b.mail != []
  {
    hide Inv, Join;
    TryInv(b.full, t, p, time);
    GiveInv(b.room);
  }

  lemma Bounds(b: Box)
    requires Valid(b)
    ensures 0 <= |b.mail| <= b.size
  {
  }

  lemma StepValid(h: History, op: Op)
    requires Valid(h.box)
    ensures Valid(Step(h, op).box) && Step(h, op).box.size == h.box.size
    ensures !op.DoReset? && h.sent == h.got + h.box.mail ==> Step(h, op).sent == Step(h, op).got + Step(h, op).box.mail
  {
    hide Inv, Join;
    Bounds(h.box);
    match op
    case DoSend(t, p, value, time) =>
      if !Sleeps(h.box, t) {
        SendValid(h.box, t, p, value, time);
        assert h.got + (h.box.mail + [value]) == (h.got + h.box.mail) + [value];
      }
    case DoRecv(t, p, time) =>
      if !Sleeps(h.box, t) {
        RecvValid(h.box, t, p, time);
        assert h.box.mail != [] ==> h.got + h.box.mail == (h.got + [h.box.mail[0]]) + h.box.mail[1..];
      }
    case DoExpireReceiver(t) => ExpireInv(h.box.full, t);
    case DoExpireSender(t) => ExpireInv(h.box.room, t);
    case DoReset =>
      FlushInv(h.box.full, 0);
      FlushInv(h.box.room, h.box.size);
  }

  function Trace(h: History, ops: seq<Op>): (hs: seq<History>)
    ensures |hs| == |ops| + 1 && hs[0] == h
    decreases |ops|
  {
    if ops == [] then [h] else [h] + Trace(Step(h, ops[0]), ops[1..])
  }

  /** Every state of every run, with theft, timeouts and resets: bounded, and no wake-up lost on either side. */
  lemma {:induction false} RunWakes(h: History, ops: seq<Op>)
    requires Valid(h.box)
    ensures forall i :: 0 <= i < |Trace(h, ops)| ==>
              Valid(Trace(h, ops)[i].box)
              && Trace(h, ops)[i].box.size == h.box.size
    decreases |ops|
  {
    hide Valid, Step;
    if ops != [] {
      StepValid(h, ops[0]);
      RunWakes(Step(h, ops[0]), ops[1..]);
    }
  }

  /** Without resets what came out and what is in the box is what went in, in order: nothing lost, nothing twice. */
  lemma {:induction false} RunFifo(h: History, ops: seq<Op>)
    requires Valid(h.box) && h.sent == h.got + h.box.mail && (forall i :: 0 <= i < |ops| ==> !ops[i].DoReset?)
    ensures var r := Trace(h, ops)[|ops|]; r.sent == r.got + r.box.mail
    decreases |ops|
  {
    hide Valid, Step;
    if ops != [] {
      StepValid(h, ops[0]);
      RunFifo(Step(h, ops[0]), ops[1..]);
      assert Trace(h, ops)[|ops|] == Trace(Step(h, ops[0]), ops[1..])[|ops| - 1];
    }
  }

  /** What a pass of a receive does, with a mail, without one, and when it may not wait. */
  lemma RecvOutcome(b: Box, t: int, p: int, time: int)
    requires Valid(b)
    ensures var (r, o, v) := Recv(b, t, p, time);
            if b.mail != [] then
              && o == Got && v == b.mail[0] && r.mail == b.mail[1..] && r.full.waiting == b.full.waiting
              && r.room.waiting == (if b.room.waiting == [] then [] else b.room.waiting[1..])
            else
              && r.mail == [] && r.room == b.room && r.size == b.size
              && if time == 0 then o == Refused && r.full.waiting == b.full.waiting
                 else o == Asleep && Placed(b.full.waiting, r.full.waiting, Waiter(t, p, b.full.now), b.full.order)
  {
    hide Inv, Try, Give, Placed;
    TryMeaning(b.full, t, p, time);
    GiveMeaning(b.room);
  }

  /** The same for a send. */
  lemma SendOutcome(b: Box, t: int, p: int, value: int, time: int)
    requires Valid(b)
    ensures var (r, o) := Send(b, t, p, value, time);
            if |b.mail| < b.size then
              && o == Got && r.mail == b.mail + [value] && r.room.waiting == b.room.waiting
              && r.full.waiting == (if b.full.waiting == [] then [] else b.full.waiting[1..])
            else
              && r.mail == b.mail && r.full == b.full && r.size == b.size
              && if time == 0 then o == Refused && r.room.waiting == b.room.waiting
                 else o == Asleep && Placed(b.room.waiting, r.room.waiting, Waiter(t, p, b.room.now), b.room.order)
  {
    hide Inv, Try, Give, Placed;
    Bounds(b);
    TryMeaning(b.room, t, p, time);
    GiveMeaning(b.full);
  }

  /** After a reset the box is empty, all slots are free and nobody sleeps. */
  lemma ResetOutcome(b: Box)
    requires Valid(b)
    ensures var r := Reset(b);
            && r.mail == [] && r.size == b.size && r.full.waiting == [] && r.room.waiting == []
            && r.full.units == 0 && r.room.units == b.size
  {
  }

  lemma InitValid(size: int, order: Order)
    requires size >= 0
    ensures Valid(Init(size, order))
  {
  }

  /** The two guarantees of Valid, in words of the mailbox. */
  lemma NoLostWakeup(b: Box)
    requires Valid(b)
    ensures 0 <= |b.mail| <= b.size
    ensures b.full.waiting != [] ==> |b.mail| <= |b.full.woken|
    ensures b.room.waiting != [] ==> b.size - |b.mail| <= |b.room.woken|
  {
  }
}

/** ipc.c: the mailbox object, a ring buffer. */
module MailboxImpl {
  import opened SuspendLists
  import opened WaitGate
  import opened MailboxModel

  class Mailbox {
    const msg_pool: array<int>
    var size: int
    var entry: int
    var in_offset: int
    var out_offset: int
    var suspend_thread: seq<Waiter>
    var suspend_sender_thread: seq<Waiter>
    var order: Order

    ghost var wokenReceivers: set<int>
    ghost var wokenSenders: set<int>
    var nowR: int
    var nowS: int

    /** The k-th mail, counted from out_offset and around the end of the pool. */
    function At(k: int): int
      requires 0 <= out_offset && 0 <= k && size <= msg_pool.Length && k < size && out_offset < size
      reads this`size, this`out_offset, msg_pool
    {
      if out_offset + k < size then msg_pool[out_offset + k] else msg_pool[out_offset + k - size]
    }

    ghost predicate Ring()
      reads this`size, this`entry, this`in_offset, this`out_offset
    {
      && 0 <= entry <= size <= msg_pool.Length && size < 0x1_0000
      && (if size == 0 then in_offset == out_offset == 0
          else 0 <= out_offset < size && 0 <= in_offset < size
               && in_offset == if out_offset + entry < size then out_offset + entry else out_offset + entry - size)
    }

    /** The first n mails. */
    ghost function First(n: int): (c: seq<int>)
      requires Ring() && 0 <= n <= entry
      reads this`size, this`entry, this`in_offset, this`out_offset, msg_pool
      ensures |c| == n && forall k :: 0 <= k < n ==> c[k] == At(k)
      decreases n
    {
      if n == 0 then [] else First(n - 1) + [At(n - 1)]
    }

    ghost function Contents(): (c: seq<int>)
      requires Ring()
      reads this`size, this`entry, this`in_offset, this`out_offset, msg_pool
      ensures |c| == entry && forall k :: 0 <= k < entry ==> c[k] == At(k)
    {
      First(entry)
    }

    ghost function Abs(): Box
      requires Ring()
      reads this, msg_pool
    {
      Box(size, Contents(), Gate(entry, suspend_thread, wokenReceivers, order, nowR),
          Gate(size - entry, suspend_sender_thread, wokenSenders, order, nowS))
    }

    /** rt_mb_init; the size is stored in 16 bits. */
    constructor (msgpool: array<int>, size: int, order: Order)
      requires 0 <= size == msgpool.Length
      ensures Ring() && Abs() == Init(size % 0x1_0000, order) && Valid(Abs())
      ensures msg_pool == msgpool && this.size == size % 0x1_0000 && entry == 0
    {
      msg_pool := msgpool;
      this.size, entry, in_offset, out_offset := size % 0x1_0000, 0, 0, 0;
      suspend_thread, suspend_sender_thread, this.order := [], [], order;
      wokenReceivers, wokenSenders, nowR, nowS := {}, {}, 0, 0;
      new;
      InitValid(size % 0x1_0000, order);
      assert Contents() == [];
    }

    /** A value goes in behind the last mail. */
    method Put(value: int)
      requires Ring() && entry < size
      modifies msg_pool, this`in_offset, this`entry
      ensures Ring() && Contents() == old(Contents()) + [value]
    {
      msg_pool[in_offset] := value;
      in_offset := in_offset + 1;
      if in_offset >= size {
        in_offset := 0;
      }
      entry := entry + 1;
      assert Contents()[..entry - 1] == old(Contents());
    }

    /** The first mail comes out. */
    method Get() returns (value: int)
      requires Ring() && entry > 0
      modifies this`out_offset, this`entry
      ensures Ring() && old(entry) > 0 && value == old(Contents())[0] && Contents() == old(Contents())[1..]
    {
      ghost var was := Contents();
      value := msg_pool[out_offset];
      out_offset := out_offset + 1;
      if out_offset >= size {
        out_offset := 0;
      }
      entry := entry - 1;
      assert Contents() == was[1..];
    }

    /** rt_ipc_list_resume on the receivers' list, if somebody waits there. */
    method WakeReceiver()
      modifies this`suspend_thread, this`wokenReceivers
      ensures suspend_thread == if old(suspend_thread) == [] then [] else old(suspend_thread)[1..]
      ensures wokenReceivers == if old(suspend_thread) == [] then old(wokenReceivers)
                                else old(wokenReceivers) + {old(suspend_thread)[0].tid}
    {
      if suspend_thread != [] {
        wokenReceivers := wokenReceivers + {suspend_thread[0].tid};
        suspend_thread := suspend_thread[1..];
      }
    }

    /** The same on the senders' list. */
    method WakeSender()
      modifies this`suspend_sender_thread, this`wokenSenders
      ensures suspend_sender_thread == if old(suspend_sender_thread) == [] then [] else old(suspend_sender_thread)[1..]
      ensures wokenSenders == if old(suspend_sender_thread) == [] then old(wokenSenders)
                              else old(wokenSenders) + {old(suspend_sender_thread)[0].tid}
    {
      if suspend_sender_thread != [] {
        wokenSenders := wokenSenders + {suspend_sender_thread[0].tid};
        suspend_sender_thread := suspend_sender_thread[1..];
      }
    }

    /** rt_mb_send_wait, from the loop test to return or sleep; a resumed sender comes back here with TimeLeft. */
    method Send(t: int, p: int, value: int, time: int) returns (o: Outcome)
      requires Ring() && Valid(Abs()) && !Waits(suspend_sender_thread, t)
      modifies this, msg_pool
      ensures Ring() && Valid(Abs()) && (Abs(), o) == MailboxModel.Send(old(Abs()), t, p, value, time)
    {
      hide Valid, Inv, Join, First, At, Contents;
      SendValid(Abs(), t, p, value, time);
      wokenSenders := wokenSenders - {t};
      if entry == size {
        if time == 0 {
          return Refused;
        }
        suspend_sender_thread := Join(suspend_sender_thread, Waiter(t, p, nowS), order);
        nowS := nowS + 1;
        return Asleep;
      }
      Put(value);
      WakeReceiver();
      return Got;
    }

    /** rt_mb_recv, from the loop test to return or sleep. */
    method Recv(t: int, p: int, time: int) returns (o: Outcome, value: int)
      requires Ring() && Valid(Abs()) && !Waits(suspend_thread, t)
      modifies this
      ensures Ring() && Valid(Abs()) && (Abs(), o, value) == MailboxModel.Recv(old(Abs()), t, p, time)
    {
      hide Valid, Inv, Join, First, At, Ring, Contents;
      RecvValid(Abs(), t, p, time);
      value := 0;
      wokenReceivers := wokenReceivers - {t};
      if entry == 0 {
        if time == 0 {
          return Refused, 0;
        }
        suspend_thread := Join(suspend_thread, Waiter(t, p, nowR), order);
        nowR := nowR + 1;
        return Asleep, 0;
      }
      value := Get();
      WakeSender();
      return Got, value;
    }

    /** rt_mb_control with RT_IPC_CMD_RESET. */
    method Reset() returns (failed: seq<int>)
      requires Ring() && Valid(Abs())
      modifies this
      ensures Ring() && Valid(Abs()) && Abs() == MailboxModel.Reset(old(Abs()))
      ensures failed == Tids(old(suspend_thread)) + Tids(old(suspend_sender_thread))
      ensures entry == 0 && suspend_thread == [] && suspend_sender_thread == []
    {
      FlushInv(Abs().full, 0);
      FlushInv(Abs().room, size);
      var receivers, senders;
      suspend_thread, receivers := ResumeAll(suspend_thread);
      suspend_sender_thread, senders := ResumeAll(suspend_sender_thread);
      failed := receivers + senders;
      entry, in_offset, out_offset := 0, 0, 0;
      assert Contents() == [];
    }
  }
}
