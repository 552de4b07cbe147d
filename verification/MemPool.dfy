/** mempool.c: fixed-size blocks as a list of free ones and a gate. */
module MemPoolModel {
  import opened SuspendLists
  import opened WaitGate
  import opened Sequences

  /** The headers of all blocks, those of the free ones in list order, and the threads that wait. */
  datatype Pool = Pool(blocks: set<int>, free: seq<int>, gate: Gate)

  function Live(s: Pool): set<int> {
    set b | b in s.blocks && b !in s.free
  }

  ghost predicate Valid(s: Pool) {
    && Distinct(s.free) && (forall b :: b in s.free ==> b in s.blocks)
    && Inv(s.gate) && s.gate.units == |s.free| && s.gate.order == Lifo
  }

  /** rt_mp_alloc, from the loop test on; the header of the block, or 0. */
  function Alloc(s: Pool, t: int, p: int, time: int): (Pool, Outcome, int) {
    var (g, o) := Try(s.gate, t, p, time);
    if o == Got && s.free != [] then (s.(free := s.free[1..], gate := g), o, s.free[0]) else (s.(gate := g), o, 0)
  }

  /** rt_mp_free. */
  function Free(s: Pool, b: int): Pool {
    s.(free := [b] + s.free, gate := Give(s.gate))
  }

  datatype Op = DoAlloc(t: int, p: int, time: int) | DoFree(b: int) | DoExpire(t: int)

  predicate Enabled(s: Pool, op: Op) {
    match op
    case DoAlloc(t, _, _) => !Waits(s.gate.waiting, t)
    case DoFree(b) => b in Live(s)
    case DoExpire(t) => true
  }

  function Step(s: Pool, op: Op): Pool {
    if !Enabled(s, op) then s
    else match op
      case DoAlloc(t, p, time) => Alloc(s, t, p, time).0
      case DoFree(b) => Free(s, b)
      case DoExpire(t) => s.(gate := Expire(s.gate, t))
  }

  /**
   * A block handed out was free, is live now, and nothing else changed hands; without a free block nothing is
   * handed out.
   */
  lemma AllocMeaning(s: Pool, t: int, p: int, time: int)
    requires Valid(s) && !Waits(s.gate.waiting, t)
    ensures var (s', o, b) := Alloc(s, t, p, time);
            && Valid(s') && s'.blocks == s.blocks
            && (o == Got <==> s.free != [])
            && (o == Got ==> b in s.blocks && b !in Live(s) && Live(s') == Live(s) + {b})
            && (o != Got ==> Live(s') == Live(s))
  {
    hide Inv, Join;
    TryInv(s.gate, t, p, time);
    if s.free != [] {
      assert s.free == [s.free[0]] + s.free[1..];
      forall x | x in s.free[1..] ensures x in s.free && x != s.free[0] {
        var i :| 0 <= i < |s.free[1..]| && s.free[1..][i] == x;
        assert s.free[i + 1] == x;
      }
      assert Distinct(s.free[1..]);
    }
  }

  /** Without a free block an allocation gives up if it may not wait, and else goes to the front of the list. */
  lemma AllocOutcome(s: Pool, t: int, p: int, time: int)
    requires Valid(s)
    ensures var (r, o, b) := Alloc(s, t, p, time);
            if s.free != [] then
              o == Got && b == s.free[0] && r.free == s.free[1..] && r.gate.waiting == s.gate.waiting
            else
              && b == 0 && r.free == [] && r.blocks == s.blocks
              && if time == 0 then o == Refused && r.gate.waiting == s.gate.waiting
                 else o == Asleep && r.gate.waiting == [Waiter(t, p, s.gate.now)] + s.gate.waiting
  {
    hide Inv, Try;
    TryMeaning(s.gate, t, p, time);
  }

  /** A block that comes back is the next to be handed out, and the thread in front is resumed. */
  lemma FreeOutcome(s: Pool, b: int)
    ensures var r := Free(s, b);
            && r.free == [b] + s.free && r.blocks == s.blocks
            && r.gate.waiting == (if s.gate.waiting == [] then [] else s.gate.waiting[1..])
            && r.gate.woken == (if s.gate.waiting == [] then s.gate.woken else s.gate.woken + {s.gate.waiting[0].tid})
  {
    hide Give;
    GiveMeaning(s.gate);
  }

  /** A freed block is free again, and no other. */
  lemma FreeMeaning(s: Pool, b: int)
    requires Valid(s) && b in Live(s)
    ensures Valid(Free(s, b)) && Free(s, b).blocks == s.blocks && Live(Free(s, b)) == Live(s) - {b}
  {
    hide Inv;
    GiveInv(s.gate);
    InsertDistinct(s.free, 0, b);
    assert Insert(s.free, 0, b) == [b] + s.free;
  }

  /** rt_mp_free undoes rt_mp_alloc: the same free list, in the same order. */
  lemma FreeUndoesAlloc(s: Pool, t: int, p: int, time: int)
    requires Valid(s) && s.gate.waiting == [] && s.free != []
    ensures var (s', o, b) := Alloc(s, t, p, time);
            o == Got && Free(s', b).free == s.free && Free(s', b).gate == s.gate.(woken := s.gate.woken - {t})
  {
  }

  /** The thread that came last is served first. */
  lemma LastComesFirst(s: Pool, t: int, p: int, time: int)
    requires Valid(s) && s.free == [] && time != 0
    ensures Alloc(s, t, p, time).1 == Asleep && Alloc(s, t, p, time).0.gate.waiting[0].tid == t
    ensures forall b :: Free(Alloc(s, t, p, time).0, b).gate.waiting == s.gate.waiting
    ensures forall b :: t in Free(Alloc(s, t, p, time).0, b).gate.woken
  {
  }

  lemma StepValid(s: Pool, op: Op)
    requires Valid(s)
    ensures Valid(Step(s, op)) && Step(s, op).blocks == s.blocks
  {
    hide Inv, Alloc, Free;
    if Enabled(s, op) {
      match op
      case DoAlloc(t, p, time) => AllocMeaning(s, t, p, time);
      case DoFree(b) => FreeMeaning(s, b);
      case DoExpire(t) => ExpireInv(s.gate, t);
    }
  }

  function Trace(s: Pool, ops: seq<Op>): (ss: seq<Pool>)
    ensures |ss| == |ops| + 1 && ss[0] == s
    decreases |ops|
  {
    if ops == [] then [s] else [s] + Trace(Step(s, ops[0]), ops[1..])
  }

  /** In every run the free list holds distinct blocks of the pool, the rest is live, and no wake-up is lost. */
  lemma {:induction false} RunPartition(s: Pool, ops: seq<Op>)
    requires Valid(s)
    ensures forall i :: 0 <= i < |Trace(s, ops)| ==>
              var r := Trace(s, ops)[i];
              Valid(r) && r.blocks == s.blocks && |Live(r)| + |r.free| == |s.blocks|
    decreases |ops|
  {
    hide Valid, Step, Live;
    LiveCount(s);
    if ops != [] {
      StepValid(s, ops[0]);
      RunPartition(Step(s, ops[0]), ops[1..]);
    }
  }

  lemma LiveCount(s: Pool)
    requires Valid(s)
    ensures |Live(s)| + |s.free| == |s.blocks|
  {
    hide Inv;
    ElementsCount(s.free);
    forall b ensures b in s.blocks <==> b in Live(s) + Elements(s.free) {
      assert b in Elements(s.free) ==> b in s.free;
    }
    assert s.blocks == Live(s) + Elements(s.free);
  }

  function Elements(q: seq<int>): set<int> {
    set i | 0 <= i < |q| :: q[i]
  }

  lemma {:induction false} ElementsCount(q: seq<int>)
    requires Distinct(q)
    ensures |Elements(q)| == |q| && (forall x :: x in q <==> x in Elements(q))
    decreases |q|
  {
    if q != [] {
      var r := q[..|q| - 1];
      ElementsCount(r);
      assert Elements(q) == Elements(r) + {q[|q| - 1]};
    }
  }

  /** While a thread sleeps, the free blocks are at most the threads resumed that have not tried again. */
  lemma NoLostWakeup(s: Pool)
    requires Valid(s) && s.gate.waiting != []
    ensures |s.free| <= |s.gate.woken|
  {
  }
}

/** mempool.c: the pool object; the word before each block is a free link or the pool's address. */
module MemPoolImpl {
  import opened Words
  import opened Sequences
  import opened Chains
  import opened SuspendLists
  import opened WaitGate
  import opened MemPoolModel

  /** The loop of rt_mp_init and the final RT_NULL. */
  method BuildFree(start: int, stride: int, total: int) returns (links: map<int, int>, ghost list: seq<int>)
    requires start > 0 && stride > 0 && total >= 1
    ensures Chain(links, list, start) && Distinct(list) && |list| == total
    ensures forall k :: 0 <= k < total ==> list[k] == Nth(start, stride, k)
    ensures forall b :: b in list ==> b in links && b != 0
  {
    hide Nth, Linked;
    links, list := map[], [];
    var offset := 0;
    LinkNone(start, stride);
    while offset < total
      invariant 0 <= offset <= total && |list| == offset
      invariant forall k :: 0 <= k < offset ==> list[k] == Nth(start, stride, k)
      invariant Linked(links, list, start, Nth(start, stride, offset), stride)
    {
      Next(start, stride, offset);
      LinkMore(links, list, start, Nth(start, stride, offset), stride);
      links := links[Nth(start, stride, offset) := Nth(start, stride, offset + 1)];
      list := list + [Nth(start, stride, offset)];
      offset := offset + 1;
    }
    Next(start, stride, offset - 1);
    LinkEnd(links, list, start, Nth(start, stride, offset), stride);
    links := links[Nth(start, stride, offset - 1) := 0];
  }

  lemma LinkNone(start: int, stride: int)
    requires stride > 0
    ensures Linked(map[], [], start, Nth(start, stride, 0), stride)
  {
  }

  lemma Next(start: int, stride: int, k: int)
    requires k >= 0 && stride > 0
    ensures Nth(start, stride, k + 1) == Nth(start, stride, k) + stride && Nth(start, stride, k) >= start
  {
  }

  class MemPool {
    /** This object's own address. */
    const self: int
    var mem: map<int, int>
    var block_size: int
    var block_list: int
    var block_total_count: int
    var block_free_count: int
    var suspend_thread: seq<Waiter>
    var now: int

    ghost var free: seq<int>
    ghost var blocks: set<int>
    ghost var woken: set<int>

    ghost function Abs(): Pool
      reads this
    {
      Pool(blocks, free, Gate(block_free_count, suspend_thread, woken, Lifo, now))
    }

    /** Free headers are linked, every other one holds the pool's address. */
    ghost predicate Rep()
      reads this
    {
      && Chain(mem, free, block_list) && |blocks| == block_total_count
      && 0 !in blocks && (forall b :: b in blocks ==> b in mem)
      && forall b :: b in blocks && b !in free ==> mem[b] == self
    }

    /** rt_mp_init for a pool that holds at least one block. */
    constructor (self: int, start: int, size: int, block_size: int)
      requires start > 0 && 0 < size < WORD && 0 < block_size < WORD
      requires Total(size, block_size) >= 1
      ensures Rep() && Valid(Abs()) && free != [] && Live(Abs()) == {} && block_total_count == Total(size, block_size)
      ensures this.self == self && this.block_size == AlignUp(block_size)
      ensures |free| == block_total_count && forall k ::
                0 <= k < |free|
                ==> free[k] == Nth(start, AlignUp(block_size) + 4, k)
      ensures Separate(blocks, start, AlignUp(block_size) + 4, size)
    {
      var stride := AlignUp(block_size) + 4;
      var total := size / 8 * 8 / stride;
      this.self := self;
      this.block_size := AlignUp(block_size);
      block_total_count, block_free_count := total, total;
      suspend_thread, now, woken := [], 0, {};
      var links;
      ghost var list;
      links, list := BuildFree(start, stride, total);
      mem, block_list, free, blocks := links, start, list, Elements(list);
      ElementsCount(list);
      TotalFits(size, block_size);
      NthSeparate(Elements(list), start, stride, total, size);
    }

    /** rt_mp_alloc, from the loop test to return or sleep. */
    method Alloc(t: int, p: int, time: int) returns (o: Outcome, block: int)
      requires Rep() && Valid(Abs()) && !Waits(suspend_thread, t)
      modifies this
      ensures Rep() && Valid(Abs()) && mem.Keys == old(mem).Keys
      ensures var (s, r, b) := MemPoolModel.Alloc(old(Abs()), t, p, time);
              && Abs() == s && o == r && block == (if r == Got then b + 4 else 0)
      ensures forall x :: x in mem && (o == Got ==> x != block - 4) ==> mem[x] == old(mem)[x]
    {
      hide Valid, Inv, Join, Chain, Live;
      ghost var s := Abs();
      AllocMeaning(s, t, p, time);
      Units(s);
      woken := woken - {t};
      if block_free_count == 0 {
        if time == 0 {
          return Refused, 0;
        }
        suspend_thread := Join(suspend_thread, Waiter(t, p, now), Lifo);
        now := now + 1;
        return Asleep, 0;
      }
      Empty(mem, free, block_list);
      ChainPop(mem, free, block_list);
      FreeBlock(s);
      block_free_count := block_free_count - 1;
      var block_ptr := block_list;
      ChainFrame(mem, free[1..], mem[block_ptr], block_ptr, self);
      block_list := mem[block_ptr];
      mem := mem[block_ptr := self];
      free := free[1..];
      return Got, block_ptr + 4;
    }

    /** rt_mp_free of a block of this pool; its header word says which pool that is. */
    method Free(block: int)
      requires Rep() && Valid(Abs()) && (block == 0 || block - 4 in Live(Abs()))
      modifies this
      ensures Rep() && Valid(Abs()) && mem.Keys == old(mem).Keys
      ensures Abs() == if block == 0 then old(Abs()) else MemPoolModel.Free(old(Abs()), block - 4)
      ensures block != 0 ==> old(mem)[block - 4] == self
      ensures forall x :: x in mem && x != block - 4 ==> mem[x] == old(mem)[x]
    {
      hide Valid, Inv, Chain;
      if block == 0 {
        return;
      }
      var block_ptr := block - 4;
      FreeMeaning(Abs(), block_ptr);
      ChainPush(mem, free, block_list, block_ptr);
      block_free_count := block_free_count + 1;
      mem := mem[block_ptr := block_list];
      block_list := block_ptr;
      free := [block_ptr] + free;
      if suspend_thread != [] {
        woken := woken + {suspend_thread[0].tid};
        suspend_thread := suspend_thread[1..];
      }
    }
  }

  /** The number of blocks rt_mp_init makes. */
  function Total(size: int, block_size: int): int {
    size / 8 * 8 / (AlignUp(block_size) + 4)
  }

  /**
   * After some rounds of the loop of rt_mp_init: the headers so far, each pointing at the next, the last one at
   * `end`.
   */
  ghost predicate Linked(next: map<int, int>, s: seq<int>, start: int, end: int, stride: int) {
    && stride > 0 && (s == [] ==> end == start) && (s != [] ==> s[0] == start && s[|s| - 1] + stride == end)
    && (forall i :: 0 <= i < |s| ==> start <= s[i] < end && s[i] in next)
    && (forall i, j :: 0 <= i && j == i + 1 < |s| ==> s[i] + stride == s[j])
    && (forall i :: 0 <= i < |s| ==> next[s[i]] == s[i] + stride)
    && Distinct(s)
  }

  lemma LinkMore(next: map<int, int>, s: seq<int>, start: int, end: int, stride: int)
    requires Linked(next, s, start, end, stride) && start <= end
    ensures Linked(next[end := end + stride], s + [end], start, end + stride, stride)
  {
    var r := s + [end];
    assert forall i :: 0 <= i < |s| ==> r[i] == s[i];
  }

  /** The last link is set to RT_NULL. */
  lemma LinkEnd(next: map<int, int>, s: seq<int>, start: int, end: int, stride: int)
    requires Linked(next, s, start, end, stride) && s != [] && start > 0
    ensures Chain(next[end - stride := 0], s, start) && Distinct(s)
    ensures forall b :: b in s ==> b in next && b > 0
  {
  }

  lemma Units(s: Pool)
    requires Valid(s)
    ensures s.gate.units == |s.free|
  {
  }

  lemma FreeBlock(s: Pool)
    requires Valid(s) && s.free != []
    ensures s.free[0] in s.blocks && s.free[0] !in s.free[1..]
    ensures forall x :: x in s.free <==> x == s.free[0] || x in s.free[1..]
  {
    var b := s.free[0];
    assert b in s.free;
    TakeFirst(s.free);
  }

  /** Where rt_mp_init writes its final RT_NULL, on 32-bit addresses. */
  function LastLink(start: int, stride: int, total: int): int {
    Nth(start, stride, total - 1) % WORD
  }

  /**
   * That write stays inside the pool exactly when the pool has at least one block; without one it lands before the
   * pool.
   */
  lemma LastLinkInside(start: int, size: int, block_size: int)
    requires 0 < size && 0 < block_size <= 0xFFFF_FFF0 && AlignUp(block_size) + 4 < start && start + size <= WORD
    ensures start <= LastLink(start, AlignUp(block_size) + 4, Total(size, block_size)) < start + size
            <==> Total(size, block_size) >= 1
  {
    var stride, total := AlignUp(block_size) + 4, Total(size, block_size);
    AlignUpCovers(block_size);
    hide Total, AlignUp, Nth;
    TotalFits(size, block_size);
    LastPlace(start, total, stride, size);
  }

  lemma TotalFits(size: int, block_size: int)
    requires 0 < size && AlignUp(block_size) >= 0
    ensures 0 <= Total(size, block_size) && Total(size, block_size) * (AlignUp(block_size) + 4) <= size
  {
    hide AlignUp;
    Quotient(size / 8 * 8, AlignUp(block_size) + 4);
  }

  lemma Quotient(n: int, d: int)
    requires n >= 0 && d > 0
    ensures n / d >= 0 && n / d * d <= n
  {
  }

  lemma LastPlace(start: int, total: int, stride: int, size: int)
    requires total >= 0 && stride > 0 && total * stride <= size
    ensures total >= 1 ==> start <= Nth(start, stride, total - 1) < start + size
    ensures total == 0 ==> Nth(start, stride, total - 1) == start - stride
  {
    assert (total - 1) * stride == total * stride - stride;
    if total >= 1 {
      NonNegative(total - 1, stride);
    }
  }
}
