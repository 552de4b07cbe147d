/** struct rt_memheap and its functions, writing headers and links cell by cell. */
module MemHeapImpl {
  import opened Memory
  import opened Words
  import opened Blocks
  import opened Sequences
  import opened MemHeapModel
  import opened MemHeapLayout

  function HeaderSlots(bs: seq<Block>): set<int> {
    set i | 0 <= i < |bs| :: bs[i].addr
  }

  function SlotsOf(h: Heap, head: int): set<int> {
    HeaderSlots(h.blocks) + {Tail(h), head}
  }

  ghost predicate HeadApart(h: Heap, head: int) {
    head + HDR <= h.start || h.start + h.pool <= head
  }

  /** The data bytes of the blocks in L are as before. */
  ghost predicate Kept(m: Mem, m': Mem, L: set<Block>) {
    forall b, x :: b in L && b.addr + HDR <= x < b.end ==> Ld(m', x) == Ld(m, x)
  }

  /** Nothing outside the pool and the list header was written. */
  ghost predicate Outside(m: Mem, m': Mem, h: Heap, head: int) {
    forall x :: !(h.start <= x < h.start + h.pool) && !(head <= x < head + HDR) ==> Ld(m', x) == Ld(m, x)
  }

  /** All six fields of a header. */
  function ItemMem(m: Mem, a: int, magic: int, pool: int, next: int, prev: int, nextFree: int, prevFree: int): (r: Mem)
    ensures Ld(r, a + MAGIC) == magic && Ld(r, a + POOL) == pool && Ld(r, a + NEXT) == next
    ensures Ld(r, a + PREV) == prev && Ld(r, a + NEXT_FREE) == nextFree && Ld(r, a + PREV_FREE) == prevFree
    ensures forall x :: x < a || a + HDR <= x ==> Ld(r, x) == Ld(m, x)
  {
    m[a + MAGIC := magic][a + POOL := pool][a + NEXT := next][a + PREV := prev]
     [a + NEXT_FREE := nextFree][a + PREV_FREE := prevFree]
  }

  class MemHeap {
    var mem: Mem
    /** The address of the object itself, and of the free_header inside it. */
    const self: int
    const head: int

    var start_addr: int
    var pool_size: int
    var available_size: int
    var max_used_size: int

    ghost var blocks: seq<Block>
    ghost var free: seq<int>
    /**
     * Header slots written in this critical section; between sections the blocks', the tail's and the list
     * header's.
     */
    ghost var slots: set<int>

    ghost function Abs(): Heap
      reads this
    {
      Heap(start_addr, pool_size, blocks, free, available_size, max_used_size)
    }

    ghost function Lay(): Layout
      reads this
    {
      Layout(blocks, free, slots, head, start_addr, Tail(Abs()), self)
    }

    /** The object outside its critical sections. */
    ghost predicate Valid()
      reads this
    {
      && Inv(Abs())
      && Links(mem, Lay())
      && HeadApart(Abs(), head)
      && slots == SlotsOf(Abs(), head)
    }

    /** rt_memheap_init. */
    constructor (self: int, head: int, start_addr: int, size: int, mem: Mem)
      requires start_addr > 0 && 2 * HDR + 16 <= size && start_addr + size <= WORD
      requires head + HDR <= start_addr || start_addr + size <= head
      ensures Valid() && Abs() == Init(start_addr, size)
      ensures Outside(mem, this.mem, Abs(), head)
      ensures this.self == self && this.head == head
    {
      hide ItemMem, Links, Inv;
      this.self, this.head, this.start_addr := self, head, start_addr;
      pool_size := size / 8 * 8;
      var avail := size / 8 * 8 - 2 * HDR;
      available_size := avail;
      max_used_size := 2 * HDR;
      var tail := start_addr + avail + HDR;
      var m := ItemMem(mem, head, RT_MEMHEAP_MAGIC, self, 0, 0, head, head);
      m := ItemMem(m, start_addr, RT_MEMHEAP_MAGIC, self, tail, tail, Ld(m, head + NEXT_FREE), head);
      m := m[Ld(m, head + NEXT_FREE) + PREV_FREE := start_addr];
      m := m[head + NEXT_FREE := start_addr];
      m := ItemMem(m, tail, RT_MEMHEAP_MAGIC + 1, self, start_addr, start_addr, 0, 0);
      this.mem := m;
      blocks := [Block(start_addr, tail, false)];
      free := [start_addr];
      slots := {start_addr, tail, head};
      new;
      InitInv(start_addr, size);
      FreshLinks(this.mem, Lay());
      assert HeaderSlots(blocks) == {start_addr} by {
        assert blocks[0].addr == start_addr;
      }
    }

    /** Takes an entry off the free list. */
    method Unlink(item: int, ghost k: int)
      requires Links(mem, Lay()) && 0 <= k < |free| && free[k] == item
      modifies this`mem, this`free
      ensures Links(mem, Lay()) && free == Without(old(free), k)
      ensures WithinSlots(old(mem), mem, slots)
    {
      hide Links, WithinSlots, Only;
      UnlinkLinks(mem, Lay(), k);
      var next_free, prev_free := Ld(mem, item + NEXT_FREE), Ld(mem, item + PREV_FREE);
      mem := mem[next_free + PREV_FREE := prev_free];
      mem := mem[prev_free + NEXT_FREE := next_free];
      assert mem == UnlinkMem(old(mem), item);
      UnlinkWithin(old(mem), mem, slots, next_free, prev_free);
      free := Without(free, k);
    }

    /** Links an item in directly behind the free-list header. */
    method Push(item: int)
      requires Links(mem, Lay()) && item in slots && item != head && item !in free
      modifies this`mem, this`free
      ensures Links(mem, Lay()) && free == [item] + old(free)
      ensures WithinSlots(old(mem), mem, slots)
    {
      hide Links, WithinSlots, Only;
      PushLinks(mem, Lay(), item);
      HeadSlot(mem, Lay());
      ghost var n := Ld(mem, head + NEXT_FREE);
      mem := mem[item + NEXT_FREE := Ld(mem, head + NEXT_FREE)];
      mem := mem[item + PREV_FREE := head];
      mem := mem[Ld(mem, head + NEXT_FREE) + PREV_FREE := item];
      mem := mem[head + NEXT_FREE := item];
      assert mem == PushMem(old(mem), head, item);
      PushWithin(old(mem), mem, slots, item, head, n);
      free := [item] + free;
    }

    /** Builds a free block's header at `item` and links it in behind block i. */
    method Insert(header: int, item: int, ghost i: int)
      requires Links(mem, Lay()) && 0 <= i < |blocks| && blocks[i].addr == header
      requires item in slots && item != Tail(Abs()) && (forall k :: 0 <= k < |blocks| ==> blocks[k].addr != item)
      modifies this`mem, this`blocks
      ensures Links(mem, Lay())
      ensures blocks
              == Splice(old(blocks), i, i + 1, [old(blocks)[i].(end := item), Block(item, old(blocks)[i].end, false)])
      ensures WithinSlots(old(mem), mem, slots)
    {
      hide Links, WithinSlots, Only;
      InsertLinks(mem, Lay(), i, item);
      NextIs(mem, Lay(), i);
      mem := mem[item + MAGIC := RT_MEMHEAP_MAGIC];
      mem := mem[item + POOL := self];
      mem := mem[item + PREV := header];
      mem := mem[item + NEXT := Ld(mem, header + NEXT)];
      mem := mem[Ld(mem, header + NEXT) + PREV := item];
      mem := mem[header + NEXT := item];
      assert mem == InsertMem(old(mem), header, item, self);
      ListCellsWithin(old(mem), mem, slots, item, header, After(blocks, i, Tail(Abs())));
      blocks := Splice(blocks, i, i + 1, [blocks[i].(end := item), Block(item, blocks[i].end, false)]);
    }

    /** Unlinks the header of block i+1 from the block list. */
    method Join(item: int, ghost i: int)
      requires Links(mem, Lay()) && 0 <= i < |blocks| - 1 && blocks[i + 1].addr == item
      modifies this`mem, this`blocks
      ensures Links(mem, Lay())
      ensures blocks == Splice(old(blocks), i, i + 2, [old(blocks)[i].(end := old(blocks)[i + 1].end)])
      ensures WithinSlots(old(mem), mem, slots)
    {
      hide Links, WithinSlots, Only;
      JoinLinks(mem, Lay(), i);
      NextIs(mem, Lay(), i);
      NextIs(mem, Lay(), i + 1);
      var next, prev := Ld(mem, item + NEXT), Ld(mem, item + PREV);
      mem := mem[next + PREV := prev];
      mem := mem[prev + NEXT := next];
      assert mem == JoinMem(old(mem), item);
      JoinWithin(old(mem), mem, slots, prev, next);
      blocks := Splice(blocks, i, i + 2, [blocks[i].(end := blocks[i + 1].end)]);
    }

    /** Sets or clears the used bit of block i. */
    method Mark(header: int, used: bool, ghost i: int)
      requires Links(mem, Lay()) && 0 <= i < |blocks| && blocks[i].addr == header
      modifies this`mem, this`blocks
      ensures Links(mem, Lay())
      ensures blocks == Splice(old(blocks), i, i + 1, [old(blocks)[i].(used := used)])
      ensures WithinSlots(old(mem), mem, slots)
    {
      hide Links, WithinSlots, Only;
      MarkLinks(mem, Lay(), i, used);
      NextIs(mem, Lay(), i);
      var magic := Ld(mem, header + MAGIC);
      if used {
        mem := mem[header + MAGIC := if magic % 2 == 0 then magic + 1 else magic];
      } else {
        mem := mem[header + MAGIC := if magic % 2 == 0 then magic else magic - 1];
      }
      assert mem == MarkMem(old(mem), header, used);
      MarkWithin(old(mem), mem, slots, header);
      blocks := Splice(blocks, i, i + 1, [blocks[i].(used := used)]);
    }

    /** `item->next_free = item->prev_free = RT_NULL` for an item off the free list. */
    method Forget(item: int)
      requires Links(mem, Lay()) && item in slots && item != head && item !in free
      modifies this`mem
      ensures Links(mem, Lay())
      ensures WithinSlots(old(mem), mem, slots)
    {
      hide Links, WithinSlots, Ld;
      ForgetLinks(mem, Lay(), item);
      mem := mem[item + NEXT_FREE := 0];
      mem := mem[item + PREV_FREE := 0];
    }

    /** The search loop of rt_memheap_alloc: the first listed block that fits, if any. */
    method Search(size: int) returns (header_ptr: int, free_size: int, ghost k: int)
      requires Valid() && size > 0
      ensures k == FirstFit(Abs(), size, 0)
      ensures var j := FirstFit(Abs(), size, 0);
              && (free_size >= size <==> j < |free|)
              && (j < |free| ==> header_ptr == free[j] && free_size == SizeAt(Abs(), free[j]))
    {
      hide Inv, Links, Ld, SizeAt, FirstFit, RingOf;
      free_size := 0;
      k := 0;
      RingAt(mem, Abs(), Lay(), 0);
      header_ptr := Ld(mem, head + NEXT_FREE);
      while header_ptr != head && free_size < size
        invariant 0 <= k <= |free| && (k < |free| ==> header_ptr == free[k])
        invariant (header_ptr == head) == (k == |free|)
        invariant free_size >= size ==> k < |free| && free_size == SizeAt(Abs(), free[k])
        invariant FirstFit(Abs(), size, 0) == FirstFit(Abs(), size, k)
        decreases |free| - k, if free_size < size then 1 else 0
      {
        RingAt(mem, Abs(), Lay(), k);
        FitStep(Abs(), size, k);
        free_size := Ld(mem, header_ptr + NEXT) - header_ptr - HDR;
        if free_size < size {
          RingAt(mem, Abs(), Lay(), k + 1);
          header_ptr := Ld(mem, header_ptr + NEXT_FREE);
          k := k + 1;
        }
      }
      FitStep(Abs(), size, k);
    }

    /** `if (pool_size - available_size > max_used_size) max_used_size = pool_size - available_size`. */
    method RaiseMaxUsed()
      modifies this`max_used_size
      ensures Abs() == Raise(old(Abs()))
    {
      if pool_size - available_size > max_used_size {
        max_used_size := pool_size - available_size;
      }
    }

    /** The block at header_ptr is split: the rest becomes a listed free block. */
    method Split(header_ptr: int, size: int, ghost i: int, ghost k: int)
      requires Valid() && 0 <= i < |blocks| && 0 <= k < |free|
      requires blocks[i].addr == free[k] == header_ptr && !blocks[i].used
      requires size >= MINI && Size(blocks[i]) >= size + HDR + MINI
      modifies this
      ensures Links(mem, Lay()) && slots == Rebuilt(old(Abs()), head, i, i + 1, header_ptr + HDR + size)
      ensures WithinSlots(old(mem), mem, slots)
      ensures var b, rest := old(blocks)[i], header_ptr + HDR + size;
              Abs() == Raise(old(Abs()).(
                blocks := Splice(old(blocks), i, i + 1, [b.(end := rest), Block(rest, b.end, false)]),
                free := [rest] + Without(old(free), k),
                available := old(available_size) - size - HDR))
    {
      hide Inv, Links, Ld, WithinSlots, Spaced, Splice, Without, SlotsOf;
      ghost var h := Abs();
      var new_ptr := header_ptr + size + HDR;
      Ready(mem, h, Lay(), i, new_ptr);
      Books(h);
      NotInWithout(free, k, new_ptr);
      slots := Rebuilt(h, head, i, i + 1, new_ptr);
      Insert(header_ptr, new_ptr, i);
      ghost var m1 := mem;
      Unlink(header_ptr, k);
      WithinStep(old(mem), m1, mem, slots);
      ghost var m2 := mem;
      Forget(header_ptr);
      WithinStep(old(mem), m2, mem, slots);
      ghost var m3 := mem;
      Push(new_ptr);
      WithinStep(old(mem), m3, mem, slots);
      available_size := available_size - size - HDR;
      RaiseMaxUsed();
    }

    /** The whole block leaves the free list. */
    method TakeAll(header_ptr: int, free_size: int, ghost i: int, ghost k: int)
      requires Valid() && 0 <= i < |blocks| && 0 <= k < |free|
      requires blocks[i].addr == free[k] == header_ptr && free_size == Size(blocks[i])
      modifies this
      ensures Links(mem, Lay()) && slots == old(slots)
      ensures WithinSlots(old(mem), mem, slots)
      ensures Abs() == Raise(old(Abs()).(free := Without(old(free), k), available := old(available_size) - free_size))
    {
      hide Inv, Links, Ld, WithinSlots, Spaced, Splice, Without, SlotsOf;
      available_size := available_size - free_size;
      RaiseMaxUsed();
      Books(old(Abs()));
      NotInWithout(free, k, header_ptr);
      InUse(mem, old(Abs()), Lay(), i);
      Unlink(header_ptr, k);
      ghost var m1 := mem;
      Forget(header_ptr);
      WithinStep(old(mem), m1, mem, slots);
    }

    /** The part of rt_memheap_alloc after a block was found. */
    method Take(header_ptr: int, free_size: int, sz: int, ghost i: int, ghost k: int)
      requires Valid() && 0 <= k < |free| && i == IndexAt(blocks, free[k]) < |blocks|
      requires !blocks[i].used && header_ptr == free[k] && free_size == Size(blocks[i]) && free_size >= sz >= MINI
      modifies this
      ensures Valid() && Abs() == MemHeapModel.Take(old(Abs()), k, sz)
      ensures Kept(old(mem), mem, Live(old(blocks))) && Outside(old(mem), mem, old(Abs()), head)
    {
      hide Inv, Links, Live, WithinSlots, Kept, Outside, Splice, Without, SlotsOf, Spaced, Ld;
      ghost var h := Abs();
      ghost var rest := header_ptr + HDR + sz;
      if free_size >= sz + HDR + MINI {
        Split(header_ptr, sz, i, k);
        MarkedSplit(h.blocks, i, rest);
        TakeSplitInv(h, i, k, sz);
      } else {
        TakeAll(header_ptr, free_size, i, k);
        TakeWholeInv(h, i, k);
      }
      ghost var m2 := mem;
      Mark(header_ptr, true, i);
      WithinStep(old(mem), m2, mem, slots);
      assert Abs() == MemHeapModel.Take(h, k, sz);
      CloseSlots(mem, Abs(), head, self, slots);
      TakeKept(h, head, old(mem), mem, i, slots, rest);
      slots := SlotsOf(Abs(), head);
    }

    /** rt_memheap_alloc. */
    method Alloc(size: int) returns (p: int)
      requires Valid() && 0 <= size < WORD
      modifies this
      ensures Valid()
      ensures Abs() == MemHeapModel.Alloc(old(Abs()), size).0 && p == MemHeapModel.Alloc(old(Abs()), size).1
      ensures Kept(old(mem), mem, Live(old(blocks))) && Outside(old(mem), mem, old(Abs()), head)
    {
      hide Inv, Links, Live, Kept, Outside, SlotsOf, Ld, MemHeapModel.Take;
      KeptSame(mem, Live(blocks), Abs(), head);
      var sz := AlignUp(size);
      if sz < MINI {
        sz := MINI;
      }
      p := 0;
      if sz < available_size {
        var header_ptr, free_size;
        ghost var k;
        header_ptr, free_size, k := Search(sz);
        if free_size >= sz {
          FreeListed(Abs(), k);
          Take(header_ptr, free_size, sz, IndexAt(blocks, free[k]), k);
          p := header_ptr + HDR;
        }
      }
    }

    /** RT_MEMHEAP_IS_USED. */
    predicate IsUsed(item: int)
      reads this`mem
    {
      Ld(mem, item + MAGIC) % 2 != 0
    }

    /** Merges a freed block at position i with the free block before it, if there is one. */
    method MergeLeft(header_ptr: int, ghost i: int) returns (p: int, insert_header: bool, ghost lo: int)
      requires Links(mem, Lay()) && 0 <= i < |blocks| && blocks[i].addr == header_ptr && !blocks[i].used
      modifies this`mem, this`blocks, this`available_size
      ensures lo == LeftEdge(old(blocks), i) && insert_header == (lo == i) && p == old(blocks)[lo].addr
      ensures Links(mem, Lay()) && WithinSlots(old(mem), mem, slots)
      ensures blocks == Splice(old(blocks), lo, i + 1, [Block(p, old(blocks)[i].end, false)])
      ensures available_size == old(available_size) + (if lo < i then HDR else 0)
    {
      hide Links, WithinSlots, Ld;
      NextIs(mem, Lay(), i);
      p, insert_header, lo := header_ptr, true, i;
      var prev := Ld(mem, header_ptr + PREV);
      if i > 0 {
        NextIs(mem, Lay(), i - 1);
      }
      SpliceSelf(blocks, i);
      WithinSelf(mem, slots);
      if !IsUsed(prev) {
        available_size := available_size + HDR;
        lo := i - 1;
        JoinedLeft(blocks, i);
        Join(header_ptr, i - 1);
        p := prev;
        insert_header := false;
      }
    }

    /** The free block at position i+1 is unlinked from both lists and joins block i. */
    method Absorb(item: int, ghost i: int)
      requires Links(mem, Lay()) && 0 <= i < |blocks| - 1 && blocks[i + 1].addr == item && item in free
      modifies this`mem, this`blocks, this`free
      ensures Links(mem, Lay()) && WithinSlots(old(mem), mem, slots)
      ensures blocks == Splice(old(blocks), i, i + 2, [old(blocks)[i].(end := old(blocks)[i + 1].end)])
      ensures free == Drop(old(free), item)
    {
      hide Links, WithinSlots, IndexOf;
      Join(item, i);
      ghost var m1 := mem;
      Unlink(item, IndexOf(free, item));
      WithinStep(old(mem), m1, mem, slots);
    }

    /** Merges the free block at position i with a free block behind it, which leaves the free list. */
    method MergeRight(header_ptr: int, ghost i: int)
      requires Links(mem, Lay()) && 0 <= i < |blocks| && blocks[i].addr == header_ptr && !blocks[i].used
      requires RightEdge(blocks, i) == i + 2 ==> blocks[i + 1].addr in free
      modifies this`mem, this`blocks, this`available_size, this`free
      ensures Links(mem, Lay()) && WithinSlots(old(mem), mem, slots)
      ensures var bs, hi := old(blocks), RightEdge(old(blocks), i);
              && blocks == Splice(bs, i, hi, [Block(header_ptr, bs[hi - 1].end, false)])
              && free == (if hi == i + 2 then Drop(old(free), bs[i + 1].addr) else old(free))
              && available_size == old(available_size) + (if hi == i + 2 then HDR else 0)
    {
      hide Links, WithinSlots, Ld, Drop;
      NextIs(mem, Lay(), i);
      var new_ptr := Ld(mem, header_ptr + NEXT);
      if i + 1 < |blocks| {
        NextIs(mem, Lay(), i + 1);
      }
      SpliceSelf(blocks, i);
      WithinSelf(mem, slots);
      if !IsUsed(new_ptr) {
        available_size := available_size + HDR;
        Absorb(new_ptr, i);
      }
    }

    /** Both merges around the block at position i, whose used bit was just cleared in `was`. */
    method Merge(header_ptr: int, ghost i: int, ghost was: seq<Block>) returns (p: int, insert_header: bool)
      requires Links(mem, Lay()) && 0 <= i < |was| && blocks == Splice(was, i, i + 1, [was[i].(used := false)])
      requires was[i].addr == header_ptr && (RightEdge(was, i) == i + 2 ==> was[i + 1].addr in free)
      modifies this`mem, this`blocks, this`available_size, this`free
      ensures Links(mem, Lay()) && WithinSlots(old(mem), mem, slots)
      ensures var lo, hi := LeftEdge(was, i), RightEdge(was, i);
              && p == was[lo].addr && insert_header == (lo == i)
              && blocks == Splice(was, lo, hi, [Block(was[lo].addr, was[hi - 1].end, false)])
              && free == (if hi == i + 2 then Drop(old(free), was[i + 1].addr) else old(free))
              && available_size == old(available_size) + (if lo < i then HDR else 0) + (if hi == i + 2 then HDR else 0)
    {
      hide Links, WithinSlots, Splice, Drop;
      FreedAt(was, i);
      ghost var lo;
      p, insert_header, lo := MergeLeft(header_ptr, i);
      ghost var m1 := mem;
      FreedMerged(was, i);
      MergeRight(p, lo);
      WithinStep(old(mem), m1, mem, slots);
    }

    /** The list work of rt_memheap_free. */
    method Release(ptr: int)
      requires Valid() && Held(Abs(), ptr)
      modifies this
      ensures Links(mem, Lay()) && slots == old(slots) && WithinSlots(old(mem), mem, slots)
      ensures Abs() == MemHeapModel.Free(old(Abs()), ptr)
    {
      hide Inv, Links, Live, WithinSlots, SlotsOf, Ld, Spaced, Drop;
      ghost var h := Abs();
      var header_ptr := ptr - HDR;
      ghost var i := IndexAt(blocks, header_ptr);
      FreeReady(h, head, ptr);
      NextIs(mem, Lay(), i);
      Mark(header_ptr, false, i);
      ghost var m1 := mem;
      FreedAt(h.blocks, i);
      NextIs(mem, Lay(), i);
      available_size := available_size + (Ld(mem, header_ptr + NEXT) - header_ptr - HDR);
      var insert_header;
      header_ptr, insert_header := Merge(header_ptr, i, h.blocks);
      WithinStep(old(mem), m1, mem, slots);
      ghost var m2 := mem;
      if insert_header {
        Push(header_ptr);
        WithinStep(old(mem), m2, mem, slots);
      }
    }

    /** rt_memheap_free. */
    method Free(ptr: int)
      requires Valid() && (ptr == 0 || Held(Abs(), ptr))
      modifies this
      ensures Valid()
      ensures Abs() == if ptr == 0 then old(Abs()) else MemHeapModel.Free(old(Abs()), ptr)
      ensures Kept(old(mem), mem, Live(old(blocks))) && Outside(old(mem), mem, old(Abs()), head)
    {
      hide Inv, Links, Live, WithinSlots, Kept, Outside, SlotsOf, Ld, MemHeapModel.Free;
      ghost var h := Abs();
      KeptSame(mem, Live(blocks), h, head);
      if ptr != 0 {
        Release(ptr);
        FreeMeaning(h, ptr);
        FreeTracks(h, ptr);
        CloseSlots(mem, Abs(), head, self, slots);
        KeptAll(h, head, old(mem), mem);
        slots := SlotsOf(Abs(), head);
      }
    }

    /** Takes the free block i+1 out of both lists. */
    method Detach(item: int, ghost i: int)
      requires Links(mem, Lay()) && 0 <= i < |blocks| - 1 && blocks[i + 1].addr == item && item in free
      modifies this`mem, this`free, this`blocks
      ensures Links(mem, Lay()) && free == Drop(old(free), item)
      ensures blocks == Splice(old(blocks), i, i + 2, [old(blocks)[i].(end := old(blocks)[i + 1].end)])
      ensures WithinSlots(old(mem), mem, slots)
    {
      hide Links, WithinSlots, IndexOf;
      Unlink(item, IndexOf(free, item));
      ghost var m1 := mem;
      Join(item, i);
      WithinStep(old(mem), m1, mem, slots);
    }

    /** The in-place growth of rt_memheap_realloc: the free block behind gives up its front. */
    method Grow(ptr: int, newsize: int, oldsize: int, ghost i: int)
      requires Valid() && Held(Abs(), ptr) && i == IndexAt(blocks, ptr - HDR) && oldsize == Size(blocks[i])
      requires newsize >= MINI && PlanOf(Abs(), ptr, newsize) == GrowInPlace && !Overruns(Abs(), ptr, newsize)
      modifies this
      ensures Links(mem, Lay()) && slots == Rebuilt(old(Abs()), head, i, i + 2, ptr + newsize)
      ensures WithinSlots(old(mem), mem, SlotsOf(old(Abs()), head) + {ptr + newsize})
      ensures Abs() == Raise(Cut(old(Abs()), i, i + 2, newsize))
    {
      hide Inv, Links, Live, WithinSlots, SlotsOf, Ld, Spaced, Rebuilt, Splice, Drop, RightEdge;
      ghost var h := Abs();
      var header_ptr := ptr - HDR;
      GrowReady(h, head, ptr, newsize);
      NextIs(mem, Lay(), i);
      available_size := available_size - (newsize - oldsize);
      RaiseMaxUsed();
      var next_ptr := Ld(mem, header_ptr + NEXT);
      Detach(next_ptr, i);
      ghost var m2, s2 := mem, slots;
      next_ptr := ptr + newsize;
      JoinedAt(h.blocks, i, next_ptr);
      assert blocks == Splice(h.blocks, i, i + 2, [h.blocks[i].(end := h.blocks[i + 1].end)]);
      forall k | 0 <= k < |blocks| ensures blocks[k].addr in Rebuilt(h, head, i, i + 2, next_ptr)
          && blocks[k].addr != next_ptr {
        assert blocks[k].addr == (if k <= i then h.blocks[k].addr else h.blocks[k + 1].addr);
      }
      MoreSlots(mem, Lay(), Rebuilt(h, head, i, i + 2, next_ptr));
      slots := Rebuilt(h, head, i, i + 2, next_ptr);
      Insert(header_ptr, next_ptr, i);
      ghost var m3 := mem;
      Push(next_ptr);
      WithinStep(m2, m3, mem, slots);
      WithinTrans(old(mem), m2, mem, s2, slots);
      RebuiltUnion(h, head, i, next_ptr);
    }

    /** The new free block's header, its place behind header_ptr, and its place in the free list. */
    method BuildHeader(header_ptr: int, next_ptr: int)
      modifies this`mem
      ensures mem == PushMem(InsertMem(old(mem), header_ptr, next_ptr, self), head, next_ptr)
    {
      mem := mem[next_ptr + MAGIC := RT_MEMHEAP_MAGIC];
      mem := mem[next_ptr + POOL := self];
      mem := mem[next_ptr + PREV := header_ptr];
      mem := mem[next_ptr + NEXT := Ld(mem, header_ptr + NEXT)];
      mem := mem[Ld(mem, header_ptr + NEXT) + PREV := next_ptr];
      mem := mem[header_ptr + NEXT := next_ptr];
      mem := mem[next_ptr + NEXT_FREE := Ld(mem, head + NEXT_FREE)];
      mem := mem[next_ptr + PREV_FREE := head];
      mem := mem[Ld(mem, head + NEXT_FREE) + PREV_FREE := next_ptr];
      mem := mem[head + NEXT_FREE := next_ptr];
    }

    /**
     * The same branch for the rounded size whose test wraps: the new header comes to lie in front of the data, over the
     * caller's own header and first bytes.
     */
    method Overrun(ptr: int, newsize: int, oldsize: int, ghost i: int)
      requires Valid() && Held(Abs(), ptr) && i == IndexAt(blocks, ptr - HDR) && oldsize == Size(blocks[i])
      requires newsize == 0xFFFF_FFF8 && Overruns(Abs(), ptr, newsize)
      modifies this
      ensures Abs() == Resize(old(Abs()), ptr, newsize).0 && i + 1 < |old(blocks)|
      ensures WithinSlots(old(mem), mem, SlotsOf(old(Abs()), head) + {ptr - 8})
      ensures Scribbled(mem, ptr, head, old(blocks)[i + 1].end)
    {
      hide Inv, Links, Live, WithinSlots, SlotsOf, Ld, Splice, Drop, RightEdge, Scribbled, InsertMem, PushMem;
      ghost var h := Abs();
      var header_ptr := ptr - HDR;
      OverrunMeaning(h, ptr, newsize);
      OverrunReady(h, head, ptr);
      NextIs(mem, Lay(), i);
      available_size := (available_size - (newsize - oldsize)) % WORD;
      MaxUsedCovers(h);
      OverrunCounts(h, i);
      RaiseMaxUsed();
      var next_ptr := Ld(mem, header_ptr + NEXT);
      Detach(next_ptr, i);
      ghost var m := mem;
      JoinedAt(h.blocks, i, ptr - 8);
      NextIs(mem, Lay(), i);
      OverrunCells(mem, Lay(), i);
      next_ptr := (ptr + newsize) % WORD;
      BuildHeader(header_ptr, next_ptr);
      WithinMore(old(mem), m, mem, slots, ptr - 8);
      blocks := Splice(h.blocks, i, i + 2,
          [Block(header_ptr, next_ptr, true), Block(next_ptr, h.blocks[i + 1].end, false)]);
      free := [next_ptr] + free;
    }

    /** The new block behind a shrunk one joins a free block behind it, whose bytes stop counting. */
    method AbsorbNext(new_ptr: int, ghost j: int)
      requires Links(mem, Lay()) && 0 <= j < |blocks| && blocks[j] == Block(new_ptr, blocks[j].end, false)
      requires RightEdge(blocks, j) == j + 2 ==> blocks[j + 1].addr in free
      modifies this`mem, this`blocks, this`available_size, this`free
      ensures Links(mem, Lay()) && WithinSlots(old(mem), mem, slots)
      ensures var bs, hi := old(blocks), RightEdge(old(blocks), j);
              && blocks == Splice(bs, j, hi, [Block(new_ptr, bs[hi - 1].end, false)])
              && free == (if hi == j + 2 then Drop(old(free), bs[j + 1].addr) else old(free))
              && available_size == old(available_size) - (if hi == j + 2 then Size(bs[j + 1]) else 0)
    {
      hide Links, WithinSlots, Ld, Drop;
      NextIs(mem, Lay(), j);
      var free_ptr := Ld(mem, new_ptr + NEXT);
      if j + 1 < |blocks| {
        NextIs(mem, Lay(), j + 1);
      }
      SpliceSelf(blocks, j);
      WithinSelf(mem, slots);
      if !IsUsed(free_ptr) {
        available_size := available_size - (Ld(mem, free_ptr + NEXT) - free_ptr - HDR);
        Absorb(free_ptr, j);
      }
    }

    /** The in-place shrink of rt_memheap_realloc: the tail of the block becomes, or joins, a free block. */
    method ShrinkTo(ptr: int, newsize: int, ghost i: int)
      requires Valid() && Held(Abs(), ptr) && i == IndexAt(blocks, ptr - HDR)
      requires newsize >= MINI && PlanOf(Abs(), ptr, newsize) == Shrink
      modifies this
      ensures Links(mem, Lay()) && slots == Rebuilt(old(Abs()), head, i, i + 1, ptr + newsize)
      ensures WithinSlots(old(mem), mem, slots)
      ensures Abs() == Cut(old(Abs()), i, RightEdge(old(blocks), i), newsize)
    {
      hide Inv, Links, Live, WithinSlots, SlotsOf, Ld, Spaced, Rebuilt, Drop, Splice;
      ghost var h := Abs();
      var header_ptr := ptr - HDR;
      var new_ptr := header_ptr + newsize + HDR;
      FreeReady(h, head, ptr);
      Ready(mem, h, Lay(), i, new_ptr);
      UnlistKeepsOut(h, new_ptr, i);
      slots := Rebuilt(h, head, i, i + 1, new_ptr);
      Insert(header_ptr, new_ptr, i);
      ghost var m1 := mem;
      CutAt(h.blocks, i, new_ptr);
      AbsorbNext(new_ptr, i + 1);
      WithinStep(old(mem), m1, mem, slots);
      ghost var m2 := mem;
      Push(new_ptr);
      WithinStep(old(mem), m2, mem, slots);
      NextIs(mem, Lay(), i + 1);
      available_size := available_size + (Ld(mem, new_ptr + NEXT) - new_ptr - HDR);
    }

    /** rt_memcpy between two live blocks. */
    method CopyData(dst: int, src: int, n: int)
      requires Valid() && n >= 0 && (dst + n <= src || src + n <= dst)
      requires exists b :: b in Live(blocks) && b.addr + HDR == dst && dst + n <= b.end
      modifies this`mem
      ensures Valid()
      ensures Copied(old(mem), mem, dst, src, n)
      ensures forall x :: !(dst <= x < dst + n) ==> Ld(mem, x) == Ld(old(mem), x)
    {
      hide Inv, Links, SlotsOf;
      ghost var b :| b in Live(blocks) && b.addr + HDR == dst && dst + n <= b.end;
      var len := 0;
      while len < n
        invariant 0 <= len <= n
        invariant Copied(old(mem), mem, dst, src, len)
        invariant forall x :: !(dst <= x < dst + len) ==> Ld(mem, x) == Ld(old(mem), x)
      {
        ghost var m := mem;
        assert Ld(mem, src + len) == Ld(old(mem), src + len);
        mem := mem[dst + len := Ld(mem, src + len)];
        assert forall x :: Ld(mem, x) == if x == dst + len then Ld(old(mem), src + len) else Ld(m, x);
        len := len + 1;
      }
      DataWrite(old(mem), mem, Abs(), Lay(), b);
    }

    /** The copying path: allocate, copy, free, each under the lock on its own. */
    method MoveTo(ptr: int, newsize: int, oldsize: int) returns (p: int)
      requires Valid() && ptr != 0 && Held(Abs(), ptr) && oldsize == Size(BlockOf(Abs(), ptr))
      requires oldsize < newsize < WORD && PlanOf(Abs(), ptr, newsize) == Move
               && (exists size :: newsize == Request(size))
      modifies this
      ensures Valid()
      ensures Abs() == Resize(old(Abs()), ptr, newsize).0 && p == Resize(old(Abs()), ptr, newsize).1
      ensures p != 0 ==> Copied(old(mem), mem, p, ptr, oldsize)
      ensures Kept(old(mem), mem, Live(old(blocks)) - (if p == 0 then {} else {BlockOf(old(Abs()), ptr)}))
      ensures Outside(old(mem), mem, old(Abs()), head)
    {
      hide Inv, Links, SlotsOf, Live, Ld, MemHeapModel.Alloc, MemHeapModel.Free, PlanOf;
      ghost var h := Abs();
      MoveMeaning(h, ptr, newsize);
      Gap(h);
      AllocTracks(h, newsize);
      p := Alloc(newsize);
      ghost var m1 := mem;
      if p != 0 {
        ghost var g := Given(h, newsize);
        assert Abs() == MemHeapModel.Alloc(h, newsize).0;
        GivenApart(h, ptr, newsize);
        CopyData(p, ptr, oldsize);
        ghost var m2 := mem;
        Free(ptr);
        MoveKept(h, head, old(mem), m1, m2, mem, ptr, newsize, oldsize);
      }
    }

    /** A larger size: grow into the free block behind, or move. */
    method Enlarge(ptr: int, newsize: int, oldsize: int, ghost i: int) returns (p: int)
      requires Valid() && ptr != 0 && Held(Abs(), ptr) && i == IndexAt(blocks, ptr - HDR)
      requires oldsize == Size(blocks[i]) && oldsize < newsize && exists size :: newsize == Request(size)
      modifies this
      ensures Valid() <==> !Overruns(old(Abs()), ptr, newsize)
      ensures Abs() == Resize(old(Abs()), ptr, newsize).0 && p == Resize(old(Abs()), ptr, newsize).1
      ensures p != 0 && !Overruns(old(Abs()), ptr, newsize) ==> Copied(old(mem), mem, p, ptr, oldsize)
      ensures Overruns(old(Abs()), ptr, newsize) ==> p == ptr && exists end :: Scribbled(mem, ptr, head, end)
      ensures Kept(old(mem), mem, Live(old(blocks)) - (if p == 0 then {} else {BlockOf(old(Abs()), ptr)}))
      ensures Outside(old(mem), mem, old(Abs()), head)
    {
      hide Inv, Links, SlotsOf, Live, Ld, PlanOf, Resize, Kept, Outside, WithinSlots, Copied, Scribbled, Cut;
      ghost var h := Abs();
      var header_ptr := ptr - HDR;
      RequestBounds(newsize);
      HeldNext(mem, h, Lay(), ptr);
      PlanIs(h, ptr, newsize);
      GrowChosen(h, ptr, newsize);
      var next_ptr := Ld(mem, header_ptr + NEXT);
      if !IsUsed(next_ptr) {
        var nextsize := Ld(mem, next_ptr + NEXT) - next_ptr - HDR;
        if (nextsize + oldsize) % WORD > (newsize + MINI) % WORD {
          p := ptr;
          if newsize + MINI < WORD {
            GrowPlain(h, ptr, newsize);
            Grow(ptr, newsize, oldsize, i);
            ResizeMeaning(h, ptr, newsize);
            GrowTracks(h, ptr, newsize);
            CloseSlots(mem, Abs(), head, self, slots);
            GrowKept(h, head, old(mem), mem, ptr, newsize);
            slots := SlotsOf(Abs(), head);
          } else {
            Overrun(ptr, newsize, oldsize, i);
            OverrunMeaning(h, ptr, newsize);
            OverrunKept(h, head, old(mem), mem, ptr);
          }
          return;
        }
      }
      p := MoveTo(ptr, newsize, oldsize);
    }

    /** The same size, a little less, or a cut. */
    method Reduce(ptr: int, newsize: int, oldsize: int, ghost i: int)
      requires Valid() && ptr != 0 && Held(Abs(), ptr) && i == IndexAt(blocks, ptr - HDR)
      requires oldsize == Size(blocks[i]) && newsize <= oldsize && exists size :: newsize == Request(size)
      modifies this
      ensures Valid() && Abs() == Resize(old(Abs()), ptr, newsize).0 && Resize(old(Abs()), ptr, newsize).1 == ptr
      ensures Copied(old(mem), mem, ptr, ptr, newsize)
      ensures Kept(old(mem), mem, Live(old(blocks)) - {BlockOf(old(Abs()), ptr)})
              && Outside(old(mem), mem, old(Abs()), head)
    {
      hide Inv, Links, SlotsOf, Live, Ld, PlanOf, Kept, Outside, WithinSlots, Cut, Copied;
      ghost var h := Abs();
      RequestBounds(newsize);
      PlanIs(h, ptr, newsize);
      HeldFits(h, ptr, newsize);
      if newsize + HDR + MINI >= oldsize {
        KeptSame(mem, Live(blocks), h, head);
        KeptLess(old(mem), mem, Live(h.blocks), {BlockOf(h, ptr)});
        CopiedSelf(mem, ptr, newsize);
        return;
      }
      ShrinkTo(ptr, newsize, i);
      ResizeMeaning(h, ptr, newsize);
      GrowTracks(h, ptr, newsize);
      CloseSlots(mem, Abs(), head, self, slots);
      ShrinkKept(h, head, old(mem), mem, ptr, newsize);
      slots := SlotsOf(Abs(), head);
    }

    /** rt_memheap_realloc. */
    method Realloc(ptr: int, size: int) returns (p: int)
      requires Valid() && 0 <= size < WORD && (ptr == 0 || Held(Abs(), ptr))
      modifies this
      ensures Valid() <==> !ReallocOverruns(old(Abs()), ptr, size)
      ensures Abs() == MemHeapModel.Realloc(old(Abs()), ptr, size).0
              && p == MemHeapModel.Realloc(old(Abs()), ptr, size).1
      ensures ReallocOverruns(old(Abs()), ptr, size) ==> p == ptr && exists end :: Scribbled(mem, ptr, head, end)
      ensures ptr != 0 && p != 0 && !ReallocOverruns(old(Abs()), ptr, size) ==>
                Copied(old(mem), mem, p, ptr, Min(Size(BlockOf(old(Abs()), ptr)), Request(size)))
      ensures Kept(old(mem), mem,
              Live(old(blocks)) - (if ptr == 0 || (p == 0 && size != 0) then {} else {BlockOf(old(Abs()), ptr)}))
      ensures Outside(old(mem), mem, old(Abs()), head)
    {
      hide Inv, Links, SlotsOf, Live, Ld, MemHeapModel.Alloc, MemHeapModel.Free, Resize, Kept, Outside, Copied,
          Scribbled, FreeBehind;
      ghost var h := Abs();
      KeptSame(mem, Live(blocks), h, head);
      if size == 0 {
        Free(ptr);
        assert AlignUp(0) == 0;
        p := 0;
        KeptLess(old(mem), mem, Live(h.blocks), if ptr == 0 then {} else {BlockOf(h, ptr)});
        return;
      }
      var newsize := AlignUp(size);
      if newsize < MINI {
        newsize := MINI;
      }
      assert newsize == Request(size);
      if ptr == 0 {
        p := Alloc(newsize);
        KeptLess(old(mem), mem, Live(h.blocks), {});
        return;
      }
      HeldNext(mem, h, Lay(), ptr);
      OverrunsIff(h, ptr, size);
      var oldsize := Ld(mem, ptr - HDR + NEXT) - (ptr - HDR) - HDR;
      if newsize > oldsize {
        p := Enlarge(ptr, newsize, oldsize, IndexAt(blocks, ptr - HDR));
      } else {
        p := ptr;
        HeldFits(h, ptr, newsize);
        Reduce(ptr, newsize, oldsize, IndexAt(blocks, ptr - HDR));
      }
    }
  }

  /** The fields of a fresh heap are its three headers' links. */
  lemma FreshLinks(m: Mem, l: Layout)
    requires l.bs == [Block(l.start, l.tail, false)] && l.free == [l.start] && l.slots == {l.start, l.tail, l.head}
    requires l.start + HDR < l.tail && (l.head + HDR <= l.start || l.tail + HDR <= l.head)
    requires HeaderRep(m, l.bs[0], l.self) && Ld(m, l.start + PREV) == l.tail
    requires HeaderRep(m, Block(l.tail, l.start, true), l.self) && Ld(m, l.tail + PREV) == l.start
    requires Ld(m, l.head + NEXT_FREE) == l.start && Ld(m, l.head + PREV_FREE) == l.start
    requires Ld(m, l.start + NEXT_FREE) == l.head && Ld(m, l.start + PREV_FREE) == l.head
    ensures Links(m, l)
  {
    hide Ld;
  }

  lemma HeadSlot(m: Mem, l: Layout)
    requires Links(m, l)
    ensures l.head in l.slots
  {
  }

  lemma UnlinkWithin(m: Mem, m': Mem, slots: set<int>, n: int, p: int)
    requires n in slots && p in slots && Only(m, m', {n + PREV_FREE, p + NEXT_FREE})
    ensures WithinSlots(m, m', slots)
  {
    hide Ld;
    assert Only(m, m', {p + NEXT_FREE, p + PREV_FREE, p + NEXT_FREE, n + PREV_FREE});
    LinkCellsWithin(m, m', slots, p, p, n);
  }

  lemma PushWithin(m: Mem, m': Mem, slots: set<int>, a: int, head: int, n: int)
    requires a in slots && head in slots && n in slots
    requires Only(m, m', {a + NEXT_FREE, a + PREV_FREE, n + PREV_FREE, head + NEXT_FREE})
    ensures WithinSlots(m, m', slots)
  {
    hide Ld;
    assert Only(m, m', {a + NEXT_FREE, a + PREV_FREE, head + NEXT_FREE, n + PREV_FREE});
    LinkCellsWithin(m, m', slots, a, head, n);
  }

  lemma JoinWithin(m: Mem, m': Mem, slots: set<int>, p: int, n: int)
    requires p in slots && n in slots && Only(m, m', {p + NEXT, n + PREV})
    ensures WithinSlots(m, m', slots)
  {
    hide Ld;
    assert Only(m, m', {p + MAGIC, p + POOL, p + NEXT, p + PREV, p + NEXT, n + PREV});
    ListCellsWithin(m, m', slots, p, p, n);
  }

  lemma MarkWithin(m: Mem, m': Mem, slots: set<int>, p: int)
    requires p in slots && Only(m, m', {p + MAGIC})
    ensures WithinSlots(m, m', slots)
  {
    hide Ld;
    assert Only(m, m', {p + MAGIC, p + POOL, p + NEXT, p + PREV, p + NEXT, p + PREV});
    ListCellsWithin(m, m', slots, p, p, p);
  }

  /** Between operations the header slots are apart. */
  lemma SlotsSpaced(h: Heap, head: int)
    requires Inv(h) && HeadApart(h, head)
    ensures Spaced(HDR, SlotsOf(h, head))
  {
    hide Inv;
    Gap(h);
    forall x | x in HeaderSlots(h.blocks) ensures h.start <= x && x + HDR <= Tail(h) {
    }
    forall x, y | x in HeaderSlots(h.blocks) && y in HeaderSlots(h.blocks) && x != y
      ensures x + HDR <= y || y + HDR <= x
    {
      var i :| 0 <= i < |h.blocks| && h.blocks[i].addr == x;
      var j :| 0 <= j < |h.blocks| && h.blocks[j].addr == y;
      assert i < j || j < i;
    }
  }

  /** The slots while the blocks from i up to hi are rebuilt around a header at a. */
  function Rebuilt(h: Heap, head: int, i: int, hi: int, a: int): set<int>
    requires 0 <= i < hi <= |h.blocks|
  {
    (if hi == i + 2 then SlotsOf(h, head) - {h.blocks[i + 1].addr} else SlotsOf(h, head)) + {a}
  }

  /** A header fits strictly inside a window of at most two blocks. */
  lemma NewSlot(h: Heap, head: int, i: int, hi: int, a: int)
    requires Inv(h) && HeadApart(h, head) && 0 <= i < hi <= |h.blocks| && hi <= i + 2
    requires h.blocks[i].addr + HDR <= a && a + HDR <= h.blocks[hi - 1].end
    ensures Spaced(HDR, Rebuilt(h, head, i, hi, a))
    ensures forall k :: (0 <= k <= i || hi <= k < |h.blocks|) ==> h.blocks[k].addr != a
    ensures a != head && a != Tail(h)
  {
    hide Inv;
    Gap(h);
    SlotsSpaced(h, head);
    forall k | 0 <= k <= i || hi <= k < |h.blocks| ensures h.blocks[k].addr + HDR <= a || a + HDR <= h.blocks[k].addr {
    }
  }

  /** Data of live blocks lies in no header slot. */
  lemma DataClear(h: Heap, head: int, b: Block, x: int)
    requires Inv(h) && HeadApart(h, head) && b in Live(h.blocks) && b.addr + HDR <= x < b.end
    ensures Clear(x, SlotsOf(h, head))
  {
    hide Inv;
    Gap(h);
    var j :| 0 <= j < |h.blocks| && h.blocks[j] == b;
    forall i | 0 <= i < |h.blocks| ensures x < h.blocks[i].addr || h.blocks[i].addr + HDR <= x {
    }
  }

  /** Neither does a cell outside the pool and the list header. */
  lemma OutsideClear(h: Heap, head: int, x: int)
    requires Inv(h) && !(h.start <= x < h.start + h.pool) && !(head <= x < head + HDR)
    ensures Clear(x, SlotsOf(h, head))
  {
    hide Inv;
    Gap(h);
  }

  /** What an operation that rebuilds blocks i up to hi around a header at a leaves alone. */
  lemma KeptAround(h: Heap, head: int, m: Mem, m': Mem, i: int, hi: int, a: int)
    requires Inv(h) && HeadApart(h, head) && 0 <= i < hi <= |h.blocks| && hi <= i + 2
    requires hi == i + 2 ==> !h.blocks[i + 1].used
    requires h.blocks[i].addr <= a && a + HDR <= h.blocks[hi - 1].end
    requires WithinSlots(m, m', SlotsOf(h, head) + {a})
    ensures Kept(m, m', Live(h.blocks) - {h.blocks[i]})
    ensures Outside(m, m', h, head)
    ensures forall x ::
              h.blocks[i].addr + HDR <= x < h.blocks[i].end && x < a && h.blocks[i].used
              ==> Ld(m', x) == Ld(m, x)
  {
    hide Inv, Ld, SlotsOf, HeaderSlots;
    Gap(h);
    forall b, x | b in Live(h.blocks) - {h.blocks[i]} && b.addr + HDR <= x < b.end ensures Ld(m', x) == Ld(m, x) {
      DataClear(h, head, b, x);
      var j :| 0 <= j < |h.blocks| && h.blocks[j] == b;
      assert Clear(x, SlotsOf(h, head) + {a});
    }
    forall x | !(h.start <= x < h.start + h.pool) && !(head <= x < head + HDR) ensures Ld(m', x) == Ld(m, x) {
      OutsideClear(h, head, x);
      assert Clear(x, SlotsOf(h, head) + {a});
    }
    forall x | h.blocks[i].addr + HDR <= x < h.blocks[i].end && x < a
        && h.blocks[i].used ensures Ld(m', x) == Ld(m, x) {
      DataClear(h, head, h.blocks[i], x);
      assert Clear(x, SlotsOf(h, head) + {a});
    }
  }

  lemma KeptAll(h: Heap, head: int, m: Mem, m': Mem)
    requires Inv(h) && HeadApart(h, head) && WithinSlots(m, m', SlotsOf(h, head))
    ensures Kept(m, m', Live(h.blocks)) && Outside(m, m', h, head)
  {
    hide Inv, Ld, SlotsOf, HeaderSlots;
    forall b, x | b in Live(h.blocks) && b.addr + HDR <= x < b.end ensures Ld(m', x) == Ld(m, x) {
      DataClear(h, head, b, x);
    }
    forall x | !(h.start <= x < h.start + h.pool) && !(head <= x < head + HDR) ensures Ld(m', x) == Ld(m, x) {
      OutsideClear(h, head, x);
    }
  }

  /** Slots may be added while they stay apart. */
  lemma MoreSlots(m: Mem, l: Layout, slots: set<int>)
    requires Links(m, l) && Spaced(HDR, slots) && l.head in slots && l.tail in slots
    requires forall k :: 0 <= k < |l.bs| ==> l.bs[k].addr in slots
    requires forall k :: 0 <= k < |l.free| ==> l.free[k] in slots
    ensures Links(m, l.(slots := slots))
  {
    hide BlocksRep, Ring, Spaced;
  }

  /** At the end of a critical section only the headers in use remain slots. */
  lemma CloseSlots(m: Mem, h: Heap, head: int, self: int, slots: set<int>)
    requires Inv(h) && HeadApart(h, head)
    requires Links(m, Layout(h.blocks, h.free, slots, head, h.start, Tail(h), self))
    ensures Links(m, Layout(h.blocks, h.free, SlotsOf(h, head), head, h.start, Tail(h), self))
  {
    hide Inv, Links, Spaced;
    SlotsSpaced(h, head);
    FreeInSlots(h, head);
    MoreSlots(m, Layout(h.blocks, h.free, slots, head, h.start, Tail(h), self), SlotsOf(h, head));
  }

  lemma FreeInSlots(h: Heap, head: int)
    requires Inv(h)
    ensures forall k :: 0 <= k < |h.free| ==> h.free[k] in HeaderSlots(h.blocks)
    ensures forall k :: 0 <= k < |h.blocks| ==> h.blocks[k].addr in HeaderSlots(h.blocks)
  {
    hide Inv;
    forall k | 0 <= k < |h.free| ensures h.free[k] in HeaderSlots(h.blocks) {
      FreeListed(h, k);
    }
  }

  /** What the free-list links and the size of entry k read as. */
  lemma FitStep(h: Heap, sz: int, k: int)
    requires 0 <= k <= |h.free|
    ensures FirstFit(h, sz, k) == (if k == |h.free| || SizeAt(h, h.free[k]) >= sz then k else FirstFit(h, sz, k + 1))
  {
  }

  /** The entry behind the k-th place of the ring, as the links show it. */
  lemma RingAt(m: Mem, h: Heap, l: Layout, k: int)
    requires Inv(h) && Links(m, l) && l.bs == h.blocks && l.free == h.free && l.tail == Tail(h)
    requires 0 <= k <= |h.free|
    ensures var a := if k == 0 then l.head else h.free[k - 1];
            && ((Ld(m, a + NEXT_FREE) == l.head) == (k == |h.free|))
            && (k < |h.free| ==> Ld(m, a + NEXT_FREE) == h.free[k])
            && (k < |h.free| ==> Ld(m, h.free[k] + NEXT) - h.free[k] - HDR == SizeAt(h, h.free[k]))
  {
    var r := RingOf(l.head, h.free);
    assert Ld(m, r[k] + NEXT_FREE) == r[k + 1];
    if k < |h.free| {
      FreeListed(h, k);
      assert HeaderRep(m, h.blocks[IndexAt(h.blocks, h.free[k])], l.self);
    }
  }

  lemma WithinStep(m: Mem, m1: Mem, m2: Mem, s: set<int>)
    requires WithinSlots(m, m1, s) && WithinSlots(m1, m2, s)
    ensures WithinSlots(m, m2, s)
  {
    WithinTrans(m, m1, m2, s, s);
    assert s + s == s;
  }

  /** Room for a header at a: what Insert and the list operations around it need. */
  lemma Ready(m: Mem, h: Heap, l: Layout, i: int, a: int)
    requires Inv(h) && HeadApart(h, l.head)
    requires l == Layout(h.blocks, h.free, SlotsOf(h, l.head), l.head, h.start, Tail(h), l.self)
    requires Links(m, l) && 0 <= i < |h.blocks|
    requires h.blocks[i].addr + HDR <= a && a + HDR <= h.blocks[i].end
    ensures Links(m, l.(slots := Rebuilt(h, l.head, i, i + 1, a)))
    ensures a in Rebuilt(h, l.head, i, i + 1, a) && h.blocks[i].addr in Rebuilt(h, l.head, i, i + 1, a)
    ensures a != Tail(h) && a != l.head && a !in h.free && (forall k :: 0 <= k < |h.blocks| ==> h.blocks[k].addr != a)
    ensures h.blocks[i].end == After(h.blocks, i, Tail(h))
    ensures h.blocks[i].addr != l.head
  {
    hide Inv, Links, Spaced;
    Gap(h);
    NextEnd(h, i);
    NewSlot(h, l.head, i, i + 1, a);
    FreeInSlots(h, l.head);
    MoreSlots(m, l, Rebuilt(h, l.head, i, i + 1, a));
  }

  lemma NextEnd(h: Heap, i: int)
    requires Inv(h) && 0 <= i < |h.blocks|
    ensures h.blocks[i].end == After(h.blocks, i, Tail(h))
  {
  }

  lemma NotInWithout(s: seq<int>, k: int, a: int)
    requires Distinct(s) && 0 <= k < |s|
    ensures s[k] !in Without(s, k)
    ensures a !in s ==> a !in Without(s, k)
  {
    WithoutElems(s, k);
    assert forall x :: x in Without(s, k) ==> x in Elems(Without(s, k));
  }

  lemma KeptSame(m: Mem, L: set<Block>, h: Heap, head: int)
    ensures Kept(m, m, L) && Outside(m, m, h, head)
  {
  }

  /** The header of a block is a slot, and not the list header. */
  lemma InUse(m: Mem, h: Heap, l: Layout, i: int)
    requires Inv(h) && HeadApart(h, l.head) && 0 <= i < |h.blocks|
    ensures h.blocks[i].addr != l.head && h.blocks[i].addr in SlotsOf(h, l.head)
  {
    hide Inv;
    Gap(h);
    FreeInSlots(h, l.head);
  }

  /** The used bit set on the block a split or a whole take left at i. */
  lemma MarkedSplit(bs: seq<Block>, i: int, rest: int)
    requires 0 <= i < |bs|
    ensures var b := bs[i];
            var r := Splice(bs, i, i + 1, [b.(end := rest), Block(rest, b.end, false)]);
            && i < |r| && r[i] == b.(end := rest)
            && Splice(r, i, i + 1, [b.(end := rest).(used := true)])
               == Splice(bs, i, i + 1, [Block(b.addr, rest, true), Block(rest, b.end, false)])
  {
  }

  lemma TakeKept(h: Heap, head: int, m: Mem, m': Mem, i: int, slots: set<int>, a: int)
    requires Inv(h) && HeadApart(h, head) && 0 <= i < |h.blocks| && !h.blocks[i].used
    requires WithinSlots(m, m', slots)
    requires slots == SlotsOf(h, head)
             || (slots == Rebuilt(h, head, i, i + 1, a) && h.blocks[i].addr + HDR <= a && a + HDR <= h.blocks[i].end)
    ensures Kept(m, m', Live(h.blocks)) && Outside(m, m', h, head)
  {
    hide Inv, WithinSlots, Kept, Outside, SlotsOf;
    if slots == SlotsOf(h, head) {
      KeptAll(h, head, m, m');
    } else {
      KeptAround(h, head, m, m', i, i + 1, a);
      assert Live(h.blocks) - {h.blocks[i]} == Live(h.blocks);
    }
  }

  lemma WithinSelf(m: Mem, slots: set<int>)
    ensures WithinSlots(m, m, slots)
  {
  }

  lemma FreedAt(bs: seq<Block>, i: int)
    requires 0 <= i < |bs|
    ensures var r := Splice(bs, i, i + 1, [bs[i].(used := false)]);
            && |r| == |bs| && r[i] == bs[i].(used := false) && LeftEdge(r, i) == LeftEdge(bs, i)
            && r[LeftEdge(bs, i)].addr == bs[LeftEdge(bs, i)].addr
  {
  }

  /** The used bit cleared and the left merge, seen as one splice; the right neighbour is still there. */
  lemma FreedMerged(bs: seq<Block>, i: int)
    requires 0 <= i < |bs|
    ensures var lo, hi := LeftEdge(bs, i), RightEdge(bs, i);
            var r := Splice(Splice(bs, i, i + 1, [bs[i].(used := false)]), lo, i + 1,
                [Block(bs[lo].addr, bs[i].end, false)]);
            && r == Splice(bs, lo, i + 1, [Block(bs[lo].addr, bs[i].end, false)])
            && |r| > lo && r[lo] == Block(bs[lo].addr, bs[i].end, false)
            && RightEdge(r, lo) == lo + hi - i
            && (hi == i + 2 ==> r[lo + 1] == bs[i + 1])
            && Splice(r, lo, RightEdge(r, lo), [Block(bs[lo].addr, r[RightEdge(r, lo) - 1].end, false)])
               == Splice(bs, lo, hi, [Block(bs[lo].addr, bs[hi - 1].end, false)])
  {
    var lo := LeftEdge(bs, i);
    var r := Splice(Splice(bs, i, i + 1, [bs[i].(used := false)]), lo, i + 1, [Block(bs[lo].addr, bs[i].end, false)]);
    assert r == Splice(bs, lo, i + 1, [Block(bs[lo].addr, bs[i].end, false)]);
    assert r[lo] == Block(bs[lo].addr, bs[i].end, false);
    if i + 1 < |bs| {
      assert r[lo + 1] == bs[i + 1];
    }
  }

  /** What rt_memheap_free needs of the lists: the right neighbour is listed, the block itself is not. */
  lemma FreeReady(h: Heap, head: int, ptr: int)
    requires Inv(h) && HeadApart(h, head) && Held(h, ptr)
    ensures var i := IndexAt(h.blocks, ptr - HDR);
            && h.blocks[i].addr in SlotsOf(h, head) && h.blocks[i].addr != head && h.blocks[i].addr !in h.free
            && (RightEdge(h.blocks, i) == i + 2 ==>
                  h.blocks[i + 1].addr in h.free
                  && h.blocks[i + 1].addr != h.blocks[i].addr)
            && h.blocks[i].addr !in Drop(h.free, if i + 1 < |h.blocks| then h.blocks[i + 1].addr else 0)
  {
    var i := IndexAt(h.blocks, ptr - HDR);
    UsedNotListed(h, i);
    Books(h);
    FreeInSlots(h, head);
    Gap(h);
    UnlistElems(h.free, if i + 1 < |h.blocks| then h.blocks[i + 1].addr else 0);
    assert h.blocks[i].addr !in Elems(h.free);
    if RightEdge(h.blocks, i) == i + 2 {
      assert h.blocks[i + 1].addr in Elems(h.free);
    }
  }

  lemma RebuiltUnion(h: Heap, head: int, i: int, a: int)
    requires 0 <= i && i + 2 <= |h.blocks|
    ensures SlotsOf(h, head) + Rebuilt(h, head, i, i + 2, a) == SlotsOf(h, head) + {a}
  {
  }

  lemma JoinedAt(bs: seq<Block>, i: int, a: int)
    requires 0 <= i && i + 1 < |bs|
    ensures var r := Splice(bs, i, i + 2, [bs[i].(end := bs[i + 1].end)]);
            && |r| == |bs| - 1 && r[i] == bs[i].(end := bs[i + 1].end)
            && (forall k :: 0 <= k < |r| ==> r[k].addr == (if k <= i then bs[k].addr else bs[k + 1].addr))
            && Splice(r, i, i + 1, [r[i].(end := a), Block(a, r[i].end, false)])
               == Splice(bs, i, i + 2, [bs[i].(end := a), Block(a, bs[i + 1].end, false)])
  {
  }

  /** What the in-place growth needs of the lists. */
  lemma GrowReady(h: Heap, head: int, ptr: int, sz: int)
    requires Inv(h) && HeadApart(h, head) && Held(h, ptr) && sz >= MINI && PlanOf(h, ptr, sz) == GrowInPlace
    requires !Overruns(h, ptr, sz)
    ensures var i, a := IndexAt(h.blocks, ptr - HDR), ptr + sz;
            && 0 <= i && i + 1 < |h.blocks| && h.blocks[i + 1].addr in h.free && h.blocks[i].end == h.blocks[i + 1].addr
            && Cut(h, i, i + 2, sz).available == h.available - (sz - Size(h.blocks[i]))
            && Spaced(HDR, Rebuilt(h, head, i, i + 2, a)) && head in Rebuilt(h, head, i, i + 2, a)
                && Tail(h) in Rebuilt(h, head, i, i + 2, a)
            && a in Rebuilt(h, head, i, i + 2, a) && a != head && a != Tail(h)
            && (forall k ::
                  0 <= k <= i || i + 2 <= k < |h.blocks|
                  ==> h.blocks[k].addr in Rebuilt(h, head, i, i + 2, a) && h.blocks[k].addr != a)
            && (var f := Drop(h.free, h.blocks[i + 1].addr);
                forall k :: 0 <= k < |f| ==> f[k] in Rebuilt(h, head, i, i + 2, a) && f[k] != a)
  {
    var i, a := IndexAt(h.blocks, ptr - HDR), ptr + sz;
    hide Inv, SlotsOf, Splice, PlanOf, Resize, Overruns;
    GrowPlain(h, ptr, sz);
    EdgesAhead(h, i);
    NewSlot(h, head, i, i + 2, a);
    Books(h);
    FreeInSlots(h, head);
    UnlistElems(h.free, h.blocks[i + 1].addr);
    Gap(h);
    assert h.blocks[i + 1].addr in Elems(h.free);
    InRebuilt(h, head, i, a);
    NoHeaderInside(h, i + 1, a);
    var f := Drop(h.free, h.blocks[i + 1].addr);
    forall k | 0 <= k < |f| ensures f[k] in Rebuilt(h, head, i, i + 2, a) && f[k] != a {
      assert f[k] in Elems(f);
      assert f[k] in Elems(h.free) && f[k] in FreeAddrs(h.blocks);
      var j :| 0 <= j < |h.free| && h.free[j] == f[k];
    }
  }

  /** The caller's block says it ends 8 bytes before its data, and its first data words are links. */
  ghost predicate Scribbled(m: Mem, ptr: int, head: int, end: int) {
    && Ld(m, ptr - HDR + NEXT) == ptr - 8
    && Ld(m, ptr) == end && Ld(m, ptr + 4) == ptr - HDR && Ld(m, ptr + 12) == head
  }

  /** A free block's header is built 16 bytes into the header at a, and linked into both lists. */
  function OverrunMem(m: Mem, a: int, head: int, self: int): Mem {
    PushMem(InsertMem(m, a, a + 16, self), head, a + 16)
  }

  lemma OverrunInsert(m: Mem, a: int, e: int, self: int)
    requires Ld(m, a + NEXT) == e && a + 60 <= e
    ensures var r := InsertMem(m, a, a + 16, self);
            && Ld(r, a + NEXT) == a + 16 && Ld(r, a + 16 + NEXT) == e && Ld(r, a + 16 + PREV) == a
            && forall x :: !(a + 16 <= x < a + 16 + HDR) && x != e + PREV && x != a + NEXT ==> Ld(r, x) == Ld(m, x)
  {
  }

  lemma OverrunPush(m: Mem, n: int, f: int, head: int)
    requires Ld(m, head + NEXT_FREE) == f && (head + NEXT_FREE < n || n + HDR <= head + NEXT_FREE)
    ensures var r := PushMem(m, head, n);
            && (f != n && head != n ==> Ld(r, n + PREV_FREE) == head)
            && forall x :: x !in {n + NEXT_FREE, n + PREV_FREE, f + PREV_FREE, head + NEXT_FREE}
                ==> Ld(r, x) == Ld(m, x)
  {
  }

  lemma OverrunWrites(m: Mem, slots: set<int>, a: int, e: int, f: int, head: int, self: int)
    requires Spaced(HDR, slots) && a in slots && e in slots && f in slots && head in slots && a != f && a != head
             && a + 60 <= e
    requires Ld(m, a + NEXT) == e && Ld(m, head + NEXT_FREE) == f
    ensures Scribbled(OverrunMem(m, a, head, self), a + HDR, head, e)
    ensures forall x :: !(a + 16 <= x < a + 16 + HDR) && x !in {e + PREV, a + NEXT, f + PREV_FREE, head + NEXT_FREE}
                        ==> Ld(OverrunMem(m, a, head, self), x) == Ld(m, x)
  {
    hide Ld, InsertMem, PushMem;
    assert (a + HDR <= f || f + HDR <= a) && (a + HDR <= head || head + HDR <= a);
    assert e == head || e + HDR <= head || head + HDR <= e;
    OverrunInsert(m, a, e, self);
    OverrunPush(InsertMem(m, a, a + 16, self), a + 16, f, head);
  }

  lemma OverrunCells(m: Mem, l: Layout, i: int)
    requires Links(m, l) && 0 <= i < |l.bs| && l.bs[i].addr + 60 <= l.bs[i].end
    requires l.bs[i].addr !in l.free && l.bs[i].addr != l.head
    ensures var r := OverrunMem(m, l.bs[i].addr, l.head, l.self);
            && Scribbled(r, l.bs[i].addr + HDR, l.head, l.bs[i].end)
            && WithinSlots(m, r, l.slots + {l.bs[i].addr + 16})
  {
    hide BlocksRep, Spaced, Ld, OverrunMem, Scribbled;
    var a, f := l.bs[i].addr, RingOf(l.head, l.free)[1];
    NextIs(m, l, i);
    var e := l.bs[i].end;
    assert Ld(m, RingOf(l.head, l.free)[0] + NEXT_FREE) == f;
    assert e in l.slots && a in l.slots && l.head in l.slots && f in l.slots && f != a;
    OverrunWrites(m, l.slots, a, e, f, l.head, l.self);
    var r := OverrunMem(m, a, l.head, l.self);
    forall x | Clear(x, l.slots + {a + 16}) ensures Ld(r, x) == Ld(m, x) {
      assert a + 16 in l.slots + {a + 16};
    }
  }

  lemma OverrunReady(h: Heap, head: int, ptr: int)
    requires Inv(h) && HeadApart(h, head) && Held(h, ptr) && FreeBehind(h, ptr)
    ensures var bs, i := h.blocks, IndexAt(h.blocks, ptr - HDR);
            && bs[i + 1].addr in h.free && bs[i].end == bs[i + 1].addr
            && bs[i].addr + 60 <= bs[i + 1].end
            && bs[i].addr != head && bs[i].addr !in Drop(h.free, bs[i + 1].addr)
  {
    hide Inv, SlotsOf, Drop;
    FreeReady(h, head, ptr);
    EdgesAhead(h, IndexAt(h.blocks, ptr - HDR));
    Gap(h);
  }

  lemma WithinMore(m: Mem, m1: Mem, m2: Mem, slots: set<int>, a: int)
    requires WithinSlots(m, m1, slots) && WithinSlots(m1, m2, slots + {a})
    ensures WithinSlots(m, m2, slots + {a})
  {
    WithinTrans(m, m1, m2, slots, slots + {a});
    assert slots + (slots + {a}) == slots + {a};
  }

  lemma InRebuilt(h: Heap, head: int, i: int, a: int)
    requires 0 <= i && i + 2 <= |h.blocks|
    ensures forall x :: x in HeaderSlots(h.blocks) && x != h.blocks[i + 1].addr ==> x in Rebuilt(h, head, i, i + 2, a)
    ensures head != h.blocks[i + 1].addr ==> head in Rebuilt(h, head, i, i + 2, a)
    ensures Tail(h) != h.blocks[i + 1].addr ==> Tail(h) in Rebuilt(h, head, i, i + 2, a)
    ensures a in Rebuilt(h, head, i, i + 2, a)
  {
  }

  /** Block i cut at a, and what the cut looks like when a free block behind has joined it. */
  lemma CutAt(bs: seq<Block>, i: int, a: int)
    requires 0 <= i < |bs| && bs[i].used
    ensures var r, hi := Splice(bs, i, i + 1, [bs[i].(end := a), Block(a, bs[i].end, false)]), RightEdge(bs, i);
            var f := Splice(r, i + 1, hi + 1, [Block(a, bs[hi - 1].end, false)]);
            && |r| == |bs| + 1 && r[i + 1] == Block(a, bs[i].end, false) && r[hi].end == bs[hi - 1].end
            && (hi == i + 2 ==> r[i + 2] == bs[i + 1])
            && RightEdge(r, i + 1) == hi + 1
            && f == Splice(bs, i, hi, [Block(bs[i].addr, a, true), Block(a, bs[hi - 1].end, false)])
            && i + 1 < |f| && f[i + 1] == Block(a, bs[hi - 1].end, false)
  {
    var hi := RightEdge(bs, i);
    var r := Splice(bs, i, i + 1, [bs[i].(end := a), Block(a, bs[i].end, false)]);
    assert r[..i + 1] == bs[..i] + [bs[i].(end := a)];
    assert r[i + 1] == Block(a, bs[i].end, false);
    if i + 1 < |bs| {
      assert r[i + 2] == bs[i + 1];
    }
    assert r[hi + 1..] == bs[hi..];
  }

  lemma UnlistKeepsOut(h: Heap, a: int, i: int)
    requires Inv(h) && a !in h.free && 0 <= i < |h.blocks|
    ensures i + 1 < |h.blocks| ==> a !in Drop(h.free, h.blocks[i + 1].addr)
  {
  }

  /** Writes inside the data of a live block leave the lists as they are. */
  lemma DataWrite(m: Mem, m': Mem, h: Heap, l: Layout, b: Block)
    requires Inv(h) && HeadApart(h, l.head) && b in Live(h.blocks)
    requires l == Layout(h.blocks, h.free, SlotsOf(h, l.head), l.head, h.start, Tail(h), l.self) && Links(m, l)
    requires forall x :: !(b.addr + HDR <= x < b.end) ==> Ld(m', x) == Ld(m, x)
    ensures Links(m', l)
  {
    hide Inv, Ld, BlocksRep, HeadersIn, Spaced, Ring;
    forall s, x | s in l.slots && s <= x < s + HDR ensures Ld(m', x) == Ld(m, x) {
      if b.addr + HDR <= x < b.end {
        DataClear(h, l.head, b, x);
      }
    }
    assert forall a :: a in l.slots ==> SameHeader(m, m', a) && SameLinks(m, m', a);
    BlocksFrame(m, m', l.bs, l.start, l.tail, l.self, l.slots);
    RingFrame(m, m', l);
  }

  lemma KeptLess(m: Mem, m': Mem, L: set<Block>, d: set<Block>)
    requires Kept(m, m', L)
    ensures Kept(m, m', L - d)
  {
  }

  lemma CopiedSelf(m: Mem, ptr: int, n: int)
    ensures Copied(m, m, ptr, ptr, n)
  {
  }

  lemma RequestBounds(sz: int)
    requires exists size :: sz == Request(size)
    ensures MINI <= sz <= 0xFFFF_FFF8 && (sz + MINI >= WORD <==> sz == 0xFFFF_FFF8)
  {
    var size :| sz == Request(size);
    RequestPositive(size);
    assert AlignUp(size) % 8 == 0;
  }

  /** When the in-place growth is chosen. */
  lemma GrowChosen(h: Heap, ptr: int, sz: int)
    requires Inv(h) && Held(h, ptr) && exists size :: sz == Request(size)
    ensures Overruns(h, ptr, sz) ==> PlanOf(h, ptr, sz) == GrowInPlace && sz == 0xFFFF_FFF8
  {
    RequestBounds(sz);
    if Overruns(h, ptr, sz) {
      OverrunMeaning(h, ptr, sz);
    }
  }

  lemma HeldFits(h: Heap, ptr: int, sz: int)
    requires Inv(h) && Held(h, ptr) && sz <= Size(BlockOf(h, ptr))
    ensures sz + HDR + MINI < WORD && !Overruns(h, ptr, sz)
  {
    SumFits(h, IndexAt(h.blocks, ptr - HDR));
  }

  /** What the caller's block and its right neighbour read as. */
  lemma HeldNext(m: Mem, h: Heap, l: Layout, ptr: int)
    requires Inv(h) && Held(h, ptr) && Links(m, l) && l.bs == h.blocks && l.tail == Tail(h)
    ensures var bs, i := h.blocks, IndexAt(h.blocks, ptr - HDR);
            var n := Ld(m, ptr - HDR + NEXT);
            && n == bs[i].end
            && ((Ld(m, n + MAGIC) % 2 != 0) == !(i + 1 < |bs| && !bs[i + 1].used))
            && (i + 1 < |bs| ==> Ld(m, n + NEXT) - n - HDR == Size(bs[i + 1]))
  {
    hide Inv, Links;
    var i := IndexAt(h.blocks, ptr - HDR);
    NextIs(m, l, i);
    if i + 1 < |h.blocks| {
      NextIs(m, l, i + 1);
    }
  }

  lemma PlanIs(h: Heap, ptr: int, sz: int)
    requires Inv(h) && Held(h, ptr)
    ensures var bs, i := h.blocks, IndexAt(h.blocks, ptr - HDR);
            var was := Size(bs[i]);
            PlanOf(h, ptr, sz) == if sz > was then
                (if i + 1 < |bs| && !bs[i + 1].used
                    && (Size(bs[i + 1]) + was) % WORD > (sz + MINI) % WORD then GrowInPlace
                 else Move)
              else if sz + HDR + MINI >= was then Stay else Shrink
  {
  }

  lemma GrowTracks(h: Heap, ptr: int, sz: int)
    requires Inv(h) && Held(h, ptr) && PlanOf(h, ptr, sz) != Move
    ensures Resize(h, ptr, sz).0.start == h.start && Resize(h, ptr, sz).0.pool == h.pool
  {
  }

  lemma GrowKept(h: Heap, head: int, m: Mem, m': Mem, ptr: int, sz: int)
    requires Inv(h) && HeadApart(h, head) && Held(h, ptr) && PlanOf(h, ptr, sz) == GrowInPlace
    requires sz >= 0 && !Overruns(h, ptr, sz)
    requires WithinSlots(m, m', SlotsOf(h, head) + {ptr + sz})
    ensures Kept(m, m', Live(h.blocks) - {BlockOf(h, ptr)}) && Outside(m, m', h, head)
    ensures Copied(m, m', ptr, ptr, Size(BlockOf(h, ptr)))
  {
    hide Inv, WithinSlots, Kept, Outside, SlotsOf, Ld, PlanOf, Resize, Overruns;
    var i := IndexAt(h.blocks, ptr - HDR);
    GrowPlain(h, ptr, sz);
    EdgesAhead(h, i);
    Gap(h);
    KeptAround(h, head, m, m', i, i + 2, ptr + sz);
  }

  lemma OverrunKept(h: Heap, head: int, m: Mem, m': Mem, ptr: int)
    requires Inv(h) && HeadApart(h, head) && Held(h, ptr) && FreeBehind(h, ptr)
    requires WithinSlots(m, m', SlotsOf(h, head) + {ptr - 8})
    ensures Kept(m, m', Live(h.blocks) - {BlockOf(h, ptr)}) && Outside(m, m', h, head)
  {
    hide Inv, WithinSlots, Kept, Outside, SlotsOf, Ld;
    var i := IndexAt(h.blocks, ptr - HDR);
    EdgesAhead(h, i);
    Gap(h);
    KeptAround(h, head, m, m', i, i + 2, ptr - 8);
  }

  lemma ShrinkKept(h: Heap, head: int, m: Mem, m': Mem, ptr: int, sz: int)
    requires Inv(h) && HeadApart(h, head) && Held(h, ptr) && PlanOf(h, ptr, sz) == Shrink && sz >= 0
    requires WithinSlots(m, m',
             Rebuilt(h, head, IndexAt(h.blocks, ptr - HDR), IndexAt(h.blocks, ptr - HDR) + 1, ptr + sz))
    ensures Kept(m, m', Live(h.blocks) - {BlockOf(h, ptr)}) && Outside(m, m', h, head)
    ensures Copied(m, m', ptr, ptr, sz)
  {
    hide Inv, WithinSlots, Kept, Outside, SlotsOf, Ld;
    var i := IndexAt(h.blocks, ptr - HDR);
    KeptAround(h, head, m, m', i, i + 1, ptr + sz);
  }

  /** The block handed out and the block being moved do not overlap. */
  lemma GivenApart(h: Heap, ptr: int, sz: int)
    requires Inv(h) && Held(h, ptr) && MemHeapModel.Alloc(h, sz).1 != 0
    ensures var (h1, g, b) := (MemHeapModel.Alloc(h, sz).0, Given(h, sz), BlockOf(h, ptr));
            && Inv(h1) && g in Live(h1.blocks) && b in Live(h1.blocks) && g != b
            && (g.end <= b.addr || b.end <= g.addr)
            && Size(g) >= Request(sz)
  {
    hide Inv, MemHeapModel.Alloc, Live;
    AllocMeaning(h, sz);
    GivenWasFree(h, sz);
    HeldIsLive(h, ptr);
    LiveDisjoint(MemHeapModel.Alloc(h, sz).0, Given(h, sz), BlockOf(h, ptr));
  }

  /** The three steps of a move, seen together. */
  lemma MoveKept(h: Heap, head: int, m: Mem, m1: Mem, m2: Mem, m3: Mem, ptr: int, sz: int, n: int)
    requires Inv(h) && Held(h, ptr) && MemHeapModel.Alloc(h, sz).1 != 0
    requires n == Size(BlockOf(h, ptr)) && n <= Size(Given(h, sz))
    requires Kept(m, m1, Live(h.blocks)) && Outside(m, m1, h, head)
    requires Copied(m1, m2, Given(h, sz).addr + HDR, ptr, n)
    requires forall x :: !(Given(h, sz).addr + HDR <= x < Given(h, sz).addr + HDR + n) ==> Ld(m2, x) == Ld(m1, x)
    requires Kept(m2, m3, Live(MemHeapModel.Alloc(h, sz).0.blocks)) && Outside(m2, m3, h, head)
    ensures Copied(m, m3, Given(h, sz).addr + HDR, ptr, n)
    ensures Kept(m, m3, Live(h.blocks) - {BlockOf(h, ptr)}) && Outside(m, m3, h, head)
  {
    hide Inv, MemHeapModel.Alloc, Live, Given, Ld;
    var g, b := Given(h, sz), BlockOf(h, ptr);
    var h1 := MemHeapModel.Alloc(h, sz).0;
    AllocMeaning(h, sz);
    GivenWasFree(h, sz);
    GivenApart(h, ptr, sz);
    HeldIsLive(h, ptr);
    forall c, x | c in Live(h.blocks) - {b} && c.addr + HDR <= x < c.end ensures Ld(m3, x) == Ld(m, x) {
      LiveDisjoint(h1, c, g);
    }
    AllocTracks(h, sz);
    LiveDisjoint(h1, g, b);
  }
}
