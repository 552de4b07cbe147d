/** mem.c: the arena, its statics, and rt_malloc, rt_free and rt_realloc writing headers cell by cell. */
module SmallMemImpl {
  import opened Memory
  import opened Words
  import opened Blocks
  import opened SmallMemModel
  import opened SmallMemLayout

  function SlotsOf(s: Small): set<int> {
    (set i | 0 <= i < |s.blocks| :: s.blocks[i].addr) + {End(s)}
  }

  /** The data bytes of the blocks in L are as before. */
  ghost predicate Kept(m: Mem, m': Mem, base: int, L: set<Block>) {
    forall b, x :: b in L && base + b.addr + HDR <= x < base + b.end ==> Ld(m', x) == Ld(m, x)
  }

  /** Nothing outside the arena was written. */
  ghost predicate Outside(m: Mem, m': Mem, s: Small) {
    forall x :: !(s.base <= x < s.base + End(s) + HDR) ==> Ld(m', x) == Ld(m, x)
  }

  /** All four fields of a header. */
  function ItemMem(m: Mem, a: int, used: int, next: int, prev: int): (r: Mem)
    ensures Ld(r, a + MAGIC) == HEAP_MAGIC && Ld(r, a + USED) == used && Ld(r, a + NEXT) == next
            && Ld(r, a + PREV) == prev
    ensures forall x :: x < a || a + HDR <= x ==> Ld(r, x) == Ld(m, x)
  {
    m[a + MAGIC := HEAP_MAGIC][a + NEXT := next][a + PREV := prev][a + USED := used]
  }

  class SmallMem {
    var mem: Mem
    var heap_ptr: int
    var heap_end: int
    var lfree: int
    var mem_size_aligned: int
    var used_mem: int
    var max_mem: int

    ghost var blocks: seq<Block>
    ghost var slots: set<int>

    ghost function Abs(): Small
      reads this
    {
      Small(heap_ptr, mem_size_aligned, blocks, lfree - heap_ptr, used_mem, max_mem)
    }

    ghost function Links(): Chain
      reads this
    {
      Chain(blocks, slots, heap_ptr, End(Abs()))
    }

    /** The arena outside its critical sections. */
    ghost predicate Valid()
      reads this
    {
      && Inv(Abs())
      && Linked(mem, Links())
      && slots == SlotsOf(Abs())
      && heap_end == heap_ptr + End(Abs())
    }

    /** rt_system_heap_init, for a region that holds at least the minimum. */
    constructor (begin_addr: int, end_addr: int, mem: Mem)
      requires 0 < begin_addr <= 0xFFFF_FFF8 && begin_addr <= end_addr < WORD
      requires AlignUp(begin_addr) + 2 * HDR + MIN_ALIGNED <= end_addr / 8 * 8
      ensures Valid()
      ensures Abs() == Init(AlignUp(begin_addr), end_addr / 8 * 8 - AlignUp(begin_addr) - 2 * HDR)
      ensures Outside(mem, this.mem, Abs())
    {
      hide ItemMem, SmallMemLayout.Linked, AlignUp;
      BeginPositive(begin_addr);
      var begin_align, end_align := AlignUp(begin_addr), end_addr / 8 * 8;
      var total := end_align - begin_align - 2 * HDR;
      mem_size_aligned := total;
      heap_ptr := begin_align;
      var m := ItemMem(mem, begin_align, 0, total + HDR, 0);
      m := ItemMem(m, begin_align + (total + HDR), 1, total + HDR, total + HDR);
      this.mem := m;
      heap_end := begin_align + (total + HDR);
      lfree := begin_align;
      used_mem, max_mem := 0, 0;
      blocks := [Block(0, total + HDR, false)];
      slots := {0, total + HDR};
      new;
      InitInv(heap_ptr, mem_size_aligned);
      FreshChain(this.mem, Links());
      assert SlotsOf(Abs()) == {0, total + HDR} by {
        assert blocks[0].addr == 0;
      }
    }

    /** Writes a free header at offset ptr2 behind block i and links it in. */
    method Insert(ptr: int, ptr2: int, ghost i: int)
      requires Linked(mem, Links()) && 0 <= i < |blocks| && blocks[i].addr == ptr
      requires ptr2 in slots && ptr2 != End(Abs()) && (forall k :: 0 <= k < |blocks| ==> blocks[k].addr != ptr2)
      modifies this`mem, this`blocks
      ensures Linked(mem, Links())
      ensures blocks
              == Splice(old(blocks), i, i + 1, [old(blocks)[i].(end := ptr2), Block(ptr2, old(blocks)[i].end, false)])
      ensures WithinSlots(old(mem), mem, heap_ptr, slots)
    {
      hide Linked, WithinSlots, Only;
      InsertLinked(mem, Links(), i, ptr2);
      Reads(mem, Links(), i);
      var next := Ld(mem, heap_ptr + ptr + NEXT);
      mem := mem[heap_ptr + ptr2 + MAGIC := HEAP_MAGIC];
      mem := mem[heap_ptr + ptr2 + USED := 0];
      mem := mem[heap_ptr + ptr2 + NEXT := next];
      mem := mem[heap_ptr + ptr2 + PREV := ptr];
      mem := mem[heap_ptr + ptr + NEXT := ptr2];
      if next != mem_size_aligned + HDR {
        mem := mem[heap_ptr + next + PREV := ptr2];
      }
      assert mem == InsertMem(old(mem), heap_ptr, ptr, ptr2, End(Abs()));
      CellsWithin(old(mem), mem, heap_ptr, slots, ptr2, ptr, After(blocks, i, End(Abs())));
      blocks := Splice(blocks, i, i + 1, [blocks[i].(end := ptr2), Block(ptr2, blocks[i].end, false)]);
    }

    /** Block i swallows block i+1. */
    method Join(ptr: int, ptr2: int, ghost i: int)
      requires Linked(mem, Links()) && 0 <= i < |blocks| - 1 && blocks[i].addr == ptr && blocks[i + 1].addr == ptr2
      modifies this`mem, this`blocks
      ensures Linked(mem, Links())
      ensures blocks == Splice(old(blocks), i, i + 2, [old(blocks)[i].(end := old(blocks)[i + 1].end)])
      ensures WithinSlots(old(mem), mem, heap_ptr, slots)
    {
      hide Linked, WithinSlots, Only;
      JoinLinked(mem, Links(), i);
      Reads(mem, Links(), i);
      Reads(mem, Links(), i + 1);
      var next := Ld(mem, heap_ptr + ptr2 + NEXT);
      mem := mem[heap_ptr + ptr + NEXT := next];
      mem := mem[heap_ptr + next + PREV := ptr];
      assert mem == JoinMem(old(mem), heap_ptr, ptr, ptr2);
      SmallMemLayout.JoinWithin(old(mem), mem, heap_ptr, slots, ptr, After(blocks, i + 1, End(Abs())));
      blocks := Splice(blocks, i, i + 2, [blocks[i].(end := blocks[i + 1].end)]);
    }

    /** `mem->used = used; mem->magic = HEAP_MAGIC`. */
    method Mark(ptr: int, used: bool, ghost i: int)
      requires Linked(mem, Links()) && 0 <= i < |blocks| && blocks[i].addr == ptr
      modifies this`mem, this`blocks
      ensures Linked(mem, Links())
      ensures blocks == Splice(old(blocks), i, i + 1, [old(blocks)[i].(used := used)])
      ensures WithinSlots(old(mem), mem, heap_ptr, slots)
    {
      hide Linked, WithinSlots, Only;
      MarkLinked(mem, Links(), i, used);
      Reads(mem, Links(), i);
      mem := mem[heap_ptr + ptr + USED := if used then 1 else 0];
      mem := mem[heap_ptr + ptr + MAGIC := HEAP_MAGIC];
      assert mem == MarkMem(old(mem), heap_ptr, ptr, used);
      SmallMemLayout.MarkWithin(old(mem), mem, heap_ptr, slots, ptr);
      blocks := Splice(blocks, i, i + 1, [blocks[i].(used := used)]);
    }

    /** The search loop of rt_malloc. */
    method Search(size: int) returns (ptr: int, found: bool, ghost i: int)
      requires Valid() && MIN_ALIGNED <= size <= mem_size_aligned
      ensures i == Scan(Abs(), size, IndexAt(blocks, lfree - heap_ptr))
      ensures var j := Scan(Abs(), size, IndexAt(blocks, lfree - heap_ptr));
              found == (j < |blocks|) && (found ==> ptr == blocks[j].addr)
    {
      hide Inv, Linked, Ld, SlotsOf, Scan, Fits, IndexAt;
      HintStart(Abs());
      i := IndexAt(blocks, lfree - heap_ptr);
      ptr := lfree - heap_ptr;
      found := false;
      while ptr < mem_size_aligned - size
        invariant 0 <= i <= |blocks| && ptr == (if i < |blocks| then blocks[i].addr else End(Abs()))
        invariant Scan(Abs(), size, i) == Scan(Abs(), size, IndexAt(blocks, lfree - heap_ptr))
        decreases |blocks| - i
      {
        ScanStep(Abs(), size, i);
        Reads(mem, Links(), i);
        if Ld(mem, heap_ptr + ptr + USED) == 0 && Ld(mem, heap_ptr + ptr + NEXT) - (ptr + HDR) >= size {
          found := true;
          return;
        }
        ptr := Ld(mem, heap_ptr + ptr + NEXT);
        i := i + 1;
      }
      ScanStep(Abs(), size, i);
      i := |blocks|;
    }

    /** `if (max_mem < used_mem) max_mem = used_mem`. */
    method RaiseMax()
      modifies this`max_mem
      ensures Abs() == Raise(old(Abs()))
    {
      if max_mem < used_mem {
        max_mem := used_mem;
      }
    }

    /** Moves lfree on from a block that was just taken. */
    method AdvanceHint(ghost i: int)
      requires Linked(mem, Links()) && 0 <= i < |blocks| && lfree == heap_ptr + blocks[i].addr
      requires heap_end == heap_ptr + End(Abs())
      modifies this`lfree
      ensures lfree == heap_ptr + NextFree(blocks, i, End(Abs()))
    {
      hide Linked, Ld, NextFree;
      ghost var k := i;
      while Ld(mem, lfree + USED) != 0 && lfree != heap_end
        invariant i <= k <= |blocks| && lfree == heap_ptr + (if k < |blocks| then blocks[k].addr else End(Abs()))
        invariant NextFree(blocks, k, End(Abs())) == NextFree(blocks, i, End(Abs()))
        decreases |blocks| - k
      {
        HintStep(mem, Links(), k);
        lfree := heap_ptr + Ld(mem, lfree + NEXT);
        k := k + 1;
      }
      HintStep(mem, Links(), k);
    }

    /** The block is split if the rest can hold a header and the minimum, and marked used. */
    method Carve(ptr: int, size: int, ghost i: int)
      requires Valid() && 0 <= i < |blocks| && blocks[i].addr == ptr && !blocks[i].used
      requires MIN_ALIGNED <= size <= Size(blocks[i])
      modifies this`mem, this`blocks, this`slots, this`used_mem
      ensures Linked(mem, Links()) && WithinSlots(old(mem), mem, heap_ptr, slots)
      ensures blocks == SmallMemModel.Take(old(Abs()), i, size).blocks && i < |blocks| && blocks[i].addr == ptr
      ensures used_mem == SmallMemModel.Take(old(Abs()), i, size).used
      ensures if Size(old(blocks)[i]) >= size + HDR + MIN_ALIGNED then slots == old(slots) + {ptr + HDR + size}
              else slots == old(slots)
    {
      hide Inv, Linked, Ld, SlotsOf, WithinSlots, NextFree, Spaced, Splice;
      ghost var s := Abs();
      Reads(mem, Links(), i);
      var next := Ld(mem, heap_ptr + ptr + NEXT);
      TakeShapes(blocks, i, ptr + HDR + size);
      if next - (ptr + HDR) >= size + HDR + MIN_ALIGNED {
        var ptr2 := ptr + HDR + size;
        Ready(mem, s, Links(), i, ptr2);
        slots := slots + {ptr2};
        Insert(ptr, ptr2, i);
        ghost var m1 := mem;
        Mark(ptr, true, i);
        WithinStep(old(mem), m1, mem, heap_ptr, slots);
        used_mem := used_mem + (size + HDR);
      } else {
        Mark(ptr, true, i);
        used_mem := used_mem + (next - ptr);
      }
    }

    /** The part of rt_malloc after a block was found. */
    method Take(ptr: int, size: int, ghost i: int)
      requires Valid() && 0 <= i < |blocks| && blocks[i].addr == ptr && !blocks[i].used
      requires MIN_ALIGNED <= size <= Size(blocks[i])
      modifies this
      ensures Valid() && Abs() == SmallMemModel.Take(old(Abs()), i, size)
      ensures Kept(old(mem), mem, heap_ptr, Live(old(blocks))) && Outside(old(mem), mem, old(Abs()))
    {
      hide Inv, Linked, Ld, SlotsOf, WithinSlots, Kept, Outside, Live, NextFree, Spaced, Splice;
      ghost var s := Abs();
      Carve(ptr, size, i);
      RaiseMax();
      if heap_ptr + ptr == lfree {
        AdvanceHint(i);
      }
      assert Abs() == SmallMemModel.Take(s, i, size);
      TakeMeaning(s, i, size);
      CloseSlots(mem, Abs(), slots);
      TakeKept(s, old(mem), mem, i, slots, ptr + HDR + size);
      slots := SlotsOf(Abs());
    }

    /** rt_malloc. */
    method Malloc(size: int) returns (p: int)
      requires Valid() && 0 <= size < WORD
      modifies this
      ensures Valid() && heap_ptr == old(heap_ptr)
      ensures Abs() == SmallMemModel.Malloc(old(Abs()), size).0 && p == SmallMemModel.Malloc(old(Abs()), size).1
      ensures Kept(old(mem), mem, heap_ptr, Live(old(blocks))) && Outside(old(mem), mem, old(Abs()))
    {
      hide Inv, Linked, Live, Kept, Outside, SlotsOf, SmallMemModel.Take, Scan, IndexAt;
      KeptSame(mem, Abs(), Live(blocks));
      p := 0;
      if size == 0 {
        return;
      }
      var sz := AlignUp(size);
      if sz > mem_size_aligned {
        return;
      }
      if sz < MIN_ALIGNED {
        sz := MIN_ALIGNED;
      }
      assert mem_size_aligned >= MIN_ALIGNED by {
        Gap(Abs());
      }
      var ptr, found;
      ghost var i;
      ptr, found, i := Search(sz);
      if found {
        ScanHit(Abs(), sz, IndexAt(blocks, lfree - heap_ptr));
        TakeFixed(Abs(), i, sz);
        Take(ptr, sz, i);
        p := heap_ptr + ptr + HDR;
      }
    }

    /** The forward half of plug_holes: the free block behind joins, and lfree follows. */
    method PlugForward(ptr: int, ghost i: int)
      requires Linked(mem, Links()) && heap_end == heap_ptr + End(Abs())
      requires 0 <= i < |blocks| && blocks[i] == Block(ptr, blocks[i].end, false)
      modifies this`mem, this`blocks, this`lfree
      ensures Linked(mem, Links()) && WithinSlots(old(mem), mem, heap_ptr, slots)
      ensures var bs, hi := old(blocks), RightEdge(old(blocks), i);
              && blocks == Splice(bs, i, hi, [Block(ptr, bs[hi - 1].end, false)])
              && lfree == (if hi == i + 2 && old(lfree) == heap_ptr + bs[i + 1].addr then heap_ptr + ptr
                  else old(lfree))
    {
      hide Linked, WithinSlots, Ld;
      Reads(mem, Links(), i);
      var nmem := Ld(mem, heap_ptr + ptr + NEXT);
      if i + 1 < |blocks| {
        Reads(mem, Links(), i + 1);
      }
      SpliceSelf(blocks, i);
      WithinSelf(mem, heap_ptr, slots);
      if ptr != nmem && Ld(mem, heap_ptr + nmem + USED) == 0 && heap_ptr + nmem != heap_end {
        if lfree == heap_ptr + nmem {
          lfree := heap_ptr + ptr;
        }
        Join(ptr, nmem, i);
      }
    }

    /** The backward half: the free block before swallows it. */
    method PlugBackward(ptr: int, ghost i: int)
      requires Linked(mem, Links()) && 0 <= i < |blocks| && blocks[i] == Block(ptr, blocks[i].end, false)
      modifies this`mem, this`blocks, this`lfree
      ensures Linked(mem, Links()) && WithinSlots(old(mem), mem, heap_ptr, slots)
      ensures var bs, lo := old(blocks), LeftEdge(old(blocks), i);
              && blocks == Splice(bs, lo, i + 1, [Block(bs[lo].addr, bs[i].end, false)])
              && lfree == (if lo < i && old(lfree) == heap_ptr + ptr then heap_ptr + bs[lo].addr else old(lfree))
    {
      hide Linked, WithinSlots, Ld;
      Reads(mem, Links(), i);
      var pmem := Ld(mem, heap_ptr + ptr + PREV);
      if i > 0 {
        Reads(mem, Links(), i - 1);
      }
      SpliceSelf(blocks, i);
      WithinSelf(mem, heap_ptr, slots);
      if pmem != ptr && Ld(mem, heap_ptr + pmem + USED) == 0 {
        if lfree == heap_ptr + ptr {
          lfree := heap_ptr + pmem;
        }
        JoinedLeft(blocks, i);
        Join(pmem, ptr, i - 1);
      }
    }

    /** plug_holes on the free block at offset ptr. */
    method PlugHoles(ptr: int, ghost i: int)
      requires Linked(mem, Links()) && heap_end == heap_ptr + End(Abs())
      requires 0 <= i < |blocks| && blocks[i] == Block(ptr, blocks[i].end, false)
      modifies this`mem, this`blocks, this`lfree
      ensures Linked(mem, Links()) && WithinSlots(old(mem), mem, heap_ptr, slots)
      ensures Abs() == Plug(old(Abs()), i)
    {
      hide Linked, WithinSlots;
      ghost var s := Abs();
      PluggedAhead(blocks, i);
      PlugForward(ptr, i);
      ghost var m1 := mem;
      PlugBackward(ptr, i);
      WithinStep(old(mem), m1, mem, heap_ptr, slots);
    }

    /** The critical section of rt_free. */
    method Release(rmem: int)
      requires Valid() && Held(Abs(), rmem)
      modifies this
      ensures Linked(mem, Links()) && slots == old(slots) && heap_end == old(heap_end) && heap_ptr == old(heap_ptr)
      ensures WithinSlots(old(mem), mem, heap_ptr, slots)
      ensures Abs() == SmallMemModel.Free(old(Abs()), rmem)
    {
      hide Inv, Linked, WithinSlots, SlotsOf, Ld, Plug;
      ghost var s := Abs();
      var ptr := rmem - HDR - heap_ptr;
      ghost var i := IndexOf(s, rmem);
      Reads(mem, Links(), i);
      Mark(ptr, false, i);
      ghost var m1 := mem;
      FreedAt(s.blocks, i);
      Reads(mem, Links(), i);
      if heap_ptr + ptr < lfree {
        lfree := heap_ptr + ptr;
      }
      used_mem := used_mem - (Ld(mem, heap_ptr + ptr + NEXT) - ptr);
      PlugHoles(ptr, i);
      WithinStep(old(mem), m1, mem, heap_ptr, slots);
    }

    /** rt_free. */
    method Free(rmem: int)
      requires Valid() && (rmem == 0 || Held(Abs(), rmem) || Illegal(Abs(), rmem))
      modifies this
      ensures Valid() && heap_ptr == old(heap_ptr)
      ensures Abs() == if rmem == 0 || Illegal(old(Abs()), rmem) then old(Abs())
              else SmallMemModel.Free(old(Abs()), rmem)
      ensures Kept(old(mem), mem, heap_ptr, Live(old(blocks))) && Outside(old(mem), mem, old(Abs()))
    {
      hide Inv, Linked, Live, WithinSlots, Kept, Outside, SlotsOf, Ld, Held, Illegal, SmallMemModel.Free;
      ghost var s := Abs();
      KeptSame(mem, s, Live(blocks));
      if rmem == 0 {
        return;
      }
      IllegalIs(s, rmem);
      if rmem < heap_ptr || rmem >= heap_end {
        return;
      }
      Release(rmem);
      FreeMeaning(s, rmem);
      FreeFixed(s, rmem);
      CloseSlots(mem, Abs(), slots);
      KeptAll(s, old(mem), mem);
      slots := SlotsOf(Abs());
    }

    /** The in-place shrink of rt_realloc. */
    method Shrink(ptr: int, newsize: int, size: int, ghost i: int)
      requires Valid() && 0 <= i < |blocks| && blocks[i].used && blocks[i].addr == ptr && size == Size(blocks[i])
      requires 0 <= newsize && newsize + HDR + MIN_SIZE < size
      modifies this
      ensures Linked(mem, Links()) && slots == SlotsOf(old(Abs())) + {ptr + HDR + newsize} && heap_end == old(heap_end)
      ensures WithinSlots(old(mem), mem, heap_ptr, slots)
      ensures Abs() == Cut(old(Abs()), i, newsize)
    {
      hide Inv, Linked, WithinSlots, SlotsOf, Ld, Spaced, Plug;
      ghost var s := Abs();
      used_mem := used_mem - (size - newsize);
      var ptr2 := ptr + HDR + newsize;
      Ready(mem, s, Links(), i, ptr2);
      slots := slots + {ptr2};
      Insert(ptr, ptr2, i);
      ghost var m1 := mem;
      CutAt(s.blocks, i, ptr2);
      PlugHoles(ptr2, i + 1);
      WithinStep(old(mem), m1, mem, heap_ptr, slots);
    }

    /** rt_memcpy between two live blocks. */
    method CopyData(dst: int, src: int, n: int)
      requires Valid() && n >= 0 && (dst + n <= src || src + n <= dst)
      requires exists b :: b in Live(blocks) && Data(Abs(), b) == dst && n <= Size(b)
      modifies this`mem
      ensures Valid()
      ensures Copied(old(mem), mem, dst, src, n)
      ensures forall x :: !(dst <= x < dst + n) ==> Ld(mem, x) == Ld(old(mem), x)
    {
      hide Inv, Linked, SlotsOf;
      ghost var b :| b in Live(blocks) && Data(Abs(), b) == dst && n <= Size(b);
      var len := 0;
      while len < n
        invariant 0 <= len <= n
        invariant Copied(old(mem), mem, dst, src, len)
        invariant forall x :: !(dst <= x < dst + len) ==> Ld(mem, x) == Ld(old(mem), x)
      {
        ghost var m := mem;
        assert Ld(mem, src + len) == Ld(old(mem), src + len);
        mem := mem[dst + len := Ld(mem, src + len)];
        assert forall x :: Ld(mem, x) == if x == dst + len then Ld(old(mem), src + len) else Ld(m, x);
        len := len + 1;
      }
      DataWrite(old(mem), mem, Abs(), Links(), b);
    }

    /** The copying path: allocate, copy, free, each under the semaphore on its own. */
    method MoveTo(rmem: int, newsize: int, size: int) returns (p: int)
      requires Valid() && rmem != 0 && Held(Abs(), rmem) && size == Size(BlockOf(Abs(), rmem))
      requires 8 <= newsize <= WORD - 8 && PlanOf(Abs(), rmem, newsize) == Plan.Move
      modifies this
      ensures Valid() && heap_ptr == old(heap_ptr)
      ensures Abs() == Resize(old(Abs()), rmem, newsize).0 && p == Resize(old(Abs()), rmem, newsize).1
      ensures p != 0 ==> Copied(old(mem), mem, p, rmem, Min(size, newsize))
      ensures Kept(old(mem), mem, heap_ptr, Live(old(blocks)) - (if p == 0 then {} else {BlockOf(old(Abs()), rmem)}))
      ensures Outside(old(mem), mem, old(Abs()))
    {
      hide Inv, Linked, SlotsOf, Live, Ld, SmallMemModel.Malloc, SmallMemModel.Free, PlanOf;
      ghost var s := Abs();
      MoveMeaning(s, rmem, newsize);
      MallocMeaning(s, newsize);
      p := Malloc(newsize);
      ghost var m1 := mem;
      if p != 0 {
        ghost var g := Given(s, newsize);
        assert Abs() == SmallMemModel.Malloc(s, newsize).0;
        GivenApart(s, rmem, newsize);
        assert g in Live(blocks) && Data(Abs(), g) == p;
        IllegalIs(Abs(), rmem);
        Apart(s, rmem, g, if size < newsize then size else newsize);
        CopyData(p, rmem, if size < newsize then size else newsize);
        ghost var m2 := mem;
        Free(rmem);
        MoveKept(s, old(mem), m1, m2, mem, rmem, newsize, if size < newsize then size else newsize);
      }
    }

    /** rt_realloc. */
    method Realloc(rmem: int, size: int) returns (p: int)
      requires Valid() && 0 <= size < WORD
      requires rmem == 0 || Held(Abs(), rmem) || Illegal(Abs(), rmem)
      modifies this
      ensures Valid() && heap_ptr == old(heap_ptr)
      ensures Abs() == SmallMemModel.Realloc(old(Abs()), rmem, size).0
              && p == SmallMemModel.Realloc(old(Abs()), rmem, size).1
      ensures p != 0 && rmem != 0 && Held(old(Abs()), rmem) ==>
                Copied(old(mem), mem, p, rmem, Min(Size(BlockOf(old(Abs()), rmem)), AlignUp(size)))
      ensures Kept(old(mem), mem, heap_ptr,
              Live(old(blocks)) - (if rmem == 0 || !Held(old(Abs()), rmem) || p == 0 then {}
                  else {BlockOf(old(Abs()), rmem)}))
      ensures Outside(old(mem), mem, old(Abs()))
    {
      hide Inv, Linked, SlotsOf, Live, Ld, SmallMemModel.Malloc, SmallMemModel.Free, PlanOf, Kept, Outside,
          WithinSlots, Splice, Illegal, Held;
      ghost var s := Abs();
      KeptSame(mem, s, Live(blocks));
      KeptLess(mem, mem, s, {});
      Gap(s);
      var newsize := AlignUp(size);
      AlignedSize(size);
      if newsize > mem_size_aligned {
        return 0;
      } else if newsize == 0 {
        Free(rmem);
        KeptLess(old(mem), mem, s, {});
        return 0;
      }
      if rmem == 0 {
        p := Malloc(newsize);
        KeptLess(old(mem), mem, s, {});
        return;
      }
      IllegalIs(s, rmem);
      if rmem < heap_ptr || rmem >= heap_end {
        return rmem;
      }
      KeptLess(mem, mem, s, {BlockOf(s, rmem)});
      HeldReads(mem, s, Links(), rmem);
      var ptr := rmem - HDR - heap_ptr;
      var was := Ld(mem, heap_ptr + ptr + NEXT) - ptr - HDR;
      ghost var i := IndexOf(s, rmem);
      PlanIs(s, rmem, newsize);
      if was == newsize {
        CopiedSelf(mem, rmem, newsize);
        return rmem;
      }
      if newsize + HDR + MIN_SIZE < was {
        Shrink(ptr, newsize, was, i);
        CutMeaning(s, i, newsize);
        CloseSlots(mem, Abs(), slots);
        ShrinkKept(s, old(mem), mem, rmem, newsize);
        slots := SlotsOf(Abs());
        return rmem;
      }
      p := MoveTo(rmem, newsize, was);
    }
  }

  lemma BeginPositive(a: int)
    requires 0 < a <= 0xFFFF_FFF8
    ensures AlignUp(a) > 0
  {
    AlignUpCovers(a);
  }

  /** Where the search starts. */
  lemma HintStart(s: Small)
    requires Inv(s)
    ensures var k := IndexAt(s.blocks, s.lfree);
            0 <= k <= |s.blocks| && s.lfree == (if k < |s.blocks| then s.blocks[k].addr else End(s))
  {
    Gap(s);
    if s.lfree != End(s) {
      var j :| 0 <= j < |s.blocks| && !s.blocks[j].used && s.blocks[j].addr == s.lfree;
    }
  }

  lemma ScanStep(s: Small, sz: int, i: int)
    requires 0 <= i <= |s.blocks|
    ensures Scan(s, sz, i) ==
            if i == |s.blocks| || s.blocks[i].addr >= s.total - sz then |s.blocks|
            else if !s.blocks[i].used && Size(s.blocks[i]) >= sz then i
            else Scan(s, sz, i + 1)
  {
  }

  /** The two headers of a fresh arena. */
  lemma FreshChain(m: Mem, c: Chain)
    requires c.bs == [Block(0, c.end, false)] && c.slots == {0, c.end} && c.end >= GAP
    requires HeadRep(m, c.base, c.bs[0]) && Ld(m, c.base + 0 + PREV) == 0
             && HeadRep(m, c.base, Block(c.end, c.end, true))
    ensures Linked(m, c)
  {
    hide Ld;
  }

  lemma KeptSame(m: Mem, s: Small, L: set<Block>)
    ensures Kept(m, m, s.base, L) && Outside(m, m, s)
  {
  }

  lemma ScanHit(s: Small, sz: int, k: int)
    requires 0 <= k <= |s.blocks| && Scan(s, sz, k) < |s.blocks|
    ensures !s.blocks[Scan(s, sz, k)].used && Size(s.blocks[Scan(s, sz, k)]) >= sz
  {
  }

  /** What the loop that moves lfree reads at block k, or at the end sentinel. */
  lemma HintStep(m: Mem, c: Chain, k: int)
    requires Linked(m, c) && 0 <= k <= |c.bs|
    ensures NextFree(c.bs, k, c.end)
            == if k == |c.bs| then c.end else if !c.bs[k].used then c.bs[k].addr else NextFree(c.bs, k + 1, c.end)
    ensures k < |c.bs| ==>
              && (Ld(m, c.base + c.bs[k].addr + USED) != 0) == c.bs[k].used
              && Ld(m, c.base + c.bs[k].addr + NEXT) == (if k + 1 < |c.bs| then c.bs[k + 1].addr else c.end)
              && c.bs[k].addr != c.end
  {
    if k < |c.bs| {
      Reads(m, c, k);
      LinkedParts(m, c);
    }
  }

  /** Block i split and marked used, or only marked. */
  lemma TakeShapes(bs: seq<Block>, i: int, rest: int)
    requires 0 <= i < |bs|
    ensures var b := bs[i];
            var r := Splice(bs, i, i + 1, [b.(end := rest), Block(rest, b.end, false)]);
            && i < |r| && r[i] == b.(end := rest)
            && Splice(r, i, i + 1, [b.(end := rest).(used := true)])
               == Splice(bs, i, i + 1, [Block(b.addr, rest, true), Block(rest, b.end, false)])
            && b.(used := true) == Block(b.addr, b.end, true)
            && i < |Splice(bs, i, i + 1, [Block(b.addr, rest, true), Block(rest, b.end, false)])|
            && Splice(bs, i, i + 1, [Block(b.addr, rest, true), Block(rest, b.end, false)])[i].addr == b.addr
            && i < |Splice(bs, i, i + 1, [Block(b.addr, b.end, true)])|
            && Splice(bs, i, i + 1, [Block(b.addr, b.end, true)])[i].addr == b.addr
  {
  }

  lemma SlotsSpaced(s: Small)
    requires Inv(s)
    ensures Spaced(HDR, SlotsOf(s))
  {
    hide Inv;
    Gap(s);
    forall x, y | x in SlotsOf(s) && y in SlotsOf(s) && x != y ensures x + HDR <= y || y + HDR <= x {
    }
  }

  /** A header fits strictly inside a block. */
  lemma NewSlot(s: Small, i: int, a: int)
    requires Inv(s) && 0 <= i < |s.blocks|
    requires s.blocks[i].addr + HDR <= a && a + HDR <= s.blocks[i].end
    ensures Spaced(HDR, SlotsOf(s) + {a}) && a != End(s)
    ensures forall k :: 0 <= k < |s.blocks| ==> s.blocks[k].addr != a
  {
    hide Inv;
    Gap(s);
    SlotsSpaced(s);
    forall k | 0 <= k < |s.blocks| ensures s.blocks[k].addr + HDR <= a || a + HDR <= s.blocks[k].addr {
    }
  }

  lemma MoreSlots(m: Mem, c: Chain, slots: set<int>)
    requires Linked(m, c) && Spaced(HDR, slots) && c.end in slots
    requires forall k :: 0 <= k < |c.bs| ==> c.bs[k].addr in slots
    ensures Linked(m, c.(slots := slots))
  {
    hide ChainRep, Spaced;
  }

  lemma Ready(m: Mem, s: Small, c: Chain, i: int, a: int)
    requires Inv(s) && 0 <= i < |s.blocks| && c == Chain(s.blocks, SlotsOf(s), s.base, End(s)) && Linked(m, c)
    requires s.blocks[i].addr + HDR <= a && a + HDR <= s.blocks[i].end
    ensures Linked(m, c.(slots := SlotsOf(s) + {a})) && a in SlotsOf(s) + {a} && a != End(s)
    ensures forall k :: 0 <= k < |s.blocks| ==> s.blocks[k].addr != a
  {
    hide Inv, Linked, Spaced;
    NewSlot(s, i, a);
    MoreSlots(m, c, SlotsOf(s) + {a});
  }

  /** At the end of a critical section only the headers in use remain slots. */
  lemma CloseSlots(m: Mem, s: Small, slots: set<int>)
    requires Inv(s) && Linked(m, Chain(s.blocks, slots, s.base, End(s)))
    ensures Linked(m, Chain(s.blocks, SlotsOf(s), s.base, End(s)))
  {
    hide Inv, Linked, Spaced;
    SlotsSpaced(s);
    MoreSlots(m, Chain(s.blocks, slots, s.base, End(s)), SlotsOf(s));
  }

  /** Data of live blocks lies in no header. */
  lemma DataClear(s: Small, b: Block, x: int)
    requires Inv(s) && b in Live(s.blocks) && s.base + b.addr + HDR <= x < s.base + b.end
    ensures Clear(x, s.base, SlotsOf(s))
  {
    hide Inv;
    Gap(s);
    var j :| 0 <= j < |s.blocks| && s.blocks[j] == b;
    forall i | 0 <= i < |s.blocks| ensures x < s.base + s.blocks[i].addr || s.base + s.blocks[i].addr + HDR <= x {
    }
  }

  lemma OutsideClear(s: Small, x: int)
    requires Inv(s) && !(s.base <= x < s.base + End(s) + HDR)
    ensures Clear(x, s.base, SlotsOf(s))
  {
    hide Inv;
    Gap(s);
  }

  /** What an operation that writes a header at a inside block i leaves alone. */
  lemma KeptAround(s: Small, m: Mem, m': Mem, i: int, a: int)
    requires Inv(s) && 0 <= i < |s.blocks|
    requires s.blocks[i].addr + HDR <= a && a + HDR <= s.blocks[i].end
    requires WithinSlots(m, m', s.base, SlotsOf(s) + {a})
    ensures Kept(m, m', s.base, Live(s.blocks) - {s.blocks[i]}) && Outside(m, m', s)
    ensures forall x :: s.base + s.blocks[i].addr + HDR <= x < s.base + a && s.blocks[i].used ==> Ld(m', x) == Ld(m, x)
  {
    hide Inv, Ld, SlotsOf;
    Gap(s);
    forall b, x | b in Live(s.blocks) - {s.blocks[i]} && s.base + b.addr + HDR <= x < s.base + b.end ensures Ld(m', x)
        == Ld(m, x) {
      DataClear(s, b, x);
      var j :| 0 <= j < |s.blocks| && s.blocks[j] == b;
      assert Clear(x, s.base, SlotsOf(s) + {a});
    }
    forall x | !(s.base <= x < s.base + End(s) + HDR) ensures Ld(m', x) == Ld(m, x) {
      OutsideClear(s, x);
      assert Clear(x, s.base, SlotsOf(s) + {a});
    }
    forall x | s.base + s.blocks[i].addr + HDR <= x < s.base + a && s.blocks[i].used ensures Ld(m', x) == Ld(m, x) {
      DataClear(s, s.blocks[i], x);
      assert Clear(x, s.base, SlotsOf(s) + {a});
    }
  }

  lemma KeptAll(s: Small, m: Mem, m': Mem)
    requires Inv(s) && WithinSlots(m, m', s.base, SlotsOf(s))
    ensures Kept(m, m', s.base, Live(s.blocks)) && Outside(m, m', s)
  {
    hide Inv, Ld, SlotsOf;
    forall b, x | b in Live(s.blocks) && s.base + b.addr + HDR <= x < s.base + b.end ensures Ld(m', x) == Ld(m, x) {
      DataClear(s, b, x);
    }
    forall x | !(s.base <= x < s.base + End(s) + HDR) ensures Ld(m', x) == Ld(m, x) {
      OutsideClear(s, x);
    }
  }

  lemma TakeKept(s: Small, m: Mem, m': Mem, i: int, slots: set<int>, a: int)
    requires Inv(s) && 0 <= i < |s.blocks| && !s.blocks[i].used
    requires WithinSlots(m, m', s.base, slots)
    requires slots == SlotsOf(s)
             || (slots == SlotsOf(s) + {a} && s.blocks[i].addr + HDR <= a && a + HDR <= s.blocks[i].end)
    ensures Kept(m, m', s.base, Live(s.blocks)) && Outside(m, m', s)
  {
    hide Inv, WithinSlots, Kept, Outside, SlotsOf;
    if slots == SlotsOf(s) {
      KeptAll(s, m, m');
    } else {
      KeptAround(s, m, m', i, a);
      assert Live(s.blocks) - {s.blocks[i]} == Live(s.blocks);
    }
  }

  lemma WithinSelf(m: Mem, base: int, slots: set<int>)
    ensures WithinSlots(m, m, base, slots)
  {
  }

  /** The two halves of plug_holes seen as one splice. */
  lemma PluggedAhead(bs: seq<Block>, i: int)
    requires 0 <= i < |bs|
    ensures var lo, hi := LeftEdge(bs, i), RightEdge(bs, i);
            var r := Splice(bs, i, hi, [Block(bs[i].addr, bs[hi - 1].end, false)]);
            && i < |r| && r[i] == Block(bs[i].addr, bs[hi - 1].end, false) && LeftEdge(r, i) == lo
            && (lo < i ==> r[lo] == bs[lo])
            && Splice(r, lo, i + 1, [Block(r[lo].addr, r[i].end, false)])
               == Splice(bs, lo, hi, [Block(bs[lo].addr, bs[hi - 1].end, false)])
  {
    var hi := RightEdge(bs, i);
    var r := Splice(bs, i, hi, [Block(bs[i].addr, bs[hi - 1].end, false)]);
    assert r[i] == Block(bs[i].addr, bs[hi - 1].end, false);
    if i > 0 {
      assert r[i - 1] == bs[i - 1];
    }
  }

  lemma FreedAt(bs: seq<Block>, i: int)
    requires 0 <= i < |bs|
    ensures var r := Splice(bs, i, i + 1, [bs[i].(used := false)]);
            |r| == |bs| && r[i] == bs[i].(used := false) && bs[i].(used := false) == Block(bs[i].addr, bs[i].end, false)
  {
  }

  lemma FreeFixed(s: Small, ptr: int)
    requires Held(s, ptr)
    ensures Free(s, ptr).base == s.base && Free(s, ptr).total == s.total
  {
  }

  /** Block i cut at a. */
  lemma CutAt(bs: seq<Block>, i: int, a: int)
    requires 0 <= i < |bs| && bs[i].used
    ensures var r := Splice(bs, i, i + 1, [bs[i].(end := a), Block(a, bs[i].end, false)]);
            i + 1 < |r| && r[i + 1] == Block(a, bs[i].end, false) && bs[i].(end := a) == Block(bs[i].addr, a, true)
  {
  }

  lemma DataWrite(m: Mem, m': Mem, s: Small, c: Chain, b: Block)
    requires Inv(s) && b in Live(s.blocks)
    requires c == Chain(s.blocks, SlotsOf(s), s.base, End(s)) && Linked(m, c)
    requires forall x :: !(Data(s, b) <= x < s.base + b.end) ==> Ld(m', x) == Ld(m, x)
    ensures Linked(m', c)
  {
    hide Inv, Ld, SlotsOf, Live, Linked;
    forall a, x | a in c.slots && s.base + a <= x < s.base + a + HDR ensures Ld(m', x) == Ld(m, x) {
      if s.base + b.addr + HDR <= x < s.base + b.end {
        DataClear(s, b, x);
      }
    }
    SameHeaders(m, m', c);
  }

  lemma KeptLess(m: Mem, m': Mem, s: Small, d: set<Block>)
    requires Kept(m, m', s.base, Live(s.blocks))
    ensures Kept(m, m', s.base, Live(s.blocks) - d)
  {
  }

  lemma CopiedSelf(m: Mem, ptr: int, n: int)
    ensures Copied(m, m, ptr, ptr, n)
  {
  }

  /** The block handed out and the block being moved do not overlap. */
  lemma GivenApart(s: Small, ptr: int, sz: int)
    requires Inv(s) && Held(s, ptr) && 8 <= sz <= WORD - 8 && Malloc(s, sz).1 != 0
    ensures var (s1, g, b) := (Malloc(s, sz).0, Given(s, sz), BlockOf(s, ptr));
            && Inv(s1) && g in Live(s1.blocks) && b in Live(s1.blocks) && g != b
            && Malloc(s, sz).1 == Data(s, g) && Data(s, b) == ptr
            && (g.end <= b.addr || b.end <= g.addr)
            && Size(g) >= sz && Size(b) >= 8
  {
    hide Inv, Malloc, Live;
    Gap(s);
    MallocMeaning(s, sz);
    GivenWasFree(s, sz);
    HeldIsLive(s, ptr);
    LiveDisjoint(Malloc(s, sz).0, Given(s, sz), BlockOf(s, ptr));
    AlignedRequest(sz);
  }

  lemma Apart(s: Small, ptr: int, g: Block, n: int)
    requires Held(s, ptr) && (g.end <= BlockOf(s, ptr).addr || BlockOf(s, ptr).end <= g.addr)
    requires n <= Size(BlockOf(s, ptr)) && n <= Size(g)
    ensures Data(s, g) + n <= ptr || ptr + n <= Data(s, g)
  {
  }

  /** The three steps of a move, seen together. */
  lemma MoveKept(s: Small, m: Mem, m1: Mem, m2: Mem, m3: Mem, ptr: int, sz: int, n: int)
    requires Inv(s) && Held(s, ptr) && 8 <= sz <= WORD - 8 && Malloc(s, sz).1 != 0
    requires n <= Size(BlockOf(s, ptr)) && n <= sz
    requires Kept(m, m1, s.base, Live(s.blocks)) && Outside(m, m1, s)
    requires Copied(m1, m2, Data(s, Given(s, sz)), ptr, n)
    requires forall x :: !(Data(s, Given(s, sz)) <= x < Data(s, Given(s, sz)) + n) ==> Ld(m2, x) == Ld(m1, x)
    requires Kept(m2, m3, s.base, Live(Malloc(s, sz).0.blocks)) && Outside(m2, m3, s)
    ensures Copied(m, m3, Data(s, Given(s, sz)), ptr, n)
    ensures Kept(m, m3, s.base, Live(s.blocks) - {BlockOf(s, ptr)}) && Outside(m, m3, s)
  {
    hide Inv, Malloc, Live, Given, Ld;
    var g, b := Given(s, sz), BlockOf(s, ptr);
    var s1 := Malloc(s, sz).0;
    MallocMeaning(s, sz);
    GivenWasFree(s, sz);
    GivenApart(s, ptr, sz);
    HeldIsLive(s, ptr);
    Gap(s1);
    forall c, x | c in Live(s.blocks) - {b} && s.base + c.addr + HDR <= x < s.base + c.end ensures Ld(m3, x)
        == Ld(m, x) {
      LiveDisjoint(s1, c, g);
    }
    LiveDisjoint(s1, g, b);
    LiveInside(s1, g);
  }

  lemma LiveInside(s: Small, b: Block)
    requires Inv(s) && b in Live(s.blocks)
    ensures 0 <= b.addr && b.addr + HDR <= b.end <= End(s)
  {
    hide Inv;
    Gap(s);
  }

  lemma AlignedSize(size: int)
    ensures 0 <= AlignUp(size) <= WORD - 8 && (AlignUp(size) != 0 ==> 8 <= AlignUp(size))
  {
  }

  lemma HeldReads(m: Mem, s: Small, c: Chain, ptr: int)
    requires Inv(s) && Held(s, ptr) && Linked(m, c) && c.bs == s.blocks && c.base == s.base
    ensures 0 <= IndexOf(s, ptr) < |s.blocks| && s.blocks[IndexOf(s, ptr)].used
            && s.blocks[IndexOf(s, ptr)] == BlockOf(s, ptr)
    ensures s.blocks[IndexOf(s, ptr)].addr == ptr - HDR - s.base
    ensures Ld(m, ptr - HDR + NEXT) == BlockOf(s, ptr).end
  {
    hide Inv, Linked;
    Reads(m, c, IndexOf(s, ptr));
  }

  lemma PlanIs(s: Small, ptr: int, sz: int)
    requires Held(s, ptr)
    ensures var was := Size(BlockOf(s, ptr));
            PlanOf(s, ptr, sz) == if was == sz then Plan.Same else if sz + HDR + MIN_SIZE < was then Plan.Shrink
                else Plan.Move
  {
  }

  lemma ShrinkKept(s: Small, m: Mem, m': Mem, ptr: int, sz: int)
    requires Inv(s) && Held(s, ptr) && 8 <= sz && sz + HDR + MIN_SIZE < Size(BlockOf(s, ptr))
    requires WithinSlots(m, m', s.base, SlotsOf(s) + {ptr - s.base + sz})
    ensures Kept(m, m', s.base, Live(s.blocks) - {BlockOf(s, ptr)}) && Outside(m, m', s)
    ensures Copied(m, m', ptr, ptr, sz)
  {
    hide Inv, WithinSlots, Kept, Outside, SlotsOf, Ld;
    KeptAround(s, m, m', IndexOf(s, ptr), ptr - s.base + sz);
  }
}
