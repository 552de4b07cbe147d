/** rt_memheap as a value: the block sequence, the free list in its own order, and the counters. */
module MemHeapModel {
  import opened Words
  import opened Blocks
  import opened Sequences

  /** RT_MEMHEAP_SIZE and RT_MEMHEAP_MINIALLOC. */
  const HDR: int := 24
  const MINI: int := 12
  const GAP: int := 36

  /** The zero-length used tail is not in `blocks`; its header is at Tail(h). */
  datatype Heap = Heap(start: int, pool: int, blocks: seq<Block>, free: seq<int>, available: int, maxUsed: int)

  function Tail(h: Heap): int {
    h.start + h.pool - HDR
  }

  function Size(b: Block): int {
    b.end - b.addr - HDR
  }

  /** The size rt_memheap_alloc works with: rounded up to 8, then raised to the minimum of 12. */
  function Request(size: int): int {
    Max(AlignUp(size), MINI)
  }

  function Elems(s: seq<int>): set<int> {
    set x | x in s
  }

  lemma WithoutElems(s: seq<int>, k: int)
    requires 0 <= k < |s| && Distinct(s)
    ensures Distinct(Without(s, k))
    ensures Elems(Without(s, k)) == Elems(s) - {s[k]}
  {
    var r := Without(s, k);
    forall x | x in Elems(s) - {s[k]} ensures x in Elems(r) {
      var i :| 0 <= i < |s| && s[i] == x;
      assert r[if i < k then i else i - 1] == x;
    }
  }

  lemma ConsElems(x: int, s: seq<int>)
    requires Distinct(s) && x !in Elems(s)
    ensures Distinct([x] + s) && Elems([x] + s) == {x} + Elems(s)
  {
    forall y | y in {x} + Elems(s) ensures y in Elems([x] + s) {
      if y == x {
        assert ([x] + s)[0] == x;
      } else {
        var i :| 0 <= i < |s| && s[i] == y;
        assert ([x] + s)[i + 1] == y;
      }
    }
  }

  /** What every run keeps. */
  ghost predicate Inv(h: Heap) {
    && h.start > 0 && h.start + h.pool <= WORD
    && Tiled(h.blocks, h.start, Tail(h), GAP)
    && NoFreePair(h.blocks)
    && Distinct(h.free)
    && Elems(h.free) == FreeAddrs(h.blocks)
    && h.available == FreeBytes(h.blocks, HDR)
    && h.maxUsed >= h.pool - h.available
  }

  function Init(start: int, size: int): Heap {
    var pool := size / 8 * 8;
    Heap(start, pool, [Block(start, start + pool - HDR, false)], [start], pool - 2 * HDR, 2 * HDR)
  }

  lemma InitInv(start: int, size: int)
    requires start > 0 && size >= 2 * HDR + 16 && start + size <= WORD
    ensures Inv(Init(start, size))
  {
    var h := Init(start, size);
    assert FreeAddrs(h.blocks) == {start} by {
      assert h.blocks[0].addr == start;
    }
    assert FreeBytes(h.blocks, HDR) == h.pool - 2 * HDR by {
      assert h.blocks[1..] == [];
    }
  }

  /** Where the search through the free list stops: the first block from position k on that fits. */
  function FirstFit(h: Heap, sz: int, k: int): (r: int)
    requires 0 <= k <= |h.free|
    ensures k <= r <= |h.free|
    ensures r < |h.free| ==> SizeAt(h, h.free[r]) >= sz
    ensures forall j :: k <= j < r ==> SizeAt(h, h.free[j]) < sz
    decreases |h.free| - k
  {
    if k == |h.free| || SizeAt(h, h.free[k]) >= sz then k else FirstFit(h, sz, k + 1)
  }

  /** MEMITEM_SIZE of the block whose header is at a. */
  function SizeAt(h: Heap, a: int): int {
    var i := IndexAt(h.blocks, a);
    if i < |h.blocks| then Size(h.blocks[i]) else 0
  }

  function Raise(h: Heap): Heap {
    h.(maxUsed := Max(h.maxUsed, h.pool - h.available))
  }

  /** Free block i, at free-list position k, is split: sz bytes go out, the rest is listed first. */
  function TakeSplit(h: Heap, i: int, k: int, sz: int): Heap
    requires 0 <= k < |h.free| && 0 <= i < |h.blocks|
  {
    var b := h.blocks[i];
    var rest := b.addr + HDR + sz;
    Raise(h.(blocks := Splice(h.blocks, i, i + 1, [Block(b.addr, rest, true), Block(rest, b.end, false)]),
             free := [rest] + Without(h.free, k),
             available := h.available - sz - HDR))
  }

  function TakeWhole(h: Heap, i: int, k: int): Heap
    requires 0 <= k < |h.free| && 0 <= i < |h.blocks|
  {
    var b := h.blocks[i];
    Raise(h.(blocks := Splice(h.blocks, i, i + 1, [Block(b.addr, b.end, true)]),
             free := Without(h.free, k),
             available := h.available - Size(b)))
  }

  /** The block is split when the rest can hold a header and the minimum. */
  function Take(h: Heap, k: int, sz: int): Heap
    requires 0 <= k < |h.free| && IndexAt(h.blocks, h.free[k]) < |h.blocks|
  {
    var i := IndexAt(h.blocks, h.free[k]);
    if Size(h.blocks[i]) >= sz + HDR + MINI then TakeSplit(h, i, k, sz) else TakeWhole(h, i, k)
  }

  /** rt_memheap_alloc: the new state and the address handed out, 0 for RT_NULL. */
  function Alloc(h: Heap, size: int): (Heap, int)
    requires Inv(h)
  {
    var sz := Request(size);
    if sz < h.available then
      var k := FirstFit(h, sz, 0);
      if k < |h.free| then
        FreeListed(h, k);
        (Take(h, k, sz), h.free[k] + HDR)
      else (h, 0)
    else (h, 0)
  }

  /** A free-list entry is the header of a free block. */
  lemma FreeListed(h: Heap, k: int)
    requires Inv(h) && 0 <= k < |h.free|
    ensures var i := IndexAt(h.blocks, h.free[k]);
            i < |h.blocks| && h.blocks[i].addr == h.free[k] && !h.blocks[i].used
  {
    assert h.free[k] in Elems(h.free);
    var i :| 0 <= i < |h.blocks| && !h.blocks[i].used && h.blocks[i].addr == h.free[k];
    IndexAtUnique(h, i);
  }

  lemma IndexAtUnique(h: Heap, i: int)
    requires Inv(h) && 0 <= i < |h.blocks|
    ensures IndexAt(h.blocks, h.blocks[i].addr) == i
  {
    TiledOrdered(h.blocks, h.start, Tail(h), GAP);
    var k := IndexAt(h.blocks, h.blocks[i].addr);
  }

  /** A pointer the caller holds: the data of a used block. */
  predicate Held(h: Heap, ptr: int) {
    var i := IndexAt(h.blocks, ptr - HDR);
    i < |h.blocks| && h.blocks[i].used
  }

  /** rt_memheap_free of a held pointer. */
  function Free(h: Heap, ptr: int): Heap
    requires Held(h, ptr)
  {
    var bs := h.blocks;
    var i := IndexAt(bs, ptr - HDR);
    var lo, hi := LeftEdge(bs, i), RightEdge(bs, i);
    var f := if hi == i + 2 then Drop(h.free, bs[i + 1].addr) else h.free;
    h.(blocks := Splice(bs, lo, hi, [Block(bs[lo].addr, bs[hi - 1].end, false)]),
       free := if lo < i then f else [bs[i].addr] + f,
       available := h.available + Size(bs[i]) + (if lo < i then HDR else 0) + (if hi == i + 2 then HDR else 0))
  }

  /** The ways rt_memheap_realloc can go for a held pointer and a rounded size; the sums are 32 bits wide. */
  datatype Plan = Stay | GrowInPlace | Shrink | Move

  predicate FreeBehind(h: Heap, ptr: int)
    requires Held(h, ptr)
  {
    var i := IndexAt(h.blocks, ptr - HDR);
    i + 1 < |h.blocks| && !h.blocks[i + 1].used
  }

  /** The sum the in-place growth is tested with wraps, so that it is chosen for a size that does not fit. */
  predicate Overruns(h: Heap, ptr: int, sz: int)
    requires Held(h, ptr)
  {
    FreeBehind(h, ptr) && sz + MINI >= WORD
  }

  function PlanOf(h: Heap, ptr: int, sz: int): Plan
    requires Held(h, ptr)
  {
    var bs := h.blocks;
    var i := IndexAt(bs, ptr - HDR);
    var was := Size(bs[i]);
    if sz > was then
      if FreeBehind(h, ptr) && (Size(bs[i + 1]) + was) % WORD > (sz + MINI) % WORD then GrowInPlace else Move
    else if sz + HDR + MINI >= was then Stay
    else Shrink
  }

  /** Block i is cut to sz bytes of data, and the bytes up to the end of block hi-1 become one free block. */
  function Cut(h: Heap, i: int, hi: int, sz: int): Heap
    requires 0 <= i < hi <= i + 2 && hi <= |h.blocks|
  {
    var bs := h.blocks;
    var rest := bs[i].addr + HDR + sz;
    var f := if hi == i + 2 then Drop(h.free, bs[i + 1].addr) else h.free;
    h.(blocks := Splice(bs, i, hi, [Block(bs[i].addr, rest, true), Block(rest, bs[hi - 1].end, false)]),
       free := [rest] + f,
       available := h.available + (bs[hi - 1].end - rest - HDR)
                  - (if hi == i + 2 then Size(bs[i + 1]) else 0))
  }

  /** rt_memheap_realloc, ptr 0 for RT_NULL. The move is an alloc and a free, each a step of its own. */
  function Realloc(h: Heap, ptr: int, size: int): (Heap, int)
    requires Inv(h) && (ptr == 0 || Held(h, ptr))
  {
    if size == 0 then (if ptr == 0 then h else Free(h, ptr), 0)
    else
      var sz := Request(size);
      if ptr == 0 then Alloc(h, sz)
      else
        Resize(h, ptr, sz)
  }

  function Resize(h: Heap, ptr: int, sz: int): (Heap, int)
    requires Inv(h) && Held(h, ptr)
  {
    var i := IndexAt(h.blocks, ptr - HDR);
    match PlanOf(h, ptr, sz)
    case Stay => (h, ptr)
    case GrowInPlace => (Raise(Cut(h, i, i + 2, (ptr + sz) % WORD - ptr)), ptr)
    case Shrink => (Cut(h, i, RightEdge(h.blocks, i), sz), ptr)
    case Move =>
      var (h1, p) := Alloc(h, sz);
      if p == 0 then (h, 0) else AllocKeepsHeld(h, sz, ptr); (Free(h1, ptr), p)
  }

  /** An Drop of a free block's header takes exactly that address out of the list. */
  lemma UnlistElems(free: seq<int>, a: int)
    requires Distinct(free)
    ensures Distinct(Drop(free, a)) && Elems(Drop(free, a)) == Elems(free) - {a}
  {
    var k := IndexOf(free, a);
    if k < |free| {
      WithoutElems(free, k);
    }
  }

  lemma Gap(h: Heap)
    requires Inv(h)
    ensures h.start > 0 && |h.blocks| > 0 && h.start + GAP <= Tail(h)
    ensures Ordered(h.blocks)
    ensures forall i :: 0 <= i < |h.blocks| ==> h.start <= h.blocks[i].addr < h.blocks[i].end <= Tail(h)
    ensures forall i :: 0 <= i < |h.blocks| ==> Size(h.blocks[i]) >= MINI
    ensures forall i :: 0 <= i < |h.blocks| ==> h.blocks[i].addr + HDR <= h.blocks[i].end
  {
    TiledOrdered(h.blocks, h.start, Tail(h), GAP);
  }

  /** The one step every operation is: a window of the tiling is replaced, and the list and counter follow. */
  lemma SpliceInv(h: Heap, lo: int, hi: int, mid: seq<Block>, f: seq<int>, av: int, mu: int)
    requires Inv(h) && 0 <= lo < hi <= |h.blocks|
    requires Tiled(mid, h.blocks[lo].addr, h.blocks[hi - 1].end, GAP)
    requires NoFreePair(mid) && |mid| > 0
    requires lo > 0 ==> h.blocks[lo - 1].used || mid[0].used
    requires hi < |h.blocks| ==> mid[|mid| - 1].used || h.blocks[hi].used
    requires Distinct(f)
    requires Elems(f) == FreeAddrs(h.blocks) - FreeAddrs(h.blocks[lo..hi]) + FreeAddrs(mid)
    requires av == h.available - FreeBytes(h.blocks[lo..hi], HDR) + FreeBytes(mid, HDR)
    requires mu >= h.pool - av
    ensures Inv(h.(blocks := Splice(h.blocks, lo, hi, mid), free := f, available := av, maxUsed := mu))
    ensures Live(Splice(h.blocks, lo, hi, mid)) == Live(h.blocks) - Live(h.blocks[lo..hi]) + Live(mid)
  {
    hide NoFreePair, Splice, Tiled, Distinct, FreeAddrs, Elems, Live, FreeBytes;
    Gap(h);
    SpliceMembers(h.blocks, lo, hi, mid);
    SpliceFreeBytes(h.blocks, lo, hi, mid, HDR);
    var g := GAP;
    SpliceTiled(h.blocks, lo, hi, mid, h.start, Tail(h), g);
    SpliceNoFreePair(h.blocks, lo, hi, mid);
  }

  /** No header lies strictly inside a block. */
  lemma NoHeaderInside(h: Heap, i: int, a: int)
    requires Inv(h) && 0 <= i < |h.blocks| && h.blocks[i].addr < a < h.blocks[i].end
    ensures a !in FreeAddrs(h.blocks)
  {
    Gap(h);
    assert forall j :: 0 <= j < |h.blocks| ==> h.blocks[j].addr != a;
  }

  /** Two blocks, not both free, that share out [a, e). */
  lemma Pair(a: int, m: int, e: int, u: bool, gap: int)
    requires a + gap <= m && m + gap <= e
    ensures Tiled([Block(a, m, true), Block(m, e, u)], a, e, gap)
    ensures NoFreePair([Block(a, m, true), Block(m, e, u)])
  {
  }

  lemma NeighboursUsed(h: Heap, i: int)
    requires Inv(h) && 0 <= i < |h.blocks| && !h.blocks[i].used
    ensures i > 0 ==> h.blocks[i - 1].used
    ensures i + 1 < |h.blocks| ==> h.blocks[i + 1].used
  {
  }

  lemma TakeSplitInv(h: Heap, i: int, k: int, sz: int)
    requires Inv(h) && 0 <= k < |h.free| && 0 <= i < |h.blocks|
    requires !h.blocks[i].used && h.blocks[i].addr == h.free[k]
    requires MINI <= sz && Size(h.blocks[i]) >= sz + HDR + MINI
    ensures Inv(TakeSplit(h, i, k, sz))
    ensures Live(TakeSplit(h, i, k, sz).blocks)
         == Live(h.blocks) + {Block(h.free[k], h.free[k] + HDR + sz, true)}
  {
    hide NoFreePair, Splice, Tiled;
    var b := h.blocks[i];
    var rest := b.addr + HDR + sz;
    var mid := [Block(b.addr, rest, true), Block(rest, b.end, false)];
    var h' := TakeSplit(h, i, k, sz);
    NeighboursUsed(h, i);
    WithoutElems(h.free, k);
    Window1(h.blocks, i);
    Window2(mid[0], mid[1]);
    NoHeaderInside(h, i, rest);
    Pair(b.addr, rest, b.end, false, GAP);
    ConsElems(rest, Without(h.free, k));
    SpliceInv(h, i, i + 1, mid, [rest] + Without(h.free, k), h'.available, h'.maxUsed);
  }

  lemma TakeWholeInv(h: Heap, i: int, k: int)
    requires Inv(h) && 0 <= k < |h.free| && 0 <= i < |h.blocks|
    requires !h.blocks[i].used && h.blocks[i].addr == h.free[k]
    ensures Inv(TakeWhole(h, i, k))
    ensures Live(TakeWhole(h, i, k).blocks) == Live(h.blocks) + {Block(h.free[k], h.blocks[i].end, true)}
  {
    var b := h.blocks[i];
    var mid := [Block(b.addr, b.end, true)];
    var h' := TakeWhole(h, i, k);
    NeighboursUsed(h, i);
    WithoutElems(h.free, k);
    Window1(h.blocks, i);
    Window1(mid, 0);
    assert mid[0..1] == mid;
    SpliceInv(h, i, i + 1, mid, Without(h.free, k), h'.available, h'.maxUsed);
  }

  /** The block rt_memheap_alloc hands out: a remainder too small for a block of its own stays with it. */
  function Given(h: Heap, size: int): Block
    requires Inv(h) && Alloc(h, size).1 != 0
  {
    var sz := Request(size);
    var a := Alloc(h, size).1 - HDR;
    Block(a, a + HDR + (if SizeAt(h, a) >= sz + HDR + MINI then sz else SizeAt(h, a)), true)
  }

  lemma Window1(bs: seq<Block>, i: int)
    requires 0 <= i < |bs|
    ensures FreeBytes(bs[i..i + 1], HDR) == (if bs[i].used then 0 else Size(bs[i]))
    ensures FreeAddrs(bs[i..i + 1]) == (if bs[i].used then {} else {bs[i].addr})
    ensures Live(bs[i..i + 1]) == (if bs[i].used then {bs[i]} else {})
  {
    var w := bs[i..i + 1];
    assert w == [bs[i]] && w[1..] == [] && w[0] == bs[i];
  }

  lemma Window2(a: Block, b: Block)
    ensures FreeBytes([a, b], HDR) == (if a.used then 0 else Size(a)) + (if b.used then 0 else Size(b))
    ensures FreeAddrs([a, b]) == (if a.used then {} else {a.addr}) + (if b.used then {} else {b.addr})
    ensures Live([a, b]) == (if a.used then {a} else {}) + (if b.used then {b} else {})
  {
    var w := [a, b];
    assert w == [a] + [b];
    FreeBytesConcat([a], [b], HDR);
    Window1([a], 0);
    Window1([b], 0);
    assert [a][0..1] == [a] && [b][0..1] == [b];
    assert w[0] == a && w[1] == b;
  }

  lemma HeldLive(h: Heap, ptr: int)
    requires Inv(h)
    ensures Held(h, ptr) <==> exists b :: b in Live(h.blocks) && b.addr == ptr - HDR
  {
    if Held(h, ptr) {
      assert h.blocks[IndexAt(h.blocks, ptr - HDR)] in Live(h.blocks);
    } else if b :| b in Live(h.blocks) && b.addr == ptr - HDR {
      var i :| 0 <= i < |h.blocks| && h.blocks[i] == b;
      IndexAtUnique(h, i);
    }
  }

  /** What rt_memheap_alloc promises: exactly one more live block, big enough, or no change. */
  lemma AllocMeaning(h: Heap, size: int)
    requires Inv(h)
    ensures Inv(Alloc(h, size).0)
    ensures Alloc(h, size).1 == 0 ==> Alloc(h, size).0 == h
    ensures Alloc(h, size).1 != 0 ==>
              && Size(Given(h, size)) >= Request(size)
              && Live(Alloc(h, size).0.blocks) == Live(h.blocks) + {Given(h, size)}
  {
    hide Inv, Splice;
    var sz := Request(size);
    var k := FirstFit(h, sz, 0);
    if sz < h.available && k < |h.free| {
      FreeListed(h, k);
      Gap(h);
      var i := IndexAt(h.blocks, h.free[k]);
      assert Alloc(h, size) == (Take(h, k, sz), h.free[k] + HDR);
      assert Size(h.blocks[i]) == SizeAt(h, h.free[k]) >= sz;
      if Size(h.blocks[i]) >= sz + HDR + MINI {
        TakeSplitInv(h, i, k, sz);
      } else {
        TakeWholeInv(h, i, k);
      }
    }
  }

  lemma AllocKeepsHeld(h: Heap, size: int, ptr: int)
    requires Inv(h) && Held(h, ptr)
    ensures Held(Alloc(h, size).0, ptr)
    ensures Inv(Alloc(h, size).0)
  {
    AllocMeaning(h, size);
    HeldLive(h, ptr);
    HeldLive(Alloc(h, size).0, ptr);
  }

  /** The neighbours a freed block absorbs: their bytes, their headers, and no live block but itself. */
  lemma MergeWindow(bs: seq<Block>, i: int)
    requires 0 <= i < |bs| && bs[i].used
    ensures var lo, hi := LeftEdge(bs, i), RightEdge(bs, i);
            && 0 <= lo <= i < hi <= |bs|
            && Live(bs[lo..hi]) == {bs[i]}
            && FreeAddrs(bs[lo..hi]) == (if lo < i then {bs[lo].addr} else {})
                + (if hi == i + 2 then {bs[i + 1].addr} else {})
            && FreeBytes(bs[lo..hi], HDR) == (if lo < i then Size(bs[lo]) else 0)
                + (if hi == i + 2 then Size(bs[i + 1]) else 0)
  {
    var lo, hi := LeftEdge(bs, i), RightEdge(bs, i);
    var w := bs[lo..hi];
    assert w == bs[lo..i] + bs[i..i + 1] + bs[i + 1..hi];
    Window1(bs, i);
    if lo < i {
      Window1(bs, lo);
      assert bs[lo..i] == bs[lo..lo + 1];
    }
    if hi == i + 2 {
      Window1(bs, i + 1);
    }
    FreeBytesConcat(bs[lo..i] + bs[i..i + 1], bs[i + 1..hi], HDR);
    FreeBytesConcat(bs[lo..i], bs[i..i + 1], HDR);
    MembersConcat(bs[lo..i] + bs[i..i + 1], bs[i + 1..hi]);
    MembersConcat(bs[lo..i], bs[i..i + 1]);
  }

  /** The header of a used block is not on the free list, and different blocks have different headers. */
  lemma UsedNotListed(h: Heap, i: int)
    requires Inv(h) && 0 <= i < |h.blocks|
    ensures h.blocks[i].used ==> h.blocks[i].addr !in FreeAddrs(h.blocks)
    ensures i + 1 < |h.blocks| ==> h.blocks[i].addr != h.blocks[i + 1].addr
    ensures i > 0 ==> h.blocks[i].addr != h.blocks[i - 1].addr
    ensures 0 < i < |h.blocks| - 1 ==> h.blocks[i - 1].addr != h.blocks[i + 1].addr
    ensures i > 0 && !h.blocks[i - 1].used ==> h.blocks[i - 1].addr in FreeAddrs(h.blocks)
  {
    Gap(h);
  }

  /** Beyond the merged window there is no free block next to it. */
  lemma Edges(h: Heap, i: int)
    requires Inv(h) && 0 <= i < |h.blocks| && h.blocks[i].used
    ensures var lo, hi := LeftEdge(h.blocks, i), RightEdge(h.blocks, i);
            && (lo > 0 ==> h.blocks[lo - 1].used)
            && (hi < |h.blocks| ==> h.blocks[hi].used)
            && h.blocks[lo].addr + GAP <= h.blocks[hi - 1].end
            && h.blocks[hi - 1].end - h.blocks[lo].addr - HDR
               == Size(h.blocks[i]) + (if lo < i then HDR + Size(h.blocks[lo]) else 0)
                                    + (if hi == i + 2 then HDR + Size(h.blocks[i + 1]) else 0)
  {
  }

  /** The free list after a free: the absorbed neighbours leave it, the merged block is on it. */
  lemma FreeListAfter(h: Heap, ptr: int)
    requires Inv(h) && Held(h, ptr)
    ensures var bs, i := h.blocks, IndexAt(h.blocks, ptr - HDR);
            var lo, hi := LeftEdge(bs, i), RightEdge(bs, i);
            && Distinct(Free(h, ptr).free)
            && Elems(Free(h, ptr).free) == FreeAddrs(bs) - FreeAddrs(bs[lo..hi]) + {bs[lo].addr}
  {
    hide NoFreePair, Splice, Live, FreeAddrs, Elems, Distinct, Tiled;
    var bs := h.blocks;
    var i := IndexAt(bs, ptr - HDR);
    MergeWindow(bs, i);
    UsedNotListed(h, i);
    var right := RightEdge(bs, i) == i + 2;
    UnlistElems(h.free, if right then bs[i + 1].addr else 0);
    if LeftEdge(bs, i) == i {
      ConsElems(bs[i].addr, if right then Drop(h.free, bs[i + 1].addr) else h.free);
    }
  }

  /** The merged block, and the counter after a free. */
  function Merged(h: Heap, ptr: int): Block
    requires Held(h, ptr)
  {
    var i := IndexAt(h.blocks, ptr - HDR);
    Block(h.blocks[LeftEdge(h.blocks, i)].addr, h.blocks[RightEdge(h.blocks, i) - 1].end, false)
  }

  lemma FreeBooks(h: Heap, ptr: int)
    requires Inv(h) && Held(h, ptr)
    ensures var i := IndexAt(h.blocks, ptr - HDR);
            var lo, hi, b := LeftEdge(h.blocks, i), RightEdge(h.blocks, i), Merged(h, ptr);
            && Free(h, ptr) == h.(blocks := Splice(h.blocks, lo, hi, [b]), free := Free(h, ptr).free,
                                  available := Free(h, ptr).available)
            && Free(h, ptr).available
               == h.available - FreeBytes(h.blocks[lo..hi], HDR) + FreeBytes([b], HDR)
            && Free(h, ptr).available >= h.available
            && b.addr + GAP <= b.end
  {
    hide Inv, Splice, Ordered, FreeAddrs, FreeBytes, Live, Drop, IndexAt, LeftEdge;
    var i := IndexAt(h.blocks, ptr - HDR);
    var b := Merged(h, ptr);
    MergeWindow(h.blocks, i);
    Edges(h, i);
    Gap(h);
    Window1([b], 0);
    assert [b][0..1] == [b];
  }

  /**
   * What rt_memheap_free promises: exactly that block stops being live, and it and the headers merged away are
   * free bytes.
   */
  lemma FreeMeaning(h: Heap, ptr: int)
    requires Inv(h) && Held(h, ptr)
    ensures Inv(Free(h, ptr))
    ensures Live(Free(h, ptr).blocks) == Live(h.blocks) - {h.blocks[IndexAt(h.blocks, ptr - HDR)]}
    ensures FreeBytes(Free(h, ptr).blocks, HDR)
            == FreeBytes(h.blocks, HDR) + Size(h.blocks[IndexAt(h.blocks, ptr - HDR)])
                + HDR * (|h.blocks| - |Free(h, ptr).blocks|)
  {
    hide Inv, Free, Live;
    FreeKeeps(h, ptr);
    FreeCounts(h, ptr);
    Books(h);
    Books(Free(h, ptr));
  }

  lemma MergedIs(h: Heap, ptr: int)
    requires Held(h, ptr)
    ensures var bs, i := h.blocks, IndexAt(h.blocks, ptr - HDR);
            && 0 <= i < |bs| && bs[i].used
            && var lo, hi, b := LeftEdge(bs, i), RightEdge(bs, i), Merged(h, ptr);
               0 <= lo < hi <= |bs| && b == Block(bs[lo].addr, bs[hi - 1].end, false)
  {
  }

  lemma FreeKeeps(h: Heap, ptr: int)
    requires Inv(h) && Held(h, ptr)
    ensures Inv(Free(h, ptr))
    ensures Live(Free(h, ptr).blocks) == Live(h.blocks) - {h.blocks[IndexAt(h.blocks, ptr - HDR)]}
  {
    hide *;
    MergedIs(h, ptr);
    var i := IndexAt(h.blocks, ptr - HDR);
    var lo, hi, b := LeftEdge(h.blocks, i), RightEdge(h.blocks, i), Merged(h, ptr);
    FreeBooks(h, ptr);
    FreeListAfter(h, ptr);
    MergeWindow(h.blocks, i);
    Edges(h, i);
    MaxUsedCovers(h);
    Single(b);
    SpliceInv(h, lo, hi, [b], Free(h, ptr).free, Free(h, ptr).available, h.maxUsed);
  }

  lemma FreeCounts(h: Heap, ptr: int)
    requires Held(h, ptr)
    ensures Free(h, ptr).available
            == h.available + Size(h.blocks[IndexAt(h.blocks, ptr - HDR)]) + HDR * (|h.blocks| - |Free(h, ptr).blocks|)
  {
    hide Drop;
  }

  lemma Single(b: Block)
    requires b.addr + GAP <= b.end
    ensures NoFreePair([b]) && Tiled([b], b.addr, b.end, GAP)
    ensures !b.used ==> FreeAddrs([b]) == {b.addr} && Live([b]) == {}
  {
    assert [b][0] == b;
  }

  /** Cutting a block short, together with the free block behind it if there is one, keeps the heap. */
  lemma CutMeaning(h: Heap, i: int, sz: int)
    requires Inv(h) && 0 <= i < |h.blocks| && h.blocks[i].used && sz >= MINI
    requires var hi := RightEdge(h.blocks, i);
             && h.blocks[i].addr + HDR + sz + GAP <= h.blocks[hi - 1].end
             && (hi == i + 1 ==> sz < Size(h.blocks[i]))
             && sz != Size(h.blocks[i])
    ensures var h' := Cut(h, i, RightEdge(h.blocks, i), sz);
            && Inv(Raise(h'))
            && (h'.available >= h.available ==> Inv(h'))
            && Live(h'.blocks) == Live(h.blocks) - {h.blocks[i]}
                                + {Block(h.blocks[i].addr, h.blocks[i].addr + HDR + sz, true)}
  {
    hide Inv, NoFreePair, Splice, Tiled, Live, FreeAddrs, Elems, Distinct, FreeBytes;
    var bs := h.blocks;
    var hi := RightEdge(bs, i);
    var rest := bs[i].addr + HDR + sz;
    var mid := [Block(bs[i].addr, rest, true), Block(rest, bs[hi - 1].end, false)];
    var h' := Cut(h, i, hi, sz);
    Books(h);
    Gap(h);
    EdgesAhead(h, i);
    CutWindow(bs, i);
    UsedNotListed(h, i);
    Window2(mid[0], mid[1]);
    Pair(bs[i].addr, rest, bs[hi - 1].end, false, GAP);
    UnlistElems(h.free, if hi == i + 2 then bs[i + 1].addr else 0);
    var f := if hi == i + 2 then Drop(h.free, bs[i + 1].addr) else h.free;
    if rest < bs[i].end {
      NoHeaderInside(h, i, rest);
    } else {
      NoHeaderInside(h, i + 1, rest);
    }
    ConsElems(rest, f);
    MaxUsedCovers(h);
    Edges(h, i);
    SpliceInv(h, i, hi, mid, h'.free, h'.available, Raise(h').maxUsed);
    if h'.available >= h.available {
      SpliceInv(h, i, hi, mid, h'.free, h'.available, h'.maxUsed);
    }
  }

  lemma CutWindow(bs: seq<Block>, i: int)
    requires 0 <= i < |bs| && bs[i].used
    ensures var hi := RightEdge(bs, i);
            && i < hi <= |bs|
            && Live(bs[i..hi]) == {bs[i]}
            && FreeAddrs(bs[i..hi]) == (if hi == i + 2 then {bs[i + 1].addr} else {})
            && FreeBytes(bs[i..hi], HDR) == (if hi == i + 2 then Size(bs[i + 1]) else 0)
  {
    var hi := RightEdge(bs, i);
    assert bs[i..hi] == bs[i..i + 1] + bs[i + 1..hi];
    Window1(bs, i);
    if hi == i + 2 {
      Window1(bs, i + 1);
    }
    FreeBytesConcat(bs[i..i + 1], bs[i + 1..hi], HDR);
    MembersConcat(bs[i..i + 1], bs[i + 1..hi]);
  }

  /** The live block behind a held pointer. */
  function BlockOf(h: Heap, ptr: int): Block
    requires Held(h, ptr)
  {
    h.blocks[IndexAt(h.blocks, ptr - HDR)]
  }

  lemma HeldIsLive(h: Heap, ptr: int)
    requires Held(h, ptr)
    ensures BlockOf(h, ptr) in Live(h.blocks)
  {
  }

  lemma LiveUnique(h: Heap, b: Block)
    requires Inv(h) && b in Live(h.blocks)
    ensures Held(h, b.addr + HDR) && BlockOf(h, b.addr + HDR) == b
  {
    var i :| 0 <= i < |h.blocks| && h.blocks[i] == b;
    IndexAtUnique(h, i);
  }

  /** Live blocks never overlap, and stay inside the pool. */
  lemma LiveDisjoint(h: Heap, b: Block, c: Block)
    requires Inv(h) && b in Live(h.blocks) && c in Live(h.blocks) && b != c
    ensures b.end <= c.addr || c.end <= b.addr
    ensures h.start <= b.addr && b.addr + GAP <= b.end <= Tail(h)
  {
    Gap(h);
  }

  /** rt_memheap_realloc is asked for a size whose growth test wraps, with a free block to grow into. */
  predicate ReallocOverruns(h: Heap, ptr: int, size: int)
    requires ptr == 0 || Held(h, ptr)
  {
    ptr != 0 && FreeBehind(h, ptr) && AlignUp(size) > 0xFFFF_FFF0
  }

  /**
   * What rt_memheap_realloc promises, on each of its paths: it keeps the heap exactly if its growth test does not
   * wrap.
   */
  lemma ReallocMeaning(h: Heap, ptr: int, size: int)
    requires Inv(h) && (ptr == 0 || Held(h, ptr)) && 0 <= size < WORD
    ensures Inv(Realloc(h, ptr, size).0) <==> !ReallocOverruns(h, ptr, size)
    ensures size == 0 ==>
              && Realloc(h, ptr, size).1 == 0
              && Live(Realloc(h, ptr, size).0.blocks) == Live(h.blocks) - (if ptr == 0 then {} else {BlockOf(h, ptr)})
    ensures size != 0 && Realloc(h, ptr, size).1 == 0 ==> Realloc(h, ptr, size).0 == h
    ensures Realloc(h, ptr, size).1 != 0 && !ReallocOverruns(h, ptr, size) ==>
              exists b :: b in Live(Realloc(h, ptr, size).0.blocks)
                && b.addr + HDR == Realloc(h, ptr, size).1 && Size(b) >= Request(size)
                && Live(Realloc(h, ptr, size).0.blocks)
                   == Live(h.blocks) - (if ptr == 0 then {} else {BlockOf(h, ptr)}) + {b}
  {
    hide Inv, Live, Alloc, Free, Cut, FreeBehind, Resize;
    var sz := Request(size);
    AlignUpCovers(size);
    if size == 0 {
      if ptr != 0 {
        FreeMeaning(h, ptr);
      }
    } else if ptr == 0 {
      AllocMeaning(h, sz);
      RequestGrows(sz);
      if Alloc(h, sz).1 != 0 {
        assert Given(h, sz) in Live(Alloc(h, sz).0.blocks);
      }
    } else if ReallocOverruns(h, ptr, size) {
      OverrunMeaning(h, ptr, sz);
    } else {
      ResizeMeaning(h, ptr, sz);
    }
  }

  /** When the test wraps, the block is cut to 16 bytes, inside its own header, and handed back as if it had grown. */
  lemma OverrunMeaning(h: Heap, ptr: int, sz: int)
    requires Inv(h) && Held(h, ptr) && Overruns(h, ptr, sz) && sz == 0xFFFF_FFF8
    ensures var i := IndexAt(h.blocks, ptr - HDR);
            && PlanOf(h, ptr, sz) == GrowInPlace
            && Resize(h, ptr, sz) == (Cut(h, i, i + 2, -8), ptr)
            && Cut(h, i, i + 2, -8).available == (h.available - (sz - Size(h.blocks[i]))) % WORD
            && Cut(h, i, i + 2, -8).blocks
               == Splice(h.blocks, i, i + 2,
                   [Block(ptr - HDR, ptr - 8, true), Block(ptr - 8, h.blocks[i + 1].end, false)])
            && !Inv(Resize(h, ptr, sz).0)
  {
    hide Inv, Drop, Splice, PlanOf;
    var i := IndexAt(h.blocks, ptr - HDR);
    OverrunPlan(h, ptr, sz);
    OverrunCounts(h, i);
    EdgesAhead(h, i);
    MaxUsedCovers(h);
    SpliceAt(h.blocks, i, i + 2, [Block(ptr - HDR, ptr - 8, true), Block(ptr - 8, h.blocks[i + 1].end, false)]);
    Undersized(Cut(h, i, i + 2, -8), i);
  }

  lemma OverrunPlan(h: Heap, ptr: int, sz: int)
    requires Inv(h) && Held(h, ptr) && Overruns(h, ptr, sz) && sz == 0xFFFF_FFF8
    ensures PlanOf(h, ptr, sz) == GrowInPlace && (ptr + sz) % WORD == ptr - 8
  {
    hide Inv;
    var i := IndexAt(h.blocks, ptr - HDR);
    Gap(h);
    SumFits(h, i);
    TopFits(h);
    assert ptr == h.blocks[i].addr + HDR;
    assert (sz + MINI) % WORD == 4;
  }

  lemma Undersized(h: Heap, i: int)
    requires 0 <= i < |h.blocks| && Size(h.blocks[i]) < MINI
    ensures !Inv(h)
  {
  }

  /**
   * Such a heap is reached by one allocation; the caller gets its 16 bytes back as 4 GB, and 64 bytes count as
   * free.
   */
  lemma OverrunReached(start: int, size: int)
    requires start > 0 && start + 128 <= WORD && 0xFFFF_FFF0 < size <= 0xFFFF_FFF8
    ensures Inv(Init(start, 128)) && Alloc(Init(start, 128), 16).1 == start + HDR
    ensures var h := Alloc(Init(start, 128), 16).0;
            && Inv(h) && Held(h, start + HDR) && ReallocOverruns(h, start + HDR, size)
            && !Inv(Realloc(h, start + HDR, size).0) && Realloc(h, start + HDR, size).1 == start + HDR
            && h.available == 40 && Realloc(h, start + HDR, size).0.available == 64
  {
    var h0 := Init(start, 128);
    InitInv(start, 128);
    assert Request(16) == 16 && Request(size) == 0xFFFF_FFF8;
    assert SizeAt(h0, h0.free[0]) == 80;
    assert FirstFit(h0, 16, 0) == 0;
    AllocMeaning(h0, 16);
    var h := Alloc(h0, 16).0;
    assert h.blocks == [Block(start, start + 40, true), Block(start + 40, start + 104, false)];
    assert h.blocks[0].addr == start;
    OverrunMeaning(h, start + HDR, 0xFFFF_FFF8);
  }

  /**
   * Both blocks and three headers lie in the pool, so no sum of their sizes wraps, and a cut that fits does not
   * either.
   */
  lemma SumFits(h: Heap, i: int)
    requires Inv(h) && 0 <= i < |h.blocks|
    ensures Size(h.blocks[i]) + 2 * HDR < WORD
    ensures i + 1 < |h.blocks| ==>
              2 * MINI <= Size(h.blocks[i]) + Size(h.blocks[i + 1])
              && Size(h.blocks[i]) + Size(h.blocks[i + 1]) + 3 * HDR < WORD
  {
    hide Inv;
    Gap(h);
    TopFits(h);
    if i + 1 < |h.blocks| {
      assert h.blocks[i].end <= h.blocks[i + 1].addr;
    }
  }

  lemma TopFits(h: Heap)
    requires Inv(h)
    ensures h.start > 0 && h.start + h.pool <= WORD
  {
  }

  /** The bytes of the absorbed block and of the caller's are counted as free. */
  lemma OverrunCounts(h: Heap, i: int)
    requires Inv(h) && 0 <= i && i + 1 < |h.blocks| && h.blocks[i].used && !h.blocks[i + 1].used
    ensures 0 <= h.available && h.available + Size(h.blocks[i]) + 8 < h.pool < WORD && Size(h.blocks[i]) >= MINI
  {
    UsedBytesNotFree(h.blocks, h.start, Tail(h), i);
    FreeBytesNonNegative(h.blocks);
  }

  lemma {:induction false} FreeBytesInside(bs: seq<Block>, lo: int, hi: int)
    requires Tiled(bs, lo, hi, GAP)
    ensures FreeBytes(bs, HDR) <= hi - lo
  {
    if |bs| > 1 {
      FreeBytesInside(bs[1..], bs[1].addr, hi);
    }
  }

  lemma {:induction false} UsedBytesNotFree(bs: seq<Block>, lo: int, hi: int, i: int)
    requires Tiled(bs, lo, hi, GAP) && 0 <= i < |bs| && bs[i].used
    ensures FreeBytes(bs, HDR) + bs[i].end - bs[i].addr <= hi - lo
  {
    if |bs| > 1 {
      if i == 0 {
        FreeBytesInside(bs[1..], bs[1].addr, hi);
      } else {
        UsedBytesNotFree(bs[1..], bs[1].addr, hi, i - 1);
      }
    }
  }

  lemma RequestPositive(size: int)
    ensures MINI <= Request(size) <= 0xFFFF_FFF8
  {
    assert AlignUp(size) % 8 == 0;
    assert AlignUp(size) < WORD;
  }

  lemma RequestGrows(sz: int)
    requires exists size :: sz == Request(size)
    ensures Request(sz) >= sz
  {
    var size :| sz == Request(size);
    var x := AlignUp(size);
    assert x % 8 == 0 && 0 <= x < WORD;
    assert x <= WORD - 8;
    AlignUpCovers(sz);
  }

  /** Short of the wrap, the in-place growth is what it is meant to be. */
  lemma GrowPlain(h: Heap, ptr: int, sz: int)
    requires Inv(h) && Held(h, ptr) && PlanOf(h, ptr, sz) == GrowInPlace && !Overruns(h, ptr, sz) && sz >= 0
    ensures var i := IndexAt(h.blocks, ptr - HDR);
            && i + 1 < |h.blocks| && !h.blocks[i + 1].used && RightEdge(h.blocks, i) == i + 2
            && sz > Size(h.blocks[i]) && Size(h.blocks[i + 1]) + Size(h.blocks[i]) > sz + MINI
            && Resize(h, ptr, sz) == (Raise(Cut(h, i, i + 2, sz)), ptr)
  {
    hide Inv, Cut;
    var i := IndexAt(h.blocks, ptr - HDR);
    SumFits(h, i);
    Gap(h);
    TopFits(h);
    EdgesAhead(h, i);
    assert ptr == h.blocks[i].addr + HDR;
    assert ptr + sz < h.blocks[i + 1].end;
  }

  /** In place, longer or shorter, the block keeps its address and gets exactly sz bytes. */
  lemma CutInPlace(h: Heap, ptr: int, sz: int)
    requires Inv(h) && Held(h, ptr) && MINI <= sz && !Overruns(h, ptr, sz)
    requires PlanOf(h, ptr, sz) == GrowInPlace || PlanOf(h, ptr, sz) == Shrink
    ensures var (h', p) := Resize(h, ptr, sz);
            && Inv(h') && p == ptr
            && Live(h'.blocks) == Live(h.blocks) - {BlockOf(h, ptr)} + {Block(ptr - HDR, ptr + sz, true)}
  {
    hide Inv, Splice, Live, Ordered, Cut;
    var i := IndexAt(h.blocks, ptr - HDR);
    EdgesAhead(h, i);
    Gap(h);
    if PlanOf(h, ptr, sz) == GrowInPlace {
      GrowPlain(h, ptr, sz);
    }
    CutMeaning(h, i, sz);
    if PlanOf(h, ptr, sz) == Shrink {
      CutAvailable(h, i, sz);
    }
  }

  lemma MoveOrStay(h: Heap, ptr: int, sz: int)
    requires Held(h, ptr) && Inv(h)
    ensures PlanOf(h, ptr, sz) == Stay ==> Resize(h, ptr, sz) == (h, ptr) && Size(BlockOf(h, ptr)) >= sz
    ensures PlanOf(h, ptr, sz) == Move ==>
              if Alloc(h, sz).1 == 0 then Resize(h, ptr, sz) == (h, 0)
              else Held(Alloc(h, sz).0, ptr) && Resize(h, ptr, sz) == (Free(Alloc(h, sz).0, ptr), Alloc(h, sz).1)
  {
    hide Inv, Alloc, Free;
    if PlanOf(h, ptr, sz) == Move && Alloc(h, sz).1 != 0 {
      AllocKeepsHeld(h, sz, ptr);
    }
  }

  /** The plans, for a held pointer and an already rounded size. */
  lemma ResizeMeaning(h: Heap, ptr: int, sz: int)
    requires Inv(h) && ptr != 0 && Held(h, ptr) && (exists size :: sz == Request(size)) && !Overruns(h, ptr, sz)
    ensures var (h', p) := Resize(h, ptr, sz);
            && Inv(h')
            && (p == 0 ==> h' == h)
            && (p != 0 ==> exists b :: b in Live(h'.blocks) && b.addr + HDR == p && Size(b) >= sz
                                    && Live(h'.blocks) == Live(h.blocks) - {BlockOf(h, ptr)} + {b})
  {
    hide Inv, Live, Resize, PlanOf, Alloc, Free, Given, Overruns, Held;
    var b := BlockOf(h, ptr);
    HeldIsLive(h, ptr);
    MoveOrStay(h, ptr, sz);
    match PlanOf(h, ptr, sz)
    case Stay =>
      HeldAt(h, ptr);
      assert Live(h.blocks) == Live(h.blocks) - {b} + {b};
    case Move =>
      AllocMeaning(h, sz);
      MoveMeaning(h, ptr, sz);
    case _ =>
      RequestGrows(sz);
      CutInPlace(h, ptr, sz);
      assert Block(ptr - HDR, ptr + sz, true) in Live(Resize(h, ptr, sz).0.blocks);
  }

  /**
   * Which way rt_memheap_realloc goes: the block stays if it is large enough and the rest is too small for a
   * block, is cut to exactly the rounded size if not, grows in place to exactly that size if the free block behind
   * leaves room for a header and more than the minimum, and is otherwise replaced by what rt_memheap_alloc hands
   * out.
   */
  lemma ReallocOutcome(h: Heap, ptr: int, size: int)
    requires Inv(h) && (ptr == 0 || Held(h, ptr)) && 0 < size < WORD && !ReallocOverruns(h, ptr, size)
    ensures ptr == 0 ==> Realloc(h, ptr, size) == Alloc(h, Request(size))
    ensures ptr != 0 ==>
              var b, sz, (h', p) := BlockOf(h, ptr), Request(size), Realloc(h, ptr, size);
              var inPlace := Live(h.blocks) - {b} + {Block(ptr - HDR, ptr + sz, true)};
              if sz <= Size(b) <= sz + HDR + MINI then (h', p) == (h, ptr)
              else if sz < Size(b) then p == ptr && Live(h'.blocks) == inPlace
              else if RoomBehind(h, ptr) > sz + MINI then p == ptr && Live(h'.blocks) == inPlace
              else
                && p == Alloc(h, sz).1
                && (p == 0 ==> h' == h)
                && (p != 0 ==> Live(h'.blocks) == Live(h.blocks) - {b} + {Given(h, sz)})
  {
    hide Inv, Alloc, Free, Live, Given, Resize, ReallocOverruns, Request;
    if ptr != 0 {
      RequestPositive(size);
      OverrunsIff(h, ptr, size);
      ResizeOutcome(h, ptr, Request(size));
    }
  }

  /** The data bytes of a block and of the free block behind it; 0 without one. */
  function RoomBehind(h: Heap, ptr: int): int
    requires Held(h, ptr)
  {
    var i := IndexAt(h.blocks, ptr - HDR);
    if FreeBehind(h, ptr) then Size(h.blocks[i]) + Size(h.blocks[i + 1]) else 0
  }

  lemma PlanFits(h: Heap, ptr: int, sz: int)
    requires Inv(h) && Held(h, ptr) && 0 <= sz && !Overruns(h, ptr, sz)
    ensures var was := Size(BlockOf(h, ptr));
            PlanOf(h, ptr, sz) == if sz <= was <= sz + HDR + MINI then Stay else if sz < was then Shrink
                                  else if RoomBehind(h, ptr) > sz + MINI then GrowInPlace else Move
  {
    hide Inv;
    SumFits(h, IndexAt(h.blocks, ptr - HDR));
  }

  lemma ResizeOutcome(h: Heap, ptr: int, sz: int)
    requires Inv(h) && Held(h, ptr) && (exists size :: sz == Request(size)) && !Overruns(h, ptr, sz) && sz >= MINI
    ensures var b, (h', p) := BlockOf(h, ptr), Resize(h, ptr, sz);
            var inPlace := Live(h.blocks) - {b} + {Block(ptr - HDR, ptr + sz, true)};
            if sz <= Size(b) <= sz + HDR + MINI then (h', p) == (h, ptr)
            else if sz < Size(b) then p == ptr && Live(h'.blocks) == inPlace
            else if RoomBehind(h, ptr) > sz + MINI then p == ptr && Live(h'.blocks) == inPlace
            else
              && p == Alloc(h, sz).1
              && (p == 0 ==> h' == h)
              && (p != 0 ==> Live(h'.blocks) == Live(h.blocks) - {b} + {Given(h, sz)})
  {
    hide Inv, Alloc, Free, Live, Given, Resize, PlanOf, Overruns, Held;
    PlanFits(h, ptr, sz);
    MoveOrStay(h, ptr, sz);
    if PlanOf(h, ptr, sz) == Shrink || PlanOf(h, ptr, sz) == GrowInPlace {
      CutInPlace(h, ptr, sz);
    } else if PlanOf(h, ptr, sz) == Move {
      MoveMeaning(h, ptr, sz);
    }
  }

  lemma OverrunsIff(h: Heap, ptr: int, size: int)
    requires Held(h, ptr) && ptr != 0
    ensures Overruns(h, ptr, Request(size)) <==> ReallocOverruns(h, ptr, size)
  {
    assert AlignUp(size) % 8 == 0 && AlignUp(size) < WORD;
  }

  /**
   * An allocation takes the first listed block that is large enough: exactly the size asked for if the rest can
   * hold a header and the minimum, and that rest is listed first; else the whole block.
   */
  lemma AllocExact(h: Heap, size: int)
    requires Inv(h) && Alloc(h, size).1 != 0
    ensures exists k :: 0 <= k < |h.free| && h.free[k] + HDR == Alloc(h, size).1
              && (forall j :: 0 <= j < k ==> SizeAt(h, h.free[j]) < Request(size))
              && var a, n, (h', _) := h.free[k], SizeAt(h, h.free[k]), Alloc(h, size);
                 if n >= Request(size) + HDR + MINI then
                   && Live(h'.blocks) == Live(h.blocks) + {Block(a, a + HDR + Request(size), true)}
                   && h'.free == [a + HDR + Request(size)] + Without(h.free, k)
                 else
                   && Live(h'.blocks) == Live(h.blocks) + {Block(a, a + HDR + n, true)}
                   && h'.free == Without(h.free, k)
  {
    hide Inv, Live, Request, Splice;
    AllocMeaning(h, size);
    var k := FirstFit(h, Request(size), 0);
    FreeListed(h, k);
    assert h.free[k] + HDR == Alloc(h, size).1;
  }

  /** The rest of a block cut in place is listed first, and a free block behind that it takes in leaves the list. */
  lemma CutListOrder(h: Heap, ptr: int, sz: int)
    requires Inv(h) && Held(h, ptr) && MINI <= sz && !Overruns(h, ptr, sz)
    requires PlanOf(h, ptr, sz) == GrowInPlace || PlanOf(h, ptr, sz) == Shrink
    ensures var others := if FreeBehind(h, ptr) then Drop(h.free, h.blocks[IndexAt(h.blocks, ptr - HDR) + 1].addr)
            else h.free;
            Resize(h, ptr, sz).0.free == [ptr + sz] + others
  {
    hide Inv, Drop, Splice;
    if PlanOf(h, ptr, sz) == GrowInPlace {
      GrowPlain(h, ptr, sz);
    }
  }

  /** A freed block is listed first, unless the free block in front takes it in; the order of the others stays. */
  lemma FreeListOrder(h: Heap, ptr: int)
    requires Inv(h) && Held(h, ptr)
    ensures var i, bs := IndexAt(h.blocks, ptr - HDR), h.blocks;
            var others := if FreeBehind(h, ptr) then Drop(h.free, bs[i + 1].addr) else h.free;
            Free(h, ptr).free == if i > 0 && !bs[i - 1].used then others else [ptr - HDR] + others
  {
    hide Inv, Drop, Splice;
  }

  lemma HeldAt(h: Heap, ptr: int)
    requires Held(h, ptr)
    ensures BlockOf(h, ptr).addr + HDR == ptr
  {
  }

  lemma EdgesAhead(h: Heap, i: int)
    requires Inv(h) && 0 <= i < |h.blocks|
    ensures RightEdge(h.blocks, i) == i + 2 ==> h.blocks[i].end == h.blocks[i + 1].addr
  {
  }

  lemma CutAvailable(h: Heap, i: int, sz: int)
    requires Inv(h) && 0 <= i < |h.blocks| && h.blocks[i].used
    requires sz + HDR <= Size(h.blocks[i])
    ensures Cut(h, i, RightEdge(h.blocks, i), sz).available >= h.available
  {
    hide Splice;
    EdgesAhead(h, i);
  }

  lemma GivenAt(h: Heap, sz: int)
    requires Inv(h) && Alloc(h, sz).1 != 0
    ensures Given(h, sz).addr + HDR == Alloc(h, sz).1
  {
    FreeListed(h, FirstFit(h, Request(sz), 0));
  }

  lemma MoveMeaning(h: Heap, ptr: int, sz: int)
    requires Inv(h) && Held(h, ptr) && (exists size :: sz == Request(size))
    ensures Alloc(h, sz).1 != 0 ==>
              && Held(Alloc(h, sz).0, ptr) && BlockOf(Alloc(h, sz).0, ptr) == BlockOf(h, ptr)
              && Given(h, sz) != BlockOf(h, ptr) && Given(h, sz).addr + HDR == Alloc(h, sz).1
              && Inv(Free(Alloc(h, sz).0, ptr))
              && Size(Given(h, sz)) >= sz
              && Given(h, sz) in Live(Free(Alloc(h, sz).0, ptr).blocks)
              && Live(Free(Alloc(h, sz).0, ptr).blocks) == Live(h.blocks) - {BlockOf(h, ptr)} + {Given(h, sz)}
    ensures Alloc(h, sz).1 == 0 ==> Alloc(h, sz).0 == h
  {
    hide Inv, Alloc, Free, Live, Given;
    var b := BlockOf(h, ptr);
    AllocMeaning(h, sz);
    if Alloc(h, sz).1 != 0 {
      HeldIsLive(h, ptr);
      GivenAt(h, sz);
      GivenWasFree(h, sz);
      var h1 := Alloc(h, sz).0;
      LiveUnique(h1, b);
      FreeMeaning(h1, ptr);
      RequestGrows(sz);
    }
  }

  /** The block handed out was not live before. */
  lemma GivenWasFree(h: Heap, size: int)
    requires Inv(h) && Alloc(h, size).1 != 0
    ensures forall b :: b in Live(h.blocks) ==> b.addr != Given(h, size).addr
  {
    var k := FirstFit(h, Request(size), 0);
    FreeListed(h, k);
    forall b | b in Live(h.blocks) ensures b.addr != h.free[k] {
      LiveUnique(h, b);
    }
  }

  lemma {:induction false} FreeBlockBytes(bs: seq<Block>, i: int)
    requires forall j :: 0 <= j < |bs| ==> Size(bs[j]) >= 0
    requires 0 <= i < |bs| && !bs[i].used
    ensures FreeBytes(bs, HDR) >= Size(bs[i])
  {
    FreeBytesNonNegative(bs[1..]);
    if i > 0 {
      FreeBlockBytes(bs[1..], i - 1);
    }
  }

  lemma {:induction false} FreeBytesNonNegative(bs: seq<Block>)
    requires forall j :: 0 <= j < |bs| ==> Size(bs[j]) >= 0
    ensures FreeBytes(bs, HDR) >= 0
  {
    if bs != [] {
      FreeBytesNonNegative(bs[1..]);
    }
  }

  /** Some free block can hold the request. */
  ghost predicate Fits(h: Heap, size: int) {
    exists i :: 0 <= i < |h.blocks| && !h.blocks[i].used && Size(h.blocks[i]) >= Request(size)
  }

  /**
   * When a free block fits, rt_memheap_alloc still refuses exactly when the request is all the free bytes there
   * are.
   */
  lemma AllocSucceeds(h: Heap, size: int)
    requires Inv(h)
    ensures Alloc(h, size).1 != 0 ==> Fits(h, size)
    ensures Fits(h, size) ==> (Alloc(h, size).1 == 0 <==> h.available == Request(size))
  {
    var sz := Request(size);
    var k := FirstFit(h, sz, 0);
    Gap(h);
    if Alloc(h, size).1 != 0 {
      FreeListed(h, k);
    }
    if i :| 0 <= i < |h.blocks| && !h.blocks[i].used && Size(h.blocks[i]) >= sz {
      FreeBlockBytes(h.blocks, i);
      IndexAtUnique(h, i);
      assert h.blocks[i].addr in Elems(h.free);
      var j :| 0 <= j < |h.free| && h.free[j] == h.blocks[i].addr;
      assert SizeAt(h, h.free[j]) >= sz;
      assert k <= j;
      FreeListed(h, k);
    }
  }

  /** The smallest heap has one free block of 16 bytes, and a request for 16 bytes is refused. */
  lemma WholeHeapRefused(start: int)
    requires start > 0 && start + 64 <= WORD
    ensures Fits(Init(start, 64), 16) && Alloc(Init(start, 64), 16).1 == 0
  {
    var h := Init(start, 64);
    InitInv(start, 64);
    assert !h.blocks[0].used && Size(h.blocks[0]) == 16 == Request(16);
  }

  /** Below 64 bytes the one block is under the minimum, and every request is refused. */
  lemma TinyPool(start: int, pool: int, size: int)
    requires 2 * HDR <= pool < 2 * HDR + 16
    ensures Request(size) >= Init(start, pool).available
    ensures Size(Init(start, pool).blocks[0]) < MINI
  {
  }

  /**
   * The steps of a run. A move is an allocation and a free, each under the lock on its own; a resize must not
   * overrun.
   */
  datatype Op = DoAlloc(size: int) | DoFree(ptr: int) | DoResize(ptr: int, size: int)

  predicate Enabled(h: Heap, op: Op) {
    match op
    case DoAlloc(_) => true
    case DoFree(ptr) => Held(h, ptr)
    case DoResize(ptr, size) =>
          ptr != 0 && Held(h, ptr) && PlanOf(h, ptr, Request(size)) != Move
          && !Overruns(h, ptr, Request(size))
  }

  function Step(h: Heap, op: Op): Heap
    requires Inv(h)
  {
    if !Enabled(h, op) then h
    else match op
      case DoAlloc(size) => Alloc(h, size).0
      case DoFree(ptr) => Free(h, ptr)
      case DoResize(ptr, size) => Resize(h, ptr, Request(size)).0
  }

  /** The counters after an operation: the high-water mark takes in the new use. */
  predicate Tracks(h: Heap, h': Heap) {
    && h'.maxUsed == Max(h.maxUsed, h.pool - h'.available)
    && h'.start == h.start && h'.pool == h.pool
  }

  lemma ResizeTracks(h: Heap, ptr: int, sz: int)
    requires Inv(h) && Held(h, ptr) && PlanOf(h, ptr, sz) != Move && !Overruns(h, ptr, sz) && sz >= 0
    ensures Tracks(h, Resize(h, ptr, sz).0)
  {
    hide Inv, Splice, Drop;
    MaxUsedCovers(h);
    if PlanOf(h, ptr, sz) == GrowInPlace {
      GrowPlain(h, ptr, sz);
    }
    if PlanOf(h, ptr, sz) == Shrink {
      CutAvailable(h, IndexAt(h.blocks, ptr - HDR), sz);
    }
  }

  lemma AllocTracks(h: Heap, size: int)
    requires Inv(h)
    ensures Tracks(h, Alloc(h, size).0)
  {
    hide Inv, Splice, Without;
    MaxUsedCovers(h);
  }

  lemma FreeTracks(h: Heap, ptr: int)
    requires Inv(h) && Held(h, ptr)
    ensures Tracks(h, Free(h, ptr))
  {
    Gap(h);
    MaxUsedCovers(h);
    hide Inv, Ordered, Splice, Drop;
  }

  /** A step keeps the invariant, and the high-water mark takes in the new use. */
  lemma StepInv(h: Heap, op: Op)
    requires Inv(h)
    ensures Inv(Step(h, op)) && Tracks(h, Step(h, op))
  {
    hide Inv, Live, Request, Alloc, Free, Resize, Given;
    MaxUsedCovers(h);
    if Enabled(h, op) {
      match op
      case DoAlloc(size) =>
        AllocMeaning(h, size);
        AllocTracks(h, size);
      case DoFree(ptr) =>
        FreeMeaning(h, ptr);
        FreeTracks(h, ptr);
      case DoResize(ptr, size) =>
        ResizeMeaning(h, ptr, Request(size));
        RequestPositive(size);
        ResizeTracks(h, ptr, Request(size));
    }
  }

  /** The states a run passes through. */
  function Trace(h: Heap, ops: seq<Op>): (hs: seq<Heap>)
    requires Inv(h)
    ensures |hs| == |ops| + 1 && hs[0] == h
    decreases |ops|
  {
    if ops == [] then [h]
    else
      StepInv(h, ops[0]);
      [h] + Trace(Step(h, ops[0]), ops[1..])
  }

  /** The most bytes ever in use along a sequence of states. */
  function Peak(hs: seq<Heap>): int
    requires hs != []
  {
    var u := hs[0].pool - hs[0].available;
    if |hs| == 1 then u else Max(u, Peak(hs[1..]))
  }

  /** Every state of every run is well formed, and max_used_size is the true maximum. */
  lemma {:induction false} RunSafe(h: Heap, ops: seq<Op>)
    requires Inv(h)
    ensures forall i :: 0 <= i < |Trace(h, ops)| ==> Inv(Trace(h, ops)[i])
    ensures Trace(h, ops)[|ops|].maxUsed == Max(h.maxUsed, Peak(Trace(h, ops)))
    decreases |ops|
  {
    hide Inv, Step, Trace, Peak;
    MaxUsedCovers(h);
    TraceCons(h, ops);
    if ops == [] {
      PeakCons(h, []);
      assert [h] + [] == [h];
    } else {
      StepInv(h, ops[0]);
      var hs := Trace(Step(h, ops[0]), ops[1..]);
      RunSafe(Step(h, ops[0]), ops[1..]);
      PeakCons(h, hs);
      PeakFirst(hs);
      assert Trace(h, ops)[|ops|] == hs[|ops| - 1];
      forall i | 0 <= i < |Trace(h, ops)| ensures Inv(Trace(h, ops)[i]) {
        assert Trace(h, ops)[i] == if i == 0 then h else hs[i - 1];
      }
    }
  }

  lemma TraceCons(h: Heap, ops: seq<Op>)
    requires Inv(h)
    ensures ops == [] ==> Trace(h, ops) == [h]
    ensures ops != [] ==> Inv(Step(h, ops[0])) && Trace(h, ops) == [h] + Trace(Step(h, ops[0]), ops[1..])
  {
    StepInv(h, if ops == [] then DoAlloc(0) else ops[0]);
  }

  lemma PeakCons(h: Heap, hs: seq<Heap>)
    ensures Peak([h] + hs) == if hs == [] then h.pool - h.available else Max(h.pool - h.available, Peak(hs))
  {
    assert ([h] + hs)[1..] == hs;
  }

  lemma PeakFirst(hs: seq<Heap>)
    requires hs != []
    ensures Peak(hs) >= hs[0].pool - hs[0].available
  {
  }

  lemma MaxUsedCovers(h: Heap)
    requires Inv(h)
    ensures h.maxUsed >= h.pool - h.available
  {
  }

  /** From initialisation on, max_used_size is exactly the peak of pool_size - available_size. */
  lemma MaxUsedIsPeak(start: int, size: int, ops: seq<Op>)
    requires start > 0 && size >= 2 * HDR + 16 && start + size <= WORD
    ensures Inv(Init(start, size))
    ensures var hs := Trace(Init(start, size), ops);
            hs[|ops|].maxUsed == Peak(hs)
  {
    InitInv(start, size);
    RunSafe(Init(start, size), ops);
    PeakFirst(Trace(Init(start, size), ops));
  }

  /** A block handed out covers the request, except for the seven sizes whose rounding wraps. */
  lemma AllocCovers(h: Heap, size: int)
    requires Inv(h) && 0 <= size < WORD && Alloc(h, size).1 != 0
    ensures Size(Given(h, size)) >= size <==> size <= 0xFFFF_FFF8
  {
    AllocMeaning(h, size);
    AlignUpCovers(size);
    if size > 0xFFFF_FFF8 {
      assert Request(size) == MINI;
      assert Size(Given(h, size)) < MINI + HDR + MINI;
    }
  }

  /** The size a step asks for. */
  function SizeOf(op: Op): int {
    match op
    case DoAlloc(size) => size
    case DoFree(_) => 0
    case DoResize(_, size) => size
  }

  /** The step puts a new header behind the bytes asked for: the split of an allocation, the cut of a resize. */
  predicate Splits(h: Heap, op: Op)
    requires Inv(h)
  {
    Enabled(h, op) && match op
      case DoAlloc(size) => Alloc(h, size).1 != 0 && SizeAt(h, Alloc(h, size).1 - HDR) >= Request(size) + HDR + MINI
      case DoFree(_) => false
      case DoResize(ptr, size) =>
            PlanOf(h, ptr, Request(size)) == GrowInPlace
            || PlanOf(h, ptr, Request(size)) == Shrink
  }

  /** Blocks i to hi-1 as a step leaves them: one block, or the bytes asked for and a free rest. */
  function Pieces(bs: seq<Block>, i: int, hi: int, split: bool, size: int, used: bool): seq<Block>
    requires 0 <= i < hi <= |bs|
  {
    var a, e, m := bs[i].addr, bs[hi - 1].end, bs[i].addr + HDR + Request(size);
    if split then [Block(a, m, true), Block(m, e, false)] else [Block(a, e, used)]
  }

  lemma AllocWindow(h: Heap, size: int) returns (i: int)
    requires Inv(h)
    ensures 0 <= i < |h.blocks|
    ensures Alloc(h, size).0.blocks
            == if Alloc(h, size).1 == 0 then h.blocks
               else Splice(h.blocks, i, i + 1, Pieces(h.blocks, i, i + 1, Splits(h, DoAlloc(size)), size, true))
  {
    hide Inv, Splice, Request;
    var k := FirstFit(h, Request(size), 0);
    Gap(h);
    i := 0;
    if Request(size) < h.available && k < |h.free| {
      FreeListed(h, k);
      i := IndexAt(h.blocks, h.free[k]);
      assert Alloc(h, size).1 != 0;
    }
  }

  lemma ResizeWindow(h: Heap, ptr: int, size: int)
    requires Inv(h) && Enabled(h, DoResize(ptr, size)) && PlanOf(h, ptr, Request(size)) != Stay
    ensures var i := IndexAt(h.blocks, ptr - HDR);
            var hi := RightEdge(h.blocks, i);
            && i < |h.blocks| && Splits(h, DoResize(ptr, size))
            && Resize(h, ptr, Request(size)).0.blocks
                == Splice(h.blocks, i, hi, Pieces(h.blocks, i, hi, true, size, true))
  {
    hide Inv, Splice, Request, Drop;
    RequestPositive(size);
    if PlanOf(h, ptr, Request(size)) == GrowInPlace {
      GrowPlain(h, ptr, Request(size));
    }
  }

  lemma FreeWindow(h: Heap, ptr: int)
    requires Held(h, ptr)
    ensures var i := IndexAt(h.blocks, ptr - HDR);
            var lo, hi := LeftEdge(h.blocks, i), RightEdge(h.blocks, i);
            0 <= lo < hi <= |h.blocks| && Free(h, ptr).blocks
                == Splice(h.blocks, lo, hi, Pieces(h.blocks, lo, hi, false, 0, false))
  {
    hide Splice, Drop;
  }

  /** Every step rebuilds one window of the blocks. */
  lemma StepWindow(h: Heap, op: Op) returns (i: int, hi: int, used: bool)
    requires Inv(h)
    ensures 0 <= i < hi <= |h.blocks|
    ensures Step(h, op).blocks == Splice(h.blocks, i, hi, Pieces(h.blocks, i, hi, Splits(h, op), SizeOf(op), used))
  {
    hide Inv, Request, Alloc, Free, Resize, Splice, SizeAt, Held, Overruns;
    var bs := h.blocks;
    assert |bs| > 0 by {
      Gap(h);
    }
    i, hi, used := 0, 1, bs[0].used;
    SpliceSame(bs);
    if Enabled(h, op) {
      match op
      case DoAlloc(size) =>
        if Alloc(h, size).1 != 0 {
          i := AllocWindow(h, size);
          hi, used := i + 1, true;
        } else {
          var _ := AllocWindow(h, size);
        }
      case DoFree(ptr) =>
        FreeWindow(h, ptr);
        i := IndexAt(bs, ptr - HDR);
        i, hi, used := LeftEdge(bs, i), RightEdge(bs, i), false;
      case DoResize(ptr, size) =>
        if PlanOf(h, ptr, Request(size)) != Stay {
          ResizeWindow(h, ptr, size);
          i := IndexAt(bs, ptr - HDR);
          assert i < |bs|;
          hi := RightEdge(bs, i);
        } else {
          StayWindow(h, ptr, Request(size));
        }
    }
  }

  lemma StayWindow(h: Heap, ptr: int, sz: int)
    requires Inv(h) && Held(h, ptr) && PlanOf(h, ptr, sz) == Stay
    ensures Resize(h, ptr, sz).0 == h
  {
  }

  lemma SpliceSame(bs: seq<Block>)
    requires bs != []
    ensures Splice(bs, 0, 1, [Block(bs[0].addr, bs[0].end, bs[0].used)]) == bs
  {
  }

  lemma RequestMultiple(size: int)
    ensures Request(size) % 4 == 0
    ensures AlignUp(size) <= 8 ==> Request(size) == MINI
    ensures AlignUp(size) > 8 ==> Request(size) % 8 == 0
  {
    hide AlignUp;
    AlignUpEights(size);
    MaxMultiple(AlignUp(size));
  }

  lemma AlignUpEights(size: int)
    ensures AlignUp(size) % 8 == 0
  {
  }

  lemma MaxMultiple(x: int)
    requires x % 8 == 0
    ensures Max(x, MINI) % 4 == 0 && (x <= 8 ==> Max(x, MINI) == MINI) && (x > 8 ==> Max(x, MINI) == x)
  {
  }

  lemma Shifted(a: int, r: int, n: int)
    requires (n == 4 || n == 8) && a % n == 0
    ensures (a + HDR + r) % n == r % n
  {
  }

  /**
   * The pieces of a window that starts and ends on multiples of n do so too, unless the request in front does not
   * fill them.
   */
  lemma PiecesAligned(bs: seq<Block>, i: int, hi: int, split: bool, size: int, used: bool, n: int)
    requires (n == 4 || n == 8) && 0 <= i < hi <= |bs| && Aligned(bs, n)
    ensures Aligned(Pieces(bs, i, hi, split, size, used), n) <==> !split || Request(size) % n == 0
  {
    hide Request;
    var mid := Pieces(bs, i, hi, split, size, used);
    assert OnBoundary(bs[i], n) && OnBoundary(bs[hi - 1], n);
    if split {
      Shifted(bs[i].addr, Request(size), n);
      assert mid[0].end % n == Request(size) % n == mid[1].addr % n;
      assert Aligned(mid, n) ==> OnBoundary(mid[0], n);
    }
  }

  /** The pieces are blocks of the result. */
  lemma SplicedAligned(bs: seq<Block>, i: int, hi: int, mid: seq<Block>, n: int)
    requires n > 0 && 0 <= i <= hi <= |bs| && Aligned(bs, n)
    ensures Aligned(Splice(bs, i, hi, mid), n) <==> Aligned(mid, n)
  {
    hide OnBoundary;
    var r := Splice(bs, i, hi, mid);
    if Aligned(r, n) {
      forall k | 0 <= k < |mid| ensures OnBoundary(mid[k], n) {
        assert r[i + k] == mid[k];
      }
    }
  }

  /** Every step keeps the blocks on multiples of 4. */
  lemma StepAligned(h: Heap, op: Op)
    requires Inv(h) && Aligned(h.blocks, 4)
    ensures Aligned(Step(h, op).blocks, 4)
  {
    hide Inv, Splice, Step, Splits, Request, Aligned, Pieces;
    var i, hi, used := StepWindow(h, op);
    RequestMultiple(SizeOf(op));
    PiecesAligned(h.blocks, i, hi, Splits(h, op), SizeOf(op), used, 4);
    SplicedAligned(h.blocks, i, hi, Pieces(h.blocks, i, hi, Splits(h, op), SizeOf(op), used), 4);
  }

  /** Multiples of 8 survive a step exactly if it puts no header behind a request that rounds to 8 bytes or less. */
  lemma StepEightAligned(h: Heap, op: Op)
    requires Inv(h) && Aligned(h.blocks, 8)
    ensures Aligned(Step(h, op).blocks, 8) <==> !(Splits(h, op) && AlignUp(SizeOf(op)) <= 8)
  {
    hide Inv, Splice, Step, Splits, Request, AlignUp, Aligned, Pieces;
    var i, hi, used := StepWindow(h, op);
    RequestMultiple(SizeOf(op));
    PiecesAligned(h.blocks, i, hi, Splits(h, op), SizeOf(op), used, 8);
    SplicedAligned(h.blocks, i, hi, Pieces(h.blocks, i, hi, Splits(h, op), SizeOf(op), used), 8);
  }

  /** They need not be multiples of 8: a one-byte request takes 12 bytes after a 24-byte header. */
  lemma NotEightAligned(start: int)
    requires start > 0 && start % 8 == 0 && start + 128 <= WORD
    ensures Alloc(Init(start, 128), 1).1 != 0
    ensures exists i :: 0 <= i < |Alloc(Init(start, 128), 1).0.blocks|
                     && Alloc(Init(start, 128), 1).0.blocks[i].addr % 8 == 4
  {
    var h := Init(start, 128);
    InitInv(start, 128);
    assert AlignUp(1) == 8 && Request(1) == 12;
    assert SizeAt(h, h.free[0]) == 80;
    assert FirstFit(h, 12, 0) == 0;
    var r := Alloc(h, 1).0.blocks;
    assert r == [Block(start, start + 36, true), Block(start + 36, start + 104, false)];
    assert r[1].addr % 8 == 4;
  }

  lemma SpliceBack(bs: seq<Block>, i: int, mid: seq<Block>)
    requires 0 <= i < |bs|
    ensures Splice(Splice(bs, i, i + 1, mid), i, i + |mid|, [bs[i]]) == bs
  {
  }

  /** Freeing block i of r puts bs back, if r is bs with its free block i turned into mid. */
  lemma FreeBack(bs: seq<Block>, r: seq<Block>, i: int, mid: seq<Block>)
    requires 0 <= i < |bs| && !bs[i].used && r == Splice(bs, i, i + 1, mid)
    requires i > 0 ==> bs[i - 1].used
    requires i + 1 < |bs| ==> bs[i + 1].used
    requires |mid| == 1 || (|mid| == 2 && !mid[1].used)
    requires mid[0].used && mid[0].addr == bs[i].addr && mid[|mid| - 1].end == bs[i].end
    ensures LeftEdge(r, i) == i && RightEdge(r, i) == i + |mid|
    ensures Splice(r, i, i + |mid|, [Block(r[i].addr, r[i + |mid| - 1].end, false)]) == bs
  {
    SpliceBack(bs, i, mid);
    assert r[i] == mid[0] && r[i + |mid| - 1] == mid[|mid| - 1];
    if i + |mid| < |r| {
      assert r[i + |mid|] == bs[i + 1];
    }
    assert Block(r[i].addr, r[i + |mid| - 1].end, false) == bs[i];
  }

  /** rt_memheap_free undoes rt_memheap_alloc: same blocks, same free bytes, same free-list members. */
  lemma FreeUndoesAlloc(h: Heap, size: int)
    requires Inv(h) && Alloc(h, size).1 != 0
    ensures Held(Alloc(h, size).0, Alloc(h, size).1)
    ensures var h2 := Free(Alloc(h, size).0, Alloc(h, size).1);
            h2.blocks == h.blocks && h2.available == h.available && Elems(h2.free) == Elems(h.free)
  {
    hide Inv, Splice, FreeAddrs, Elems, Distinct, Live;
    var sz := Request(size);
    var (h1, p) := Alloc(h, size);
    var k := FirstFit(h, sz, 0);
    FreeListed(h, k);
    var i := IndexAt(h.blocks, h.free[k]);
    var b := h.blocks[i];
    AllocMeaning(h, size);
    NeighboursUsed(h, i);
    var rest := b.addr + HDR + sz;
    var mid := if Size(b) >= sz + HDR + MINI then [Block(b.addr, rest, true), Block(rest, b.end, false)]
               else [Block(b.addr, b.end, true)];
    assert h1.blocks == Splice(h.blocks, i, i + 1, mid);
    FreeBack(h.blocks, h1.blocks, i, mid);
    SpliceAt(h.blocks, i, i + 1, mid);
    IndexAtUnique(h1, i);
    FreeMeaning(h1, p);
    Books(h);
    Books(Free(h1, p));
  }

  lemma SpliceAt(bs: seq<Block>, i: int, hi: int, mid: seq<Block>)
    requires 0 <= i <= hi <= |bs| && |mid| > 0
    ensures i < |Splice(bs, i, hi, mid)| && Splice(bs, i, hi, mid)[i] == mid[0]
  {
  }

  /** The counter and the free list's members are functions of the blocks. */
  lemma Books(h: Heap)
    requires Inv(h)
    ensures h.available == FreeBytes(h.blocks, HDR) && Elems(h.free) == FreeAddrs(h.blocks) && Distinct(h.free)
  {
  }
}
