/** The small-memory allocator as a value: blocks by offset, the lowest-free hint and the statistics. */
module SmallMemModel {
  import opened Words
  import opened Blocks

  /** SIZEOF_STRUCT_MEM and MIN_SIZE_ALIGNED; the condition for a shrink uses the unaligned MIN_SIZE. */
  const HDR: int := 16
  const MIN_ALIGNED: int := 16
  const MIN_SIZE: int := 12
  /** The shortest block: a shrink can leave 8 bytes of data. */
  const GAP: int := 24

  /** `base` is heap_ptr and `total` mem_size_aligned; the end sentinel's header is at End(s) and not in `blocks`. */
  datatype Small = Small(base: int, total: int, blocks: seq<Block>, lfree: int, used: int, maxUsed: int)

  function End(s: Small): int {
    s.total + HDR
  }

  function Size(b: Block): int {
    b.end - b.addr - HDR
  }

  /** lfree is the end sentinel or a free block of the chain. */
  ghost predicate HintOk(bs: seq<Block>, end: int, lfree: int) {
    lfree == end || lfree in FreeAddrs(bs)
  }

  ghost predicate Inv(s: Small) {
    && Tiled(s.blocks, 0, End(s), GAP)
    && NoFreePair(s.blocks)
    && HintOk(s.blocks, End(s), s.lfree)
    && s.used == UsedBytes(s.blocks)
    && s.maxUsed >= s.used
    && MIN_ALIGNED <= s.total
    && s.base > 0 && s.base + s.total + 2 * HDR <= WORD
  }

  function Init(base: int, total: int): Small {
    Small(base, total, [Block(0, total + HDR, false)], 0, 0, 0)
  }

  lemma InitInv(base: int, total: int)
    requires base > 0 && MIN_ALIGNED <= total && base + total + 2 * HDR <= WORD
    ensures Inv(Init(base, total)) && Lowest(Init(base, total))
  {
    var s := Init(base, total);
    assert s.blocks[0].addr == 0 && !s.blocks[0].used;
    assert s.blocks[1..] == [];
  }

  /** No free block lies below lfree. */
  ghost predicate Lowest(s: Small) {
    forall a :: a in FreeAddrs(s.blocks) ==> s.lfree <= a
  }

  /** The free block from index i on where the loop of rt_malloc stops, or |blocks|. */
  function Scan(s: Small, sz: int, i: int): (r: int)
    requires 0 <= i <= |s.blocks|
    ensures i <= r <= |s.blocks|
    ensures r < |s.blocks| ==> Fits(s, sz, r)
    decreases |s.blocks| - i
  {
    if i == |s.blocks| || s.blocks[i].addr >= s.total - sz then |s.blocks|
    else if Fits(s, sz, i) then i
    else Scan(s, sz, i + 1)
  }

  /** Block i is free and holds sz bytes, below the bound of the loop. */
  predicate Fits(s: Small, sz: int, i: int)
    requires 0 <= i < |s.blocks|
  {
    !s.blocks[i].used && Size(s.blocks[i]) >= sz && s.blocks[i].addr < s.total - sz
  }

  /** The header of the first free block at or after index i, or the end sentinel. */
  function NextFree(bs: seq<Block>, i: int, end: int): int
    requires 0 <= i <= |bs|
    decreases |bs| - i
  {
    if i == |bs| then end else if !bs[i].used then bs[i].addr else NextFree(bs, i + 1, end)
  }

  function Raise(s: Small): Small {
    s.(maxUsed := Max(s.maxUsed, s.used))
  }

  /** Block i is handed out; the remainder becomes a block when it can hold the minimum. */
  function Take(s: Small, i: int, sz: int): Small
    requires 0 <= i < |s.blocks|
  {
    var b := s.blocks[i];
    var rest := b.addr + HDR + sz;
    var mid := if Size(b) >= sz + HDR + MIN_ALIGNED then [Block(b.addr, rest, true), Block(rest, b.end, false)]
               else [Block(b.addr, b.end, true)];
    var bs := Splice(s.blocks, i, i + 1, mid);
    Raise(s.(blocks := bs,
             lfree := if b.addr == s.lfree then NextFree(bs, i, End(s)) else s.lfree,
             used := s.used + (mid[0].end - b.addr)))
  }

  /** The size rt_malloc works with. */
  function Request(size: int): int {
    Max(AlignUp(size), MIN_ALIGNED)
  }

  /** The pointer to a block's data. */
  function Data(s: Small, b: Block): int {
    s.base + b.addr + HDR
  }

  /** rt_malloc: the new state and the pointer, 0 for RT_NULL. */
  function Malloc(s: Small, size: int): (Small, int) {
    if size == 0 || AlignUp(size) > s.total then (s, 0)
    else
      var i := Scan(s, Request(size), IndexAt(s.blocks, s.lfree));
      if i < |s.blocks| then (Take(s, i, Request(size)), Data(s, s.blocks[i])) else (s, 0)
  }

  /** The position of the block a data pointer belongs to. */
  function IndexOf(s: Small, ptr: int): int {
    IndexAt(s.blocks, ptr - s.base - HDR)
  }

  predicate Held(s: Small, ptr: int) {
    IndexOf(s, ptr) < |s.blocks| && s.blocks[IndexOf(s, ptr)].used
  }

  function BlockOf(s: Small, ptr: int): Block
    requires Held(s, ptr)
  {
    s.blocks[IndexOf(s, ptr)]
  }

  /** The hint after plug_holes on block i: it follows a block that was merged away. */
  function PlugHint(bs: seq<Block>, i: int, lfree: int): int
    requires 0 <= i < |bs|
  {
    var l := if i + 1 < |bs| && !bs[i + 1].used && lfree == bs[i + 1].addr then bs[i].addr else lfree;
    if i > 0 && !bs[i - 1].used && l == bs[i].addr then bs[i - 1].addr else l
  }

  /** plug_holes around free block i. */
  function Plug(s: Small, i: int): Small
    requires 0 <= i < |s.blocks|
  {
    var bs, lo, hi := s.blocks, LeftEdge(s.blocks, i), RightEdge(s.blocks, i);
    s.(blocks := Splice(bs, lo, hi, [Block(bs[lo].addr, bs[hi - 1].end, false)]), lfree := PlugHint(bs, i, s.lfree))
  }

  /** rt_free of a held pointer. */
  function Free(s: Small, ptr: int): Small
    requires Held(s, ptr)
  {
    var i := IndexOf(s, ptr);
    var b := s.blocks[i];
    Plug(s.(blocks := Splice(s.blocks, i, i + 1, [Block(b.addr, b.end, false)]),
            lfree := Min(s.lfree, b.addr),
            used := s.used - (b.end - b.addr)), i)
  }

  datatype Plan = Same | Shrink | Move

  function PlanOf(s: Small, ptr: int, sz: int): Plan
    requires Held(s, ptr)
  {
    var was := Size(BlockOf(s, ptr));
    if was == sz then Same else if sz + HDR + MIN_SIZE < was then Shrink else Move
  }

  /** The in-place shrink: block i keeps sz bytes, the rest is freed and plugged; lfree is not lowered. */
  function Cut(s: Small, i: int, sz: int): Small
    requires 0 <= i < |s.blocks|
  {
    var b := s.blocks[i];
    var rest := b.addr + HDR + sz;
    var bs := Splice(s.blocks, i, i + 1, [Block(b.addr, rest, true), Block(rest, b.end, false)]);
    Plug(s.(blocks := bs, used := s.used - (Size(b) - sz)), i + 1)
  }

  /** A pointer rt_realloc hands back untouched. */
  predicate Illegal(s: Small, ptr: int) {
    ptr < s.base || ptr >= s.base + End(s)
  }

  /** rt_realloc, 0 for RT_NULL. The move is a malloc and a free, each a step of its own. */
  function Realloc(s: Small, ptr: int, size: int): (Small, int)
    requires ptr == 0 || Held(s, ptr) || Illegal(s, ptr)
  {
    var sz := AlignUp(size);
    if sz > s.total then (s, 0)
    else if sz == 0 then (if ptr == 0 || Illegal(s, ptr) then s else Free(s, ptr), 0)
    else if ptr == 0 then Malloc(s, sz)
    else if Illegal(s, ptr) then (s, ptr)
    else Resize(s, ptr, sz)
  }

  function Resize(s: Small, ptr: int, sz: int): (Small, int)
    requires Held(s, ptr)
  {
    match PlanOf(s, ptr, sz)
    case Same => (s, ptr)
    case Shrink => (Cut(s, IndexOf(s, ptr), sz), ptr)
    case Move =>
      var (s1, p) := Malloc(s, sz);
      if p == 0 || !Held(s1, ptr) then (s, 0) else (Free(s1, ptr), p)
  }

  lemma Gap(s: Small)
    requires Inv(s)
    ensures |s.blocks| > 0 && Ordered(s.blocks)
    ensures forall i :: 0 <= i < |s.blocks| ==>
              0 <= s.blocks[i].addr
              && s.blocks[i].addr + GAP <= s.blocks[i].end <= End(s)
    ensures MIN_ALIGNED <= s.total < WORD && s.used == UsedBytes(s.blocks) && s.maxUsed >= s.used
  {
    TiledOrdered(s.blocks, 0, End(s), GAP);
  }

  /** No sum in a test wraps: the sizes compared are at most the arena's, which lies in memory with two headers. */
  lemma SumsFit(s: Small, sz: int)
    requires Inv(s) && 0 <= sz <= s.total
    ensures sz + HDR + MIN_ALIGNED < WORD && sz + HDR + MIN_SIZE < WORD
  {
  }

  lemma IndexAtUnique(s: Small, i: int)
    requires Inv(s) && 0 <= i < |s.blocks|
    ensures IndexAt(s.blocks, s.blocks[i].addr) == i
  {
    hide Inv;
    Gap(s);
  }

  /** The one step every operation is: a window of the tiling is replaced, and the hint and counter follow. */
  lemma SpliceInv(s: Small, lo: int, hi: int, mid: seq<Block>, lf: int, u: int, mu: int)
    requires Inv(s) && 0 <= lo < hi <= |s.blocks| && |mid| > 0
    requires Tiled(mid, s.blocks[lo].addr, s.blocks[hi - 1].end, GAP) && NoFreePair(mid)
    requires lo > 0 ==> s.blocks[lo - 1].used || mid[0].used
    requires hi < |s.blocks| ==> mid[|mid| - 1].used || s.blocks[hi].used
    requires HintOk(Splice(s.blocks, lo, hi, mid), End(s), lf)
    requires u == s.used - UsedBytes(s.blocks[lo..hi]) + UsedBytes(mid) && mu >= u
    ensures Inv(s.(blocks := Splice(s.blocks, lo, hi, mid), lfree := lf, used := u, maxUsed := mu))
  {
    hide Splice, NoFreePair, Tiled, UsedBytes, HintOk;
    SpliceTiled(s.blocks, lo, hi, mid, 0, End(s), GAP);
    SpliceNoFreePair(s.blocks, lo, hi, mid);
    SpliceUsedBytes(s.blocks, lo, hi, mid);
  }

  lemma SpliceSets(s: Small, lo: int, hi: int, mid: seq<Block>)
    requires Inv(s) && 0 <= lo < hi <= |s.blocks|
    ensures FreeAddrs(Splice(s.blocks, lo, hi, mid)) == FreeAddrs(s.blocks) - FreeAddrs(s.blocks[lo..hi])
            + FreeAddrs(mid)
    ensures Live(Splice(s.blocks, lo, hi, mid)) == Live(s.blocks) - Live(s.blocks[lo..hi]) + Live(mid)
  {
    hide Inv, Splice, FreeAddrs, Live;
    Gap(s);
    SpliceMembers(s.blocks, lo, hi, mid);
  }

  lemma Window1(bs: seq<Block>, i: int)
    requires 0 <= i < |bs|
    ensures UsedBytes(bs[i..i + 1]) == (if bs[i].used then bs[i].end - bs[i].addr else 0)
    ensures FreeAddrs(bs[i..i + 1]) == (if bs[i].used then {} else {bs[i].addr})
    ensures Live(bs[i..i + 1]) == (if bs[i].used then {bs[i]} else {})
  {
    var w := bs[i..i + 1];
    assert w == [bs[i]] && w[1..] == [] && w[0] == bs[i];
  }

  lemma One(b: Block)
    ensures UsedBytes([b]) == (if b.used then b.end - b.addr else 0)
    ensures FreeAddrs([b]) == (if b.used then {} else {b.addr})
    ensures Live([b]) == (if b.used then {b} else {})
    ensures NoFreePair([b])
    ensures b.addr + GAP <= b.end ==> Tiled([b], b.addr, b.end, GAP)
  {
    Window1([b], 0);
    assert [b][0..1] == [b] && [b][0] == b;
  }

  lemma Two(a: Block, b: Block)
    ensures UsedBytes([a, b]) == (if a.used then a.end - a.addr else 0) + (if b.used then b.end - b.addr else 0)
    ensures FreeAddrs([a, b]) == (if a.used then {} else {a.addr}) + (if b.used then {} else {b.addr})
    ensures Live([a, b]) == (if a.used then {a} else {}) + (if b.used then {b} else {})
    ensures a.used || b.used ==> NoFreePair([a, b])
    ensures a.addr + GAP <= a.end == b.addr && b.addr + GAP <= b.end ==> Tiled([a, b], a.addr, b.end, GAP)
  {
    assert [a, b] == [a] + [b];
    One(a);
    One(b);
    UsedBytesConcat([a], [b]);
    MembersConcat([a], [b]);
  }

  lemma NextFreeListed(bs: seq<Block>, i: int, end: int)
    requires 0 <= i <= |bs|
    ensures HintOk(bs, end, NextFree(bs, i, end))
    decreases |bs| - i
  {
    if i < |bs| {
      assert !bs[i].used ==> bs[i].addr in FreeAddrs(bs);
      NextFreeListed(bs, i + 1, end);
    }
  }

  lemma NeighboursUsed(s: Small, i: int)
    requires Inv(s) && 0 <= i < |s.blocks| && !s.blocks[i].used
    ensures i > 0 ==> s.blocks[i - 1].used
    ensures i + 1 < |s.blocks| ==> s.blocks[i + 1].used
  {
  }

  /** The end of the block handed out. */
  function TakeEnd(s: Small, i: int, sz: int): int
    requires 0 <= i < |s.blocks|
  {
    var b := s.blocks[i];
    if Size(b) >= sz + HDR + MIN_ALIGNED then b.addr + HDR + sz else b.end
  }

  lemma TakeMeaning(s: Small, i: int, sz: int)
    requires Inv(s) && 0 <= i < |s.blocks| && !s.blocks[i].used && MIN_ALIGNED <= sz <= Size(s.blocks[i])
    ensures Inv(Take(s, i, sz))
    ensures Live(Take(s, i, sz).blocks) == Live(s.blocks) + {Block(s.blocks[i].addr, TakeEnd(s, i, sz), true)}
    ensures Take(s, i, sz).used >= s.used
  {
    hide Inv, Splice, FreeAddrs, Live, NextFree, UsedBytes, Tiled, NoFreePair;
    var b := s.blocks[i];
    var rest := b.addr + HDR + sz;
    var split := Size(b) >= sz + HDR + MIN_ALIGNED;
    var mid := if split then [Block(b.addr, rest, true), Block(rest, b.end, false)] else [Block(b.addr, b.end, true)];
    Gap(s);
    NeighboursUsed(s, i);
    Window1(s.blocks, i);
    One(Block(b.addr, b.end, true));
    Two(Block(b.addr, rest, true), Block(rest, b.end, false));
    SpliceSets(s, i, i + 1, mid);
    var s' := Take(s, i, sz);
    SpliceLength(s.blocks, i, i + 1, mid);
    NextFreeListed(s'.blocks, i, End(s));
    HintStays(s, i, mid);
    SpliceInv(s, i, i + 1, mid, s'.lfree, s'.used, s'.maxUsed);
  }

  /** A hint elsewhere survives the block at i being taken. */
  lemma HintStays(s: Small, i: int, mid: seq<Block>)
    requires Inv(s) && 0 <= i < |s.blocks| && !s.blocks[i].used
    ensures s.lfree != s.blocks[i].addr ==> HintOk(Splice(s.blocks, i, i + 1, mid), End(s), s.lfree)
  {
    SpliceSets(s, i, i + 1, mid);
    Window1(s.blocks, i);
  }

  /** The neighbours absorbed by block i when it becomes free. */
  lemma PlugMembers(bs: seq<Block>, i: int)
    requires 0 <= i < |bs| && bs[i].used
    ensures var lo, hi := LeftEdge(bs, i), RightEdge(bs, i);
            && 0 <= lo <= i < hi <= |bs|
            && Live(bs[lo..hi]) == {bs[i]}
            && FreeAddrs(bs[lo..hi]) == (if lo < i then {bs[lo].addr} else {})
                + (if hi == i + 2 then {bs[i + 1].addr} else {})
            && UsedBytes(bs[lo..hi]) == bs[i].end - bs[i].addr
  {
    hide UsedBytes, FreeAddrs, Live;
    var lo, hi := LeftEdge(bs, i), RightEdge(bs, i);
    Window1(bs, i);
    assert bs[lo..hi] == bs[lo..i] + bs[i..i + 1] + bs[i + 1..hi];
    if lo < i {
      Window1(bs, lo);
      assert bs[lo..i] == bs[lo..lo + 1];
    }
    if hi == i + 2 {
      Window1(bs, i + 1);
    }
    None();
    UsedBytesConcat(bs[lo..i] + bs[i..i + 1], bs[i + 1..hi]);
    UsedBytesConcat(bs[lo..i], bs[i..i + 1]);
    MembersConcat(bs[lo..i] + bs[i..i + 1], bs[i + 1..hi]);
    MembersConcat(bs[lo..i], bs[i..i + 1]);
  }

  lemma None()
    ensures UsedBytes([]) == 0 && FreeAddrs([]) == {} && Live([]) == {}
  {
  }

  lemma PlugEdges(s: Small, i: int)
    requires Inv(s) && 0 <= i < |s.blocks| && s.blocks[i].used
    ensures var bs, lo, hi := s.blocks, LeftEdge(s.blocks, i), RightEdge(s.blocks, i);
            && (lo > 0 ==> bs[lo - 1].used) && (hi < |bs| ==> bs[hi].used)
            && bs[lo].addr + GAP <= bs[hi - 1].end
            && (lo < i ==> bs[lo].addr < bs[i].addr)
            && (hi == i + 2 ==> bs[i + 1].addr == bs[i].end && bs[hi - 1].end >= bs[i].end + GAP)
  {
  }

  /** Marking block i free and plugging, seen as one splice. */
  lemma PluggedShape(bs: seq<Block>, i: int, lf: int)
    requires 0 <= i < |bs|
    ensures var r := Splice(bs, i, i + 1, [Block(bs[i].addr, bs[i].end, false)]);
            var lo, hi := LeftEdge(bs, i), RightEdge(bs, i);
            && i < |r| && LeftEdge(r, i) == lo && RightEdge(r, i) == hi && PlugHint(r, i, lf) == PlugHint(bs, i, lf)
            && Splice(r, lo, hi, [Block(r[lo].addr, r[hi - 1].end, false)])
               == Splice(bs, lo, hi, [Block(bs[lo].addr, bs[hi - 1].end, false)])
  {
    var r := Splice(bs, i, i + 1, [Block(bs[i].addr, bs[i].end, false)]);
    assert forall k :: 0 <= k < |r| && k != i ==> r[k] == bs[k];
  }

  /** rt_free as one splice. */
  lemma FreeShape(s: Small, ptr: int)
    requires Inv(s) && Held(s, ptr)
    ensures var i := IndexOf(s, ptr);
            var bs, lo, hi := s.blocks, LeftEdge(s.blocks, i), RightEdge(s.blocks, i);
            Free(s, ptr) == s.(blocks := Splice(bs, lo, hi, [Block(bs[lo].addr, bs[hi - 1].end, false)]),
                               lfree := PlugHint(bs, i, Min(s.lfree, bs[i].addr)),
                               used := s.used - (bs[i].end - bs[i].addr))
  {
    hide Inv, Splice, PlugHint, LeftEdge, RightEdge;
    var i := IndexOf(s, ptr);
    PluggedShape(s.blocks, i, Min(s.lfree, s.blocks[i].addr));
  }

  lemma FreeSets(s: Small, ptr: int)
    requires Inv(s) && Held(s, ptr)
    ensures var i := IndexOf(s, ptr);
            var bs, lo, hi := s.blocks, LeftEdge(s.blocks, i), RightEdge(s.blocks, i);
            && FreeAddrs(Free(s, ptr).blocks)
               == FreeAddrs(bs) - ((if lo < i then {bs[lo].addr} else {})
                   + (if hi == i + 2 then {bs[i + 1].addr} else {})) + {bs[lo].addr}
            && Live(Free(s, ptr).blocks) == Live(bs) - {BlockOf(s, ptr)}
  {
    hide Inv, Splice, FreeAddrs, Live, Free, LeftEdge, RightEdge;
    var i := IndexOf(s, ptr);
    var bs, lo, hi := s.blocks, LeftEdge(s.blocks, i), RightEdge(s.blocks, i);
    PlugMembers(s.blocks, i);
    PlugEdges(s, i);
    FreeShape(s, ptr);
    SpliceSets(s, lo, hi, [Block(bs[lo].addr, bs[hi - 1].end, false)]);
    One(Block(bs[lo].addr, bs[hi - 1].end, false));
  }

  lemma HintIsOk(s: Small)
    requires Inv(s)
    ensures HintOk(s.blocks, End(s), s.lfree)
  {
  }

  /** Where the hint is after a free: on a free block, and on the lowest one if it was before. */
  lemma FreeHint(s: Small, ptr: int)
    requires Inv(s) && Held(s, ptr)
    ensures HintOk(Free(s, ptr).blocks, End(s), Free(s, ptr).lfree)
  {
    hide Inv, Splice, FreeAddrs, Live, Free, UsedBytes;
    var i := IndexOf(s, ptr);
    HintIsOk(s);
    FreeShape(s, ptr);
    PlugEdges(s, i);
    FreeSets(s, ptr);
    LeftListed(s, i);
    Gap(s);
  }

  /** After a free lfree is the lower of what it was and the header of the block the freed one is now part of. */
  lemma FreeHintOutcome(s: Small, ptr: int)
    requires Inv(s) && Held(s, ptr)
    ensures var i := IndexOf(s, ptr);
            var merged := if i > 0 && !s.blocks[i - 1].used then s.blocks[i - 1].addr else s.blocks[i].addr;
            Free(s, ptr).lfree == Min(s.lfree, merged)
  {
    hide Inv, Splice, FreeAddrs, Live, Free, UsedBytes;
    var i := IndexOf(s, ptr);
    FreeShape(s, ptr);
    Gap(s);
    PlugEdges(s, i);
    if i > 0 {
      HintBetween(s, i);
    }
  }

  /** The hint is not strictly between the headers of two neighbours. */
  lemma HintBetween(s: Small, i: int)
    requires Inv(s) && 0 < i < |s.blocks|
    ensures s.lfree <= s.blocks[i - 1].addr || s.blocks[i].addr <= s.lfree
  {
    Gap(s);
    if s.lfree != End(s) {
      var j :| 0 <= j < |s.blocks| && !s.blocks[j].used && s.blocks[j].addr == s.lfree;
      assert j <= i - 1 || i <= j;
    }
  }

  lemma FreeLowest(s: Small, ptr: int)
    requires Inv(s) && Held(s, ptr) && Lowest(s)
    ensures Lowest(Free(s, ptr))
  {
    hide Inv, Splice, FreeAddrs, Live, Free, UsedBytes;
    var i := IndexOf(s, ptr);
    FreeShape(s, ptr);
    Gap(s);
    PlugEdges(s, i);
    FreeSets(s, ptr);
    LeftListed(s, i);
  }

  lemma LeftListed(s: Small, i: int)
    requires 0 <= i < |s.blocks|
    ensures LeftEdge(s.blocks, i) < i ==> s.blocks[i - 1].addr in FreeAddrs(s.blocks)
  {
  }

  /** What rt_free promises. */
  lemma FreeMeaning(s: Small, ptr: int)
    requires Inv(s) && Held(s, ptr)
    ensures Inv(Free(s, ptr))
    ensures Live(Free(s, ptr).blocks) == Live(s.blocks) - {BlockOf(s, ptr)}
    ensures Lowest(s) ==> Lowest(Free(s, ptr))
  {
    hide Inv, Splice, FreeAddrs, Live, Free, HintOk, Lowest, PlugHint, LeftEdge, RightEdge, UsedBytes, Tiled,
        NoFreePair;
    var i := IndexOf(s, ptr);
    var bs, lo, hi := s.blocks, LeftEdge(s.blocks, i), RightEdge(s.blocks, i);
    PlugMembers(s.blocks, i);
    PlugEdges(s, i);
    var b := Block(bs[lo].addr, bs[hi - 1].end, false);
    FreeHint(s, ptr);
    if Lowest(s) {
      FreeLowest(s, ptr);
    }
    FreeSets(s, ptr);
    FreeShape(s, ptr);
    Gap(s);
    One(b);
    SpliceInv(s, lo, hi, [b], Free(s, ptr).lfree, Free(s, ptr).used, s.maxUsed);
  }

  /** The in-place shrink as one splice. */
  lemma CutShape(s: Small, i: int, sz: int)
    requires 0 <= i < |s.blocks| && s.blocks[i].used
    ensures var bs, hi, rest := s.blocks, RightEdge(s.blocks, i), s.blocks[i].addr + HDR + sz;
            Cut(s, i, sz)
                == s.(blocks := Splice(bs, i, hi, [Block(bs[i].addr, rest, true), Block(rest, bs[hi - 1].end, false)]),
                                lfree := if hi == i + 2 && s.lfree == bs[i + 1].addr then rest else s.lfree,
                                used := s.used - (Size(bs[i]) - sz))
  {
    var bs, hi, rest := s.blocks, RightEdge(s.blocks, i), s.blocks[i].addr + HDR + sz;
    var r := Splice(bs, i, i + 1, [Block(bs[i].addr, rest, true), Block(rest, bs[i].end, false)]);
    assert r[i] == Block(bs[i].addr, rest, true) && r[i + 1] == Block(rest, bs[i].end, false);
    if i + 1 < |bs| {
      assert r[i + 2] == bs[i + 1];
    }
    assert r[..i + 1] == bs[..i] + [Block(bs[i].addr, rest, true)];
    assert r[hi + 1..] == bs[hi..];
  }

  lemma CutSets(s: Small, i: int, sz: int)
    requires Inv(s) && 0 <= i < |s.blocks| && s.blocks[i].used
    ensures var bs, hi, rest := s.blocks, RightEdge(s.blocks, i), s.blocks[i].addr + HDR + sz;
            && FreeAddrs(Cut(s, i, sz).blocks) == FreeAddrs(bs) - (if hi == i + 2 then {bs[i + 1].addr} else {})
                + {rest}
            && Live(Cut(s, i, sz).blocks) == Live(bs) - {bs[i]} + {Block(bs[i].addr, rest, true)}
  {
    hide Inv, Splice, FreeAddrs, Live, Cut, RightEdge;
    var bs, hi, rest := s.blocks, RightEdge(s.blocks, i), s.blocks[i].addr + HDR + sz;
    CutWindow(s, i);
    CutShape(s, i, sz);
    SpliceSets(s, i, hi, [Block(bs[i].addr, rest, true), Block(rest, bs[hi - 1].end, false)]);
    Two(Block(bs[i].addr, rest, true), Block(rest, bs[hi - 1].end, false));
  }

  /**
   * The hint after an in-place shrink: it stays lowest exactly when it was below the block, or the rest joined a
   * free block.
   */
  lemma CutHint(s: Small, i: int, sz: int)
    requires Inv(s) && 0 <= i < |s.blocks| && s.blocks[i].used && sz >= 8 && sz + HDR + MIN_SIZE < Size(s.blocks[i])
    ensures HintOk(Cut(s, i, sz).blocks, End(s), Cut(s, i, sz).lfree)
    ensures Lowest(s) ==> (Lowest(Cut(s, i, sz)) <==> s.lfree < s.blocks[i].addr || RightEdge(s.blocks, i) == i + 2)
  {
    hide Inv, Splice, FreeAddrs, Live, Cut, UsedBytes;
    HintIsOk(s);
    CutShape(s, i, sz);
    NoHeaderInside(s, i);
    Gap(s);
    CutWindow(s, i);
    CutSets(s, i, sz);
    if RightEdge(s.blocks, i) == i + 2 {
      NextFreeBlock(s, i);
    }
  }

  lemma NextFreeBlock(s: Small, i: int)
    requires Inv(s) && 0 <= i && i + 1 < |s.blocks| && !s.blocks[i + 1].used
    ensures s.blocks[i + 1].addr in FreeAddrs(s.blocks)
  {
  }

  /** No free header lies in a used block. */
  lemma NoHeaderInside(s: Small, i: int)
    requires Inv(s) && 0 <= i < |s.blocks| && s.blocks[i].used
    ensures forall a :: a in FreeAddrs(s.blocks) ==> a < s.blocks[i].addr || a >= s.blocks[i].end
  {
    Gap(s);
  }

  lemma CutWindow(s: Small, i: int)
    requires Inv(s) && 0 <= i < |s.blocks| && s.blocks[i].used
    ensures var bs, hi := s.blocks, RightEdge(s.blocks, i);
            && i < hi <= |bs|
            && Live(bs[i..hi]) == {bs[i]}
            && FreeAddrs(bs[i..hi]) == (if hi == i + 2 then {bs[i + 1].addr} else {})
            && UsedBytes(bs[i..hi]) == bs[i].end - bs[i].addr
            && (hi < |bs| ==> bs[hi].used)
            && bs[hi - 1].end >= bs[i].end && (hi == i + 2 ==> bs[i + 1].addr == bs[i].end)
  {
    var bs, hi := s.blocks, RightEdge(s.blocks, i);
    Window1(bs, i);
    assert bs[i..hi] == bs[i..i + 1] + bs[i + 1..hi];
    if hi == i + 2 {
      Window1(bs, i + 1);
    }
    UsedBytesConcat(bs[i..i + 1], bs[i + 1..hi]);
    MembersConcat(bs[i..i + 1], bs[i + 1..hi]);
  }

  lemma CutMeaning(s: Small, i: int, sz: int)
    requires Inv(s) && 0 <= i < |s.blocks| && s.blocks[i].used && sz >= 8 && sz + HDR + MIN_SIZE < Size(s.blocks[i])
    ensures Inv(Cut(s, i, sz))
  {
    hide Inv, Splice, FreeAddrs, Live, Cut, HintOk, Lowest, UsedBytes, Tiled, NoFreePair;
    var bs, hi, rest := s.blocks, RightEdge(s.blocks, i), s.blocks[i].addr + HDR + sz;
    CutWindow(s, i);
    var x, y := Block(bs[i].addr, rest, true), Block(rest, bs[hi - 1].end, false);
    CutHint(s, i, sz);
    CutShape(s, i, sz);
    Gap(s);
    Two(x, y);
    SpliceInv(s, i, hi, [x, y], Cut(s, i, sz).lfree, Cut(s, i, sz).used, s.maxUsed);
  }

  /** The block rt_malloc hands out. */
  function Given(s: Small, size: int): Block
    requires Malloc(s, size).1 != 0
  {
    var i := Scan(s, Request(size), IndexAt(s.blocks, s.lfree));
    if i < |s.blocks| then Block(s.blocks[i].addr, TakeEnd(s, i, Request(size)), true) else Block(0, 0, true)
  }

  lemma ScanFits(s: Small, sz: int, i: int)
    requires Inv(s) && 0 <= i <= |s.blocks|
    ensures Scan(s, sz, i) == |s.blocks| ==> forall j :: i <= j < |s.blocks| ==> !Fits(s, sz, j)
    ensures forall j :: i <= j < Scan(s, sz, i) ==> !Fits(s, sz, j)
    decreases |s.blocks| - i
  {
    Gap(s);
    if i < |s.blocks| && s.blocks[i].addr < s.total - sz && !Fits(s, sz, i) {
      ScanFits(s, sz, i + 1);
    }
  }

  /** What rt_malloc promises: exactly one more live block, big enough, or no change. */
  lemma MallocMeaning(s: Small, size: int)
    requires Inv(s)
    ensures Inv(Malloc(s, size).0)
    ensures Malloc(s, size).1 == 0 ==> Malloc(s, size).0 == s
    ensures Malloc(s, size).1 != 0 ==>
              && Data(s, Given(s, size)) == Malloc(s, size).1
              && Size(Given(s, size)) >= Request(size)
              && Live(Malloc(s, size).0.blocks) == Live(s.blocks) + {Given(s, size)}
    ensures Malloc(s, size).0.base == s.base && Malloc(s, size).0.total == s.total
  {
    hide Inv, Live, Request, Take, FreeAddrs;
    RequestMin(size);
    Gap(s);
    BasePositive(s);
    var i := Scan(s, Request(size), IndexAt(s.blocks, s.lfree));
    if size != 0 && AlignUp(size) <= s.total && i < |s.blocks| {
      TakeMeaning(s, i, Request(size));
      TakeFixed(s, i, Request(size));
    }
  }

  lemma BasePositive(s: Small)
    requires Inv(s)
    ensures s.base > 0
  {
  }

  lemma TakeFixed(s: Small, i: int, sz: int)
    requires 0 <= i < |s.blocks|
    ensures Take(s, i, sz).base == s.base && Take(s, i, sz).total == s.total
  {
    hide Splice, NextFree;
  }

  lemma RequestMin(size: int)
    ensures Request(size) >= MIN_ALIGNED
  {
  }

  /** First fit: the lowest block at or after lfree that the loop accepts, and RT_NULL only when there is none. */
  lemma MallocFirstFit(s: Small, size: int)
    requires Inv(s) && 0 < size && AlignUp(size) <= s.total
    ensures var p := Malloc(s, size).1;
            p != 0 <==> exists i :: 0 <= i < |s.blocks| && s.blocks[i].addr >= s.lfree && Fits(s, Request(size), i)
    ensures var p := Malloc(s, size).1;
            p != 0 ==> exists i :: 0 <= i < |s.blocks| && Data(s, s.blocks[i]) == p
                         && s.blocks[i].addr >= s.lfree && Fits(s, Request(size), i)
                         && (forall j :: 0 <= j < i && s.blocks[j].addr >= s.lfree ==> !Fits(s, Request(size), j))
  {
    hide Live, FreeAddrs, Request, Splice;
    var sz := Request(size);
    var k := IndexAt(s.blocks, s.lfree);
    HintIndex(s);
    hide Inv;
    ScanFits(s, sz, k);
    Gap(s);
    BasePositive(s);
    var i := Scan(s, sz, k);
    if i < |s.blocks| {
      assert Data(s, s.blocks[i]) == Malloc(s, size).1;
      assert s.blocks[i].addr >= s.lfree;
    }
  }

  /** lfree is the header at its own index, or past every block. */
  lemma HintIndex(s: Small)
    requires Inv(s)
    ensures var k := IndexAt(s.blocks, s.lfree);
            && (k < |s.blocks| ==> s.blocks[k].addr == s.lfree && !s.blocks[k].used)
            && (forall j :: 0 <= j < |s.blocks| ==> (s.blocks[j].addr >= s.lfree <==> j >= k))
  {
    Gap(s);
    var k := IndexAt(s.blocks, s.lfree);
    if s.lfree != End(s) {
      var j :| 0 <= j < |s.blocks| && !s.blocks[j].used && s.blocks[j].addr == s.lfree;
      IndexAtUnique(s, j);
    } else {
      assert forall j :: 0 <= j < |s.blocks| ==> s.blocks[j].addr < s.lfree;
    }
  }

  /** Some free block has room for the request. */
  ghost predicate Room(s: Small, size: int) {
    exists i :: 0 <= i < |s.blocks| && !s.blocks[i].used && Size(s.blocks[i]) >= Request(size)
  }

  /**
   * With the hint lowest, a request that has room is refused exactly when only the last block has room, to the
   * byte.
   */
  lemma MallocSucceeds(s: Small, size: int)
    requires Inv(s) && Lowest(s) && 0 < size && AlignUp(size) <= s.total
    ensures Malloc(s, size).1 != 0 ==> Room(s, size)
    ensures Room(s, size) ==>
              (Malloc(s, size).1 == 0 <==>
                forall i :: 0 <= i < |s.blocks| && !s.blocks[i].used && Size(s.blocks[i]) >= Request(size)
                  ==> i == |s.blocks| - 1 && Size(s.blocks[i]) == Request(size))
  {
    hide Request;
    var sz := Request(size);
    MallocFirstFit(s, size);
    Gap(s);
    forall i | 0 <= i < |s.blocks| && !s.blocks[i].used
      ensures s.blocks[i].addr >= s.lfree
    {
      assert s.blocks[i].addr in FreeAddrs(s.blocks);
    }
    forall i | 0 <= i < |s.blocks| && !s.blocks[i].used && Size(s.blocks[i]) >= sz
      ensures Fits(s, sz, i) || (i == |s.blocks| - 1 && Size(s.blocks[i]) == sz)
      ensures i == |s.blocks| - 1 && Size(s.blocks[i]) == sz ==> !Fits(s, sz, i)
    {
      LastEnd(s, i);
    }
  }

  lemma LastEnd(s: Small, i: int)
    requires Inv(s) && 0 <= i < |s.blocks|
    ensures i == |s.blocks| - 1 ==> s.blocks[i].end == End(s)
    ensures i < |s.blocks| - 1 ==> s.blocks[i].end + GAP <= End(s)
  {
    Gap(s);
  }

  /** A fresh heap refuses a request for all of it, although the block would hold it. */
  lemma WholeHeapRefused(base: int)
    requires base > 0 && base + 48 <= WORD
    ensures Room(Init(base, 16), 16) && Malloc(Init(base, 16), 16).1 == 0
  {
    var s := Init(base, 16);
    InitInv(base, 16);
    assert AlignUp(16) == 16;
    assert !s.blocks[0].used && Size(s.blocks[0]) == 16;
  }

  lemma SplicePrefix(bs: seq<Block>, i: int, mid: seq<Block>)
    requires 0 <= i < |bs| && |mid| > 0
    ensures |Splice(bs, i, i + 1, mid)| > i
    ensures forall j :: 0 <= j < i ==> Splice(bs, i, i + 1, mid)[j] == bs[j]
  {
  }

  /** When the lowest free block is taken, the search for the next one starts behind used blocks only. */
  lemma TakeLowestAtHint(s: Small, i: int, sz: int)
    requires Inv(s) && Lowest(s) && 0 <= i < |s.blocks| && !s.blocks[i].used && MIN_ALIGNED <= sz <= Size(s.blocks[i])
    requires s.blocks[i].addr == s.lfree
    ensures Lowest(Take(s, i, sz))
  {
    var b := s.blocks[i];
    var rest := b.addr + HDR + sz;
    var mid := if Size(b) >= sz + HDR + MIN_ALIGNED then [Block(b.addr, rest, true), Block(rest, b.end, false)]
        else [Block(b.addr, b.end, true)];
    UsedBefore(s, i);
    hide Inv, Lowest, FreeAddrs, Splice, NextFree;
    SplicePrefix(s.blocks, i, mid);
    TakeMeaning(s, i, sz);
    Gap(Take(s, i, sz));
    NextFreeLowest(Take(s, i, sz).blocks, i, End(s));
    HintLowest(Take(s, i, sz));
  }

  lemma HintLowest(s: Small)
    requires forall a :: a in FreeAddrs(s.blocks) ==> s.lfree <= a
    ensures Lowest(s)
  {
  }

  /** The blocks after a take. */
  lemma TakeBlocks(s: Small, i: int, sz: int)
    requires 0 <= i < |s.blocks|
    ensures var b := s.blocks[i];
            var rest := b.addr + HDR + sz;
            Take(s, i, sz).blocks
            == Splice(s.blocks, i, i + 1, if Size(b) >= sz + HDR
                + MIN_ALIGNED then [Block(b.addr, rest, true), Block(rest, b.end, false)]
                                          else [Block(b.addr, b.end, true)])
    ensures s.blocks[i].addr != s.lfree ==> Take(s, i, sz).lfree == s.lfree
  {
    hide Splice, NextFree;
  }

  lemma FreeAddrAt(bs: seq<Block>, i: int)
    requires 0 <= i < |bs| && !bs[i].used
    ensures bs[i].addr in FreeAddrs(bs)
  {
  }

  lemma TakeAddrs(s: Small, i: int, sz: int)
    requires Inv(s) && 0 <= i < |s.blocks| && !s.blocks[i].used
    ensures FreeAddrs(Take(s, i, sz).blocks)
         == FreeAddrs(s.blocks) - {s.blocks[i].addr}
            + (if Size(s.blocks[i]) >= sz + HDR + MIN_ALIGNED then {s.blocks[i].addr + HDR + sz} else {})
    ensures s.blocks[i].addr in FreeAddrs(s.blocks)
    ensures s.blocks[i].addr != s.lfree ==> Take(s, i, sz).lfree == s.lfree
  {
    var b := s.blocks[i];
    var rest := b.addr + HDR + sz;
    hide Inv, FreeAddrs, Splice, NextFree, Live, UsedBytes, Take, Size;
    FreeAddrAt(s.blocks, i);
    TakeBlocks(s, i, sz);
    Window1(s.blocks, i);
    if Size(b) >= sz + HDR + MIN_ALIGNED {
      SpliceSets(s, i, i + 1, [Block(b.addr, rest, true), Block(rest, b.end, false)]);
      Two(Block(b.addr, rest, true), Block(rest, b.end, false));
    } else {
      SpliceSets(s, i, i + 1, [Block(b.addr, b.end, true)]);
      One(Block(b.addr, b.end, true));
    }
  }

  /** When another block is taken, the hint and the blocks below it are untouched. */
  lemma TakeLowestElsewhere(s: Small, i: int, sz: int)
    requires Inv(s) && Lowest(s) && 0 <= i < |s.blocks| && !s.blocks[i].used && MIN_ALIGNED <= sz <= Size(s.blocks[i])
    requires s.blocks[i].addr != s.lfree
    ensures Lowest(Take(s, i, sz))
  {
    hide Inv, FreeAddrs, Take;
    TakeAddrs(s, i, sz);
  }

  /**
   * A malloc moves lfree only when it takes the block there, and then to the next free block, or to the end
   * without one.
   */
  lemma MallocHintOutcome(s: Small, size: int)
    requires Inv(s) && Malloc(s, size).1 != 0
    ensures var r := Malloc(s, size).0;
            if s.base + s.lfree + HDR != Malloc(s, size).1 then r.lfree == s.lfree
            else
              && HintOk(r.blocks, End(s), r.lfree)
              && forall a :: a in FreeAddrs(r.blocks) && a >= s.lfree ==> r.lfree <= a
  {
    hide Inv, FreeAddrs, Splice, NextFree, Request, Take;
    var i, sz := Scan(s, Request(size), IndexAt(s.blocks, s.lfree)), Request(size);
    RequestMin(size);
    MallocMeaning(s, size);
    TakeBlocks(s, i, sz);
    if s.blocks[i].addr == s.lfree {
      var r := Take(s, i, sz);
      TakeAtHint(s, i, sz);
      Gap(r);
      NextFreeAfter(r.blocks, i, End(s), s.lfree);
      NextFreeListed(r.blocks, i, End(s));
    }
  }

  lemma TakeAtHint(s: Small, i: int, sz: int)
    requires 0 <= i < |s.blocks| && s.blocks[i].addr == s.lfree
    ensures var r := Take(s, i, sz);
            && i < |r.blocks| && r.lfree == NextFree(r.blocks, i, End(s)) && r.blocks[i].addr == s.lfree
                && End(r) == End(s)
  {
    hide NextFree;
  }

  lemma {:induction false} NextFreeAfter(bs: seq<Block>, i: int, end: int, from: int)
    requires 0 <= i <= |bs| && Ordered(bs) && (i < |bs| ==> bs[i].addr >= from)
    requires forall j :: 0 <= j < |bs| ==> bs[j].addr < bs[j].end <= end
    requires forall j :: 0 <= j < i ==> bs[j].used || bs[j].addr < from
    ensures forall a :: a in FreeAddrs(bs) && a >= from ==> NextFree(bs, i, end) <= a
    decreases |bs| - i
  {
    if i < |bs| && bs[i].used {
      NextFreeAfter(bs, i + 1, end, from);
    }
  }

  lemma UsedBefore(s: Small, i: int)
    requires Inv(s) && Lowest(s) && 0 <= i < |s.blocks| && s.blocks[i].addr == s.lfree
    ensures forall j :: 0 <= j < i ==> s.blocks[j].used
  {
    Gap(s);
    assert forall j :: 0 <= j < i && !s.blocks[j].used ==> s.blocks[j].addr in FreeAddrs(s.blocks);
  }

  lemma {:induction false} NextFreeLowest(bs: seq<Block>, i: int, end: int)
    requires 0 <= i <= |bs| && Ordered(bs)
    requires forall j :: 0 <= j < |bs| ==> bs[j].addr < bs[j].end <= end
    requires forall j :: 0 <= j < i ==> bs[j].used
    ensures forall a :: a in FreeAddrs(bs) ==> NextFree(bs, i, end) <= a
    decreases |bs| - i
  {
    if i < |bs| && bs[i].used {
      NextFreeLowest(bs, i + 1, end);
    }
  }

  /** rt_malloc keeps the hint on the lowest free block. */
  lemma MallocLowest(s: Small, size: int)
    requires Inv(s) && Lowest(s)
    ensures Lowest(Malloc(s, size).0)
  {
    hide Inv, Lowest, Request, Take;
    RequestMin(size);
    var i := Scan(s, Request(size), IndexAt(s.blocks, s.lfree));
    if size != 0 && AlignUp(size) <= s.total && i < |s.blocks| {
      if s.blocks[i].addr == s.lfree {
        TakeLowestAtHint(s, i, Request(size));
      } else {
        TakeLowestElsewhere(s, i, Request(size));
      }
    }
  }

  /** Used and free extents, headers included, always add up to the arena. */
  lemma Extents(s: Small)
    requires Inv(s)
    ensures s.used + FreeBytes(s.blocks, 0) == s.total + HDR
  {
    TiledBytes(s.blocks, 0, End(s), GAP);
  }

  lemma LiveUnique(s: Small, b: Block)
    requires Inv(s) && b in Live(s.blocks)
    ensures Held(s, Data(s, b)) && BlockOf(s, Data(s, b)) == b
  {
    var i :| 0 <= i < |s.blocks| && s.blocks[i] == b;
    IndexAtUnique(s, i);
  }

  lemma HeldIsLive(s: Small, ptr: int)
    requires Held(s, ptr)
    ensures BlockOf(s, ptr) in Live(s.blocks) && Data(s, BlockOf(s, ptr)) == ptr
  {
  }

  /** Live blocks never overlap, and stay inside the arena. */
  lemma LiveDisjoint(s: Small, b: Block, c: Block)
    requires Inv(s) && b in Live(s.blocks) && c in Live(s.blocks) && b != c
    ensures b.end <= c.addr || c.end <= b.addr
    ensures 0 <= b.addr && b.addr + GAP <= b.end <= End(s)
  {
    Gap(s);
  }

  /** The block handed out was not live before. */
  lemma GivenWasFree(s: Small, size: int)
    requires Inv(s) && Malloc(s, size).1 != 0
    ensures forall b :: b in Live(s.blocks) ==> b.addr != Given(s, size).addr
  {
    hide FreeAddrs, Request;
    var i := Scan(s, Request(size), IndexAt(s.blocks, s.lfree));
    forall b | b in Live(s.blocks) ensures b.addr != s.blocks[i].addr {
      LiveUnique(s, b);
      IndexAtUnique(s, i);
    }
  }

  lemma MoveMeaning(s: Small, ptr: int, sz: int)
    requires Inv(s) && Held(s, ptr)
    ensures var (s1, p) := Malloc(s, sz);
            p != 0 ==>
              && Inv(s1) && Held(s1, ptr) && BlockOf(s1, ptr) == BlockOf(s, ptr) && Given(s, sz) != BlockOf(s, ptr)
              && Inv(Free(s1, ptr))
              && Live(Free(s1, ptr).blocks) == Live(s.blocks) - {BlockOf(s, ptr)} + {Given(s, sz)}
  {
    hide Inv, Malloc, Free, Live, Lowest;
    var (s1, p) := Malloc(s, sz);
    MallocMeaning(s, sz);
    if p != 0 {
      var b := BlockOf(s, ptr);
      HeldIsLive(s, ptr);
      GivenWasFree(s, sz);
      LiveUnique(s1, b);
      FreeMeaning(s1, ptr);
    }
  }

  /** What rt_realloc promises for a held pointer, on each of its paths. */
  lemma ResizeMeaning(s: Small, ptr: int, sz: int)
    requires Inv(s) && Held(s, ptr) && 8 <= sz <= WORD - 8
    ensures var (s', p) := Resize(s, ptr, sz);
            && Inv(s')
            && (p == 0 ==> s' == s)
            && (p != 0 ==> exists b :: b in Live(s'.blocks) && Data(s, b) == p && Size(b) >= sz
                                    && Live(s'.blocks) == Live(s.blocks) - {BlockOf(s, ptr)} + {b})
  {
    hide Inv, Malloc, Free, Live, Cut, Lowest, Request;
    var i := IndexOf(s, ptr);
    var b := BlockOf(s, ptr);
    HeldIsLive(s, ptr);
    Gap(s);
    BasePositive(s);
    match PlanOf(s, ptr, sz)
    case Same =>
      assert Live(s.blocks) == Live(s.blocks) - {b} + {b};
    case Shrink =>
      CutMeaning(s, i, sz);
      CutSets(s, i, sz);
      CutHint(s, i, sz);
      assert Block(b.addr, b.addr + HDR + sz, true) in Live(Cut(s, i, sz).blocks);
    case Move =>
      MoveMeaning(s, ptr, sz);
      MallocMeaning(s, sz);
      if Malloc(s, sz).1 != 0 {
        assert Given(s, sz) in Live(Free(Malloc(s, sz).0, ptr).blocks);
        AlignedRequest(sz);
      }
  }

  lemma AlignedRequest(sz: int)
    ensures 0 <= sz <= WORD - 8 ==> Request(sz) >= sz
  {
    if 0 <= sz <= WORD - 8 {
      AlignUpCovers(sz);
    }
  }

  /** A block that is not split is at most a header and the minimum longer than asked for. */
  lemma GivenTight(s: Small, size: int)
    requires Malloc(s, size).1 != 0
    ensures Size(Given(s, size)) < Request(size) + HDR + MIN_ALIGNED
  {
    hide Request, Splice;
  }

  /** A block handed out covers the request, except for the seven sizes whose rounding wraps. */
  lemma MallocCovers(s: Small, size: int)
    requires Inv(s) && 0 < size < WORD && Malloc(s, size).1 != 0
    ensures Size(Given(s, size)) >= size <==> size <= 0xFFFF_FFF8
  {
    MallocMeaning(s, size);
    AlignUpCovers(size);
    if size > 0xFFFF_FFF8 {
      assert Request(size) == MIN_ALIGNED;
      assert Size(Given(s, size)) < MIN_ALIGNED + HDR + MIN_ALIGNED;
    }
  }

  lemma HeldInside(s: Small, ptr: int)
    requires Inv(s) && Held(s, ptr)
    ensures s.base <= ptr < s.base + End(s)
  {
    Gap(s);
  }

  lemma IllegalIs(s: Small, ptr: int)
    requires Inv(s) && (Held(s, ptr) || Illegal(s, ptr))
    ensures Illegal(s, ptr) == (ptr < s.base || ptr >= s.base + End(s)) && Held(s, ptr) == !Illegal(s, ptr)
  {
    if Held(s, ptr) {
      HeldInside(s, ptr);
    }
  }

  /** A failed non-zero rt_realloc leaves the heap as it was, except for those seven sizes, which free the block. */
  lemma ReallocFailure(s: Small, ptr: int, size: int)
    requires Inv(s) && Held(s, ptr) && 0 < size < WORD
    ensures size > 0xFFFF_FFF8 ==> Realloc(s, ptr, size) == (Free(s, ptr), 0)
    ensures (Realloc(s, ptr, size).1 == 0 ==> Realloc(s, ptr, size).0 == s) <==> size <= 0xFFFF_FFF8
  {
    hide Inv, Free, Live, Resize, Malloc, Lowest, Illegal, Held;
    AlignUpCovers(size);
    IllegalIs(s, ptr);
    Gap(s);
    BasePositive(s);
    if size > 0xFFFF_FFF8 {
      FreeChanges(s, ptr);
    } else {
      ResizeMeaning(s, ptr, AlignUp(size));
      MallocMeaning(s, AlignUp(size));
    }
  }

  lemma FreeChanges(s: Small, ptr: int)
    requires Inv(s) && Held(s, ptr)
    ensures Free(s, ptr) != s && ptr != 0
  {
    hide Inv, Free, Lowest;
    HeldIsLive(s, ptr);
    FreeMeaning(s, ptr);
    Gap(s);
    BasePositive(s);
    assert BlockOf(s, ptr) !in Live(Free(s, ptr).blocks);
  }

  /** What rt_realloc promises on every path, illegal pointers and sizes that round to zero included. */
  lemma ReallocMeaning(s: Small, ptr: int, size: int)
    requires Inv(s) && 0 <= size < WORD && (ptr == 0 || Held(s, ptr) || Illegal(s, ptr))
    ensures var (s', p) := Realloc(s, ptr, size);
            && Inv(s')
            && (ptr != 0 && Illegal(s, ptr) ==> s' == s)
            && (Held(s, ptr) && p == 0 ==> s' == if AlignUp(size) == 0 then Free(s, ptr) else s)
            && (Held(s, ptr) && p != 0 ==> exists b :: b in Live(s'.blocks) && Data(s, b) == p && Size(b) >= size
                                                    && Live(s'.blocks) == Live(s.blocks) - {BlockOf(s, ptr)} + {b})
            && (ptr == 0 && p == 0 ==> s' == s)
            && (ptr == 0 && p != 0 ==> exists b :: b !in Live(s.blocks) && Live(s'.blocks) == Live(s.blocks) + {b}
                                                && Data(s, b) == p && Size(b) >= size)
  {
    hide Inv, Free, Live, Resize, Malloc, Lowest, Illegal, Held;
    Gap(s);
    IllegalAt(s, ptr);
    var sz := AlignUp(size);
    AlignUpCovers(size);
    if sz <= s.total && sz != 0 {
      if ptr == 0 {
        MallocMeaning(s, sz);
        AlignedRequest(sz);
        if Malloc(s, sz).1 != 0 {
          assert Size(Given(s, sz)) >= size;
          GivenWasFree(s, sz);
        }
      } else {
        if Held(s, ptr) {
          ResizeMeaning(s, ptr, sz);
        }
      }
    } else {
      if Held(s, ptr) {
        FreeMeaning(s, ptr);
      }
    }
  }

  /**
   * Which way rt_realloc goes: a size that does not fit the arena is refused; a block of exactly that size stays;
   * one that leaves a header and the minimum is cut to exactly that size; any other block is replaced by what
   * rt_malloc hands out, and kept only if no block at or after lfree is large enough.
   */
  lemma ReallocOutcome(s: Small, ptr: int, size: int)
    requires Inv(s) && 0 <= size < WORD && (ptr == 0 || Held(s, ptr) || Illegal(s, ptr))
    ensures AlignUp(size) > s.total ==> Realloc(s, ptr, size) == (s, 0)
    ensures ptr == 0 && 0 < AlignUp(size) <= s.total ==> Realloc(s, ptr, size) == Malloc(s, AlignUp(size))
    ensures ptr != 0 && Illegal(s, ptr) && 0 < AlignUp(size) <= s.total ==> Realloc(s, ptr, size) == (s, ptr)
    ensures Held(s, ptr) && 0 < AlignUp(size) <= s.total ==>
              var b, sz, (s', p) := BlockOf(s, ptr), AlignUp(size), Realloc(s, ptr, size);
              if sz == Size(b) then (s', p) == (s, ptr)
              else if sz + HDR + MIN_SIZE < Size(b) then
                p == ptr && Live(s'.blocks) == Live(s.blocks) - {b} + {Block(b.addr, b.addr + HDR + sz, true)}
              else
                && p == Malloc(s, sz).1
                && (p == 0 <==>
                      forall i :: 0 <= i < |s.blocks| && s.blocks[i].addr >= s.lfree ==>
                        !Fits(s, Max(sz, MIN_ALIGNED), i))
                && (p == 0 ==> s' == s)
                && (p != 0 ==> Live(s'.blocks) == Live(s.blocks) - {b} + {Given(s, sz)})
  {
    hide Inv, Malloc, Free, Live, Cut, Lowest, Given, Illegal;
    Gap(s);
    IllegalAt(s, ptr);
    var sz := AlignUp(size);
    AlignUpCovers(size);
    if Held(s, ptr) && 0 < sz <= s.total {
      AlignedAgain(size);
      ResizeOutcome(s, ptr, sz);
    }
  }

  lemma AlignedAgain(size: int)
    ensures AlignUp(AlignUp(size)) == AlignUp(size) && Request(AlignUp(size)) == Max(AlignUp(size), MIN_ALIGNED)
    ensures AlignUp(size) != 0 ==> 8 <= AlignUp(size) <= WORD - 8
  {
    var x := AlignUp(size);
    assert x % 8 == 0 && 0 <= x < WORD;
    assert x <= WORD - 8;
    assert (x + 7) % WORD == x + 7;
  }

  lemma ResizeOutcome(s: Small, ptr: int, sz: int)
    requires Inv(s) && Held(s, ptr) && 8 <= sz <= s.total && AlignUp(sz) == sz
    ensures var b, (s', p) := BlockOf(s, ptr), Resize(s, ptr, sz);
            if sz == Size(b) then (s', p) == (s, ptr)
            else if sz + HDR + MIN_SIZE < Size(b) then
              p == ptr && Live(s'.blocks) == Live(s.blocks) - {b} + {Block(b.addr, b.addr + HDR + sz, true)}
            else
              && p == Malloc(s, sz).1
              && (p == 0 <==>
                    forall i :: 0 <= i < |s.blocks| && s.blocks[i].addr >= s.lfree ==> !Fits(s, Request(sz), i))
              && (p == 0 ==> s' == s)
              && (p != 0 ==> Live(s'.blocks) == Live(s.blocks) - {b} + {Given(s, sz)})
  {
    hide Inv, Malloc, Free, Live, Cut, Lowest, Request, Given, Fits;
    var i := IndexOf(s, ptr);
    if PlanOf(s, ptr, sz) == Shrink {
      CutSets(s, i, sz);
    } else if PlanOf(s, ptr, sz) == Move {
      MallocMeaning(s, sz);
      MoveMeaning(s, ptr, sz);
      MallocFirstFit(s, sz);
    }
  }

  /**
   * The block handed out is exactly as large as asked for if the rest can hold a header and the minimum, else the
   * whole block.
   */
  lemma MallocExact(s: Small, size: int)
    requires Inv(s) && Malloc(s, size).1 != 0
    ensures exists i :: 0 <= i < |s.blocks| && Data(s, s.blocks[i]) == Malloc(s, size).1 && !s.blocks[i].used
              && var b, sz := s.blocks[i], Request(size);
                 Live(Malloc(s, size).0.blocks)
                 == Live(s.blocks)
                    + {Block(b.addr, if Size(b) >= sz + HDR + MIN_ALIGNED then b.addr + HDR + sz else b.end, true)}
  {
    hide Inv, Live, Request, Take;
    MallocMeaning(s, size);
    var i := Scan(s, Request(size), IndexAt(s.blocks, s.lfree));
    assert Data(s, s.blocks[i]) == Malloc(s, size).1;
  }

  lemma IllegalAt(s: Small, ptr: int)
    requires Inv(s) && (ptr == 0 || Held(s, ptr) || Illegal(s, ptr))
    ensures Held(s, ptr) == !Illegal(s, ptr) && (ptr == 0 ==> Illegal(s, ptr))
  {
    hide Held;
    BasePositive(s);
    IllegalIs(s, ptr);
  }

  /** rt_free undoes rt_malloc: same blocks, same used_mem, and the same lfree if that was the lowest free block. */
  lemma FreeUndoesMalloc(s: Small, size: int)
    requires Inv(s) && 0 <= size < WORD && Malloc(s, size).1 != 0
    ensures var (s1, p) := Malloc(s, size);
            && Held(s1, p)
            && Free(s1, p).blocks == s.blocks && Free(s1, p).used == s.used
            && (Lowest(s) ==> Free(s1, p) == s.(maxUsed := s1.maxUsed))
  {
    hide Inv, Splice, FreeAddrs, Live, Lowest, Plug, UsedBytes;
    var sz := Request(size);
    var (s1, p) := Malloc(s, size);
    var i := Scan(s, sz, IndexAt(s.blocks, s.lfree));
    var b := s.blocks[i];
    MallocMeaning(s, size);
    NeighboursUsed(s, i);
    var rest := b.addr + HDR + sz;
    var mid := if Size(b) >= sz + HDR + MIN_ALIGNED then [Block(b.addr, rest, true), Block(rest, b.end, false)]
               else [Block(b.addr, b.end, true)];
    FreeBack(s.blocks, i, mid);
    IndexAtUnique(s1, i);
    FreeShape(s1, p);
    FreeMeaning(s1, p);
    if Lowest(s) {
      MallocLowest(s, size);
      LowestUnique(s, Free(s1, p));
    }
  }

  /** Freeing block i of r puts bs back, if r is bs with its free block i turned into mid. */
  lemma FreeBack(bs: seq<Block>, i: int, mid: seq<Block>)
    requires 0 <= i < |bs| && !bs[i].used
    requires i > 0 ==> bs[i - 1].used
    requires i + 1 < |bs| ==> bs[i + 1].used
    requires |mid| == 1 || (|mid| == 2 && !mid[1].used)
    requires mid[0].used && mid[0].addr == bs[i].addr && mid[|mid| - 1].end == bs[i].end
    ensures var r := Splice(bs, i, i + 1, mid);
            && i < |r| && r[i] == mid[0] && LeftEdge(r, i) == i && RightEdge(r, i) == i + |mid|
            && Splice(r, i, i + |mid|, [Block(r[i].addr, r[i + |mid| - 1].end, false)]) == bs
  {
    var r := Splice(bs, i, i + 1, mid);
    assert r[i] == mid[0] && r[i + |mid| - 1] == mid[|mid| - 1];
    if i + |mid| < |r| {
      assert r[i + |mid|] == bs[i + 1];
    }
    assert Block(r[i].addr, r[i + |mid| - 1].end, false) == bs[i];
  }

  /** The lowest hint is a function of the blocks. */
  lemma LowestUnique(s: Small, t: Small)
    requires Inv(s) && Inv(t) && Lowest(s) && Lowest(t) && s.blocks == t.blocks && s.total == t.total
    ensures s.lfree == t.lfree
  {
    hide FreeAddrs, Tiled, NoFreePair, UsedBytes;
    FreeBelowEnd(s);
  }

  lemma FreeBelowEnd(s: Small)
    requires Inv(s)
    ensures forall a :: a in FreeAddrs(s.blocks) ==> a < End(s)
  {
    hide Inv;
    Gap(s);
  }

  /** The steps of a run. A move is a malloc and a free, each under the semaphore on its own. */
  datatype Op = DoMalloc(size: int) | DoFree(ptr: int) | DoShrink(ptr: int, size: int)

  predicate Enabled(s: Small, op: Op) {
    match op
    case DoMalloc(_) => true
    case DoFree(ptr) => Held(s, ptr)
    case DoShrink(ptr, size) => Held(s, ptr) && AlignUp(size) >= 8 && PlanOf(s, ptr, AlignUp(size)) == Shrink
  }

  function Step(s: Small, op: Op): Small {
    if !Enabled(s, op) then s
    else match op
      case DoMalloc(size) => Malloc(s, size).0
      case DoFree(ptr) => Free(s, ptr)
      case DoShrink(ptr, size) => Cut(s, IndexOf(s, ptr), AlignUp(size))
  }

  /** max_mem after a step takes in the new use. */
  lemma StepTracks(s: Small, op: Op)
    requires Inv(s)
    ensures Step(s, op).maxUsed == Max(s.maxUsed, Step(s, op).used)
  {
    Gap(s);
    hide Inv, Ordered, Splice, NextFree, UsedBytes, PlugHint, LeftEdge, RightEdge, AlignUp;
  }

  /** A step keeps the invariant; only an in-place shrink can leave the hint above a free block. */
  lemma StepInv(s: Small, op: Op)
    requires Inv(s)
    ensures Inv(Step(s, op)) && Step(s, op).maxUsed == Max(s.maxUsed, Step(s, op).used)
    ensures Lowest(s) && !op.DoShrink? ==> Lowest(Step(s, op))
  {
    StepTracks(s, op);
    hide Inv, Malloc, Free, Cut, Lowest, Live, AlignUp;
    if Enabled(s, op) {
      match op
      case DoMalloc(size) =>
        MallocMeaning(s, size);
        if Lowest(s) {
          MallocLowest(s, size);
        }
      case DoFree(ptr) => FreeMeaning(s, ptr);
      case DoShrink(ptr, size) => CutMeaning(s, IndexOf(s, ptr), AlignUp(size));
    }
  }

  /** The states a run passes through. */
  function Trace(s: Small, ops: seq<Op>): (ss: seq<Small>)
    ensures |ss| == |ops| + 1 && ss[0] == s
    decreases |ops|
  {
    if ops == [] then [s] else [s] + Trace(Step(s, ops[0]), ops[1..])
  }

  /** The most bytes ever in use along a sequence of states. */
  function Peak(ss: seq<Small>): int
    requires ss != []
  {
    if |ss| == 1 then ss[0].used else Max(ss[0].used, Peak(ss[1..]))
  }

  lemma PeakCons(s: Small, ss: seq<Small>)
    ensures Peak([s] + ss) == if ss == [] then s.used else Max(s.used, Peak(ss))
  {
    assert ([s] + ss)[1..] == ss;
  }

  lemma PeakFirst(ss: seq<Small>)
    requires ss != []
    ensures Peak(ss) >= ss[0].used
  {
  }

  /**
   * Every state of every run is well formed, the hint is lowest while no shrink happens, and max_mem is the true
   * maximum.
   */
  lemma {:induction false} RunSafe(s: Small, ops: seq<Op>)
    requires Inv(s)
    ensures forall i :: 0 <= i < |Trace(s, ops)| ==> Inv(Trace(s, ops)[i])
    ensures Lowest(s) && (forall i :: 0 <= i < |ops| ==> !ops[i].DoShrink?) ==> Lowest(Trace(s, ops)[|ops|])
    ensures Trace(s, ops)[|ops|].maxUsed == Max(s.maxUsed, Peak(Trace(s, ops)))
    decreases |ops|
  {
    hide Inv, Step, Peak, Lowest, Trace;
    UsedBelowMax(s);
    TraceCons(s, ops);
    if ops == [] {
      PeakCons(s, []);
      assert [s] + [] == [s];
    } else {
      StepInv(s, ops[0]);
      var ss := Trace(Step(s, ops[0]), ops[1..]);
      RunSafe(Step(s, ops[0]), ops[1..]);
      PeakCons(s, ss);
      PeakFirst(ss);
      assert Trace(s, ops)[|ops|] == ss[|ops| - 1];
      forall i | 0 <= i < |Trace(s, ops)| ensures Inv(Trace(s, ops)[i]) {
        assert Trace(s, ops)[i] == if i == 0 then s else ss[i - 1];
      }
    }
  }

  lemma UsedBelowMax(s: Small)
    requires Inv(s)
    ensures s.maxUsed >= s.used
  {
  }

  lemma TraceCons(s: Small, ops: seq<Op>)
    ensures Trace(s, ops) == if ops == [] then [s] else [s] + Trace(Step(s, ops[0]), ops[1..])
  {
    hide Step;
  }

  /** From initialisation on: used plus free bytes are constant, and max_mem is exactly the peak of used_mem. */
  lemma RunFromInit(base: int, total: int, ops: seq<Op>)
    requires base > 0 && MIN_ALIGNED <= total && base + total + 2 * HDR <= WORD
    ensures var ss := Trace(Init(base, total), ops);
            && ss[|ops|].maxUsed == Peak(ss)
            && (forall i :: 0 <= i < |ss| ==>
                  Inv(ss[i]) && ss[i].used + FreeBytes(ss[i].blocks, 0)
                  == ss[i].total + HDR)
  {
    InitInv(base, total);
    RunSafe(Init(base, total), ops);
    var ss := Trace(Init(base, total), ops);
    PeakFirst(ss);
    forall i | 0 <= i < |ss| ensures ss[i].used + FreeBytes(ss[i].blocks, 0) == ss[i].total + HDR {
      Extents(ss[i]);
    }
  }

  /** What a cut of block i, or a merge of blocks i to j, is made of. */
  lemma PiecesAligned(bs: seq<Block>, i: int, j: int, sz: int)
    requires Aligned(bs, 8) && 0 <= i < |bs| && 0 <= j < |bs| && sz % 8 == 0
    ensures var a, e, m := bs[i].addr, bs[j].end, bs[i].addr + HDR + sz;
            && Aligned([Block(a, m, true), Block(m, e, false)], 8)
            && Aligned([Block(a, e, true)], 8) && Aligned([Block(a, e, false)], 8)
  {
    assert OnBoundary(bs[i], 8) && OnBoundary(bs[j], 8);
  }

  /** Every step keeps every header, and so every pointer handed out, on a multiple of 8. */
  lemma StepAligned(s: Small, op: Op)
    requires Inv(s) && Aligned(s.blocks, 8)
    ensures Aligned(Step(s, op).blocks, 8)
  {
    hide Inv, Splice, Aligned, OnBoundary, Malloc, LeftEdge, RightEdge, PlugHint, Free, Cut;
    var bs := s.blocks;
    if Enabled(s, op) {
      match op
      case DoMalloc(size) =>
        MallocAligned(s, size);
      case DoFree(ptr) =>
        var i := IndexOf(s, ptr);
        var lo, hi := LeftEdge(bs, i), RightEdge(bs, i);
        PlugRange(bs, i);
        FreeShape(s, ptr);
        PiecesAligned(bs, lo, hi - 1, 0);
        SpliceAligned(bs, lo, hi, [Block(bs[lo].addr, bs[hi - 1].end, false)], 8);
      case DoShrink(ptr, size) =>
        var i := IndexOf(s, ptr);
        var hi, sz := RightEdge(bs, i), AlignUp(size);
        PlugRange(bs, i);
        CutShape(s, i, sz);
        PiecesAligned(bs, i, hi - 1, sz);
        SpliceAligned(bs, i, hi,
            [Block(bs[i].addr, bs[i].addr + HDR + sz, true), Block(bs[i].addr + HDR + sz, bs[hi - 1].end, false)], 8);
    }
  }

  lemma PlugRange(bs: seq<Block>, i: int)
    requires 0 <= i < |bs|
    ensures 0 <= LeftEdge(bs, i) <= i < RightEdge(bs, i) <= |bs|
  {
  }

  lemma MallocAligned(s: Small, size: int)
    requires Inv(s) && Aligned(s.blocks, 8)
    ensures Aligned(Malloc(s, size).0.blocks, 8)
  {
    hide Inv, Aligned, Take, Request;
    var i := Scan(s, Request(size), IndexAt(s.blocks, s.lfree));
    if i < |s.blocks| {
      assert Request(size) % 8 == 0 by {
        RequestAligned(size);
      }
      TakeAligned(s, i, Request(size));
    }
  }

  lemma RequestAligned(size: int)
    ensures Request(size) % 8 == 0
  {
  }

  lemma TakeAligned(s: Small, i: int, sz: int)
    requires 0 <= i < |s.blocks| && Aligned(s.blocks, 8) && sz % 8 == 0
    ensures Aligned(Take(s, i, sz).blocks, 8)
  {
    hide Splice, Aligned, OnBoundary;
    var bs := s.blocks;
    var rest := bs[i].addr + HDR + sz;
    PiecesAligned(bs, i, i, sz);
    SpliceAligned(bs, i, i + 1, [Block(bs[i].addr, rest, true), Block(rest, bs[i].end, false)], 8);
    SpliceAligned(bs, i, i + 1, [Block(bs[i].addr, bs[i].end, true)], 8);
  }

  lemma FirstMalloc(base: int)
    ensures Step(Init(base, 240), DoMalloc(64))
         == Small(base, 240, [Block(0, 80, true), Block(80, 256, false)], 80, 80, 80)
  {
    assert AlignUp(64) == 64;
    var bs := [Block(0, 80, true), Block(80, 256, false)];
    assert NextFree(bs, 0, 256) == NextFree(bs, 1, 256);
    assert Step(Init(base, 240), DoMalloc(64)).blocks == bs;
  }

  lemma SecondMalloc(base: int)
    ensures Step(Small(base, 240, [Block(0, 80, true), Block(80, 256, false)], 80, 80, 80), DoMalloc(16))
         == Small(base, 240, [Block(0, 80, true), Block(80, 112, true), Block(112, 256, false)], 112, 112, 112)
  {
    assert AlignUp(16) == 16;
    var s := Small(base, 240, [Block(0, 80, true), Block(80, 256, false)], 80, 80, 80);
    var bs := [Block(0, 80, true), Block(80, 112, true), Block(112, 256, false)];
    assert IndexAt(s.blocks, 80) == 1;
    assert Scan(s, 16, 1) == 1;
    assert NextFree(bs, 1, 256) == NextFree(bs, 2, 256);
    assert Step(s, DoMalloc(16)).blocks == bs;
  }

  lemma ThenShrink(base: int)
    ensures var s := Small(base, 240, [Block(0, 80, true), Block(80, 112, true), Block(112, 256, false)], 112, 112,
            112);
            Enabled(s, DoShrink(base + HDR, 8)) && !Lowest(Step(s, DoShrink(base + HDR, 8)))
  {
    assert AlignUp(8) == 8;
    var s := Small(base, 240, [Block(0, 80, true), Block(80, 112, true), Block(112, 256, false)], 112, 112, 112);
    var r := Step(s, DoShrink(base + HDR, 8));
    assert IndexOf(s, base + HDR) == 0;
    CutShape(s, 0, 8);
    assert r.blocks[1] == Block(24, 80, false) && r.lfree == 112;
    assert r.blocks[1].addr in FreeAddrs(r.blocks);
  }

  /** A run of two mallocs and a shrinking realloc leaves the hint above a free block. */
  lemma ShrinkLosesHint(base: int)
    ensures !Lowest(Trace(Init(base, 240), [DoMalloc(64), DoMalloc(16), DoShrink(base + HDR, 8)])[3])
  {
    hide Step, Init, Lowest, Trace;
    var c := DoShrink(base + HDR, 8);
    assert [DoMalloc(64), DoMalloc(16), c][1..] == [DoMalloc(16), c] && [DoMalloc(16), c][1..] == [c] && [c][1..] == [];
    var s0 := Init(base, 240);
    var s1 := Step(s0, DoMalloc(64));
    var s2 := Step(s1, DoMalloc(16));
    FirstMalloc(base);
    SecondMalloc(base);
    ThenShrink(base);
    TraceCons(s0, [DoMalloc(64), DoMalloc(16), c]);
    TraceCons(s1, [DoMalloc(16), c]);
    TraceCons(s2, [c]);
    TraceCons(Step(s2, c), []);
  }
}
