/** rt_memheap in memory: block headers and free-list links live in the same cells as the callers' data. */
module MemHeapLayout {
  import opened Memory
  import opened Blocks
  import opened Sequences
  import opened MemHeapModel

  /** Field offsets of struct rt_memheap_item. */
  const MAGIC: int := 0
  const POOL: int := 4
  const NEXT: int := 8
  const PREV: int := 12
  const NEXT_FREE: int := 16
  const PREV_FREE: int := 20

  const RT_MEMHEAP_MAGIC: int := 0x1ea01ea0

  function MagicOf(used: bool): int {
    if used then RT_MEMHEAP_MAGIC + 1 else RT_MEMHEAP_MAGIC
  }

  ghost predicate Heads(m: Mem, bs: seq<Block>, self: int) {
    forall i :: 0 <= i < |bs| ==> HeaderRep(m, bs[i], self)
  }

  ghost predicate Prevs(m: Mem, bs: seq<Block>) {
    forall i, j :: 0 <= i && j == i + 1 < |bs| ==> Ld(m, bs[j].addr + PREV) == bs[i].addr
  }

  /** The block list, as `next`, `prev` and `magic` show it; it closes through the used tail. */
  ghost predicate BlocksRep(m: Mem, bs: seq<Block>, start: int, tail: int, self: int) {
    && |bs| > 0 && bs[0].addr == start
    && Heads(m, bs, self) && Prevs(m, bs)
    && Ld(m, start + PREV) == tail
    && HeaderRep(m, Block(tail, start, true), self)
    && Ld(m, tail + PREV) == bs[|bs| - 1].addr
  }

  ghost predicate HeaderRep(m: Mem, b: Block, self: int) {
    Ld(m, b.addr + MAGIC) == MagicOf(b.used) && Ld(m, b.addr + POOL) == self && Ld(m, b.addr + NEXT) == b.end
  }

  /** The free list with its header at both ends. */
  function RingOf(head: int, free: seq<int>): seq<int> {
    [head] + free + [head]
  }

  ghost predicate Ring(m: Mem, r: seq<int>) {
    forall i, j :: 0 <= i && j == i + 1 < |r| ==>
      Ld(m, r[i] + NEXT_FREE) == r[j] && Ld(m, r[j] + PREV_FREE) == r[i]
  }

  ghost predicate SameHeader(m: Mem, m': Mem, a: int) {
    && Ld(m', a + MAGIC) == Ld(m, a + MAGIC) && Ld(m', a + POOL) == Ld(m, a + POOL)
    && Ld(m', a + NEXT) == Ld(m, a + NEXT) && Ld(m', a + PREV) == Ld(m, a + PREV)
  }

  lemma LinkCellsApart(m: Mem, m': Mem, slots: set<int>, p: int, q: int, s: int)
    requires Spaced(HDR, slots) && p in slots && q in slots && s in slots
    requires Only(m, m', {p + NEXT_FREE, p + PREV_FREE, q + NEXT_FREE, s + PREV_FREE})
    ensures forall a :: a in slots ==> SameHeader(m, m', a)
  {
  }

  /** Free-list writes do not reach the block list. */
  lemma BlocksFrame(m: Mem, m': Mem, bs: seq<Block>, start: int, tail: int, self: int, slots: set<int>)
    requires BlocksRep(m, bs, start, tail, self) && HeadersIn(bs, tail, slots)
    requires forall a :: a in slots ==> SameHeader(m, m', a)
    ensures BlocksRep(m', bs, start, tail, self)
  {
    hide Ld;
    assert SameHeader(m, m', tail);
    assert forall i :: 0 <= i < |bs| ==> SameHeader(m, m', bs[i].addr);
  }

  ghost predicate SameLinks(m: Mem, m': Mem, a: int) {
    Ld(m', a + NEXT_FREE) == Ld(m, a + NEXT_FREE) && Ld(m', a + PREV_FREE) == Ld(m, a + PREV_FREE)
  }

  lemma ListCellsMissLinks(m: Mem, m': Mem, slots: set<int>, a: int, p: int, s: int)
    requires Spaced(HDR, slots) && a in slots && p in slots && s in slots
    requires Only(m, m', {a + MAGIC, a + POOL, a + NEXT, a + PREV, p + NEXT, s + PREV})
    ensures forall y :: y in slots ==> SameLinks(m, m', y)
  {
  }

  /** Block-list writes do not reach the free list. */
  lemma RingFrame(m: Mem, m': Mem, l: Layout)
    requires Ring(m, RingOf(l.head, l.free)) && ListedIn(l.free, l.slots, l.head)
    requires forall y :: y in l.slots ==> SameLinks(m, m', y)
    ensures Ring(m', RingOf(l.head, l.free))
  {
    hide Ld;
    var r := RingOf(l.head, l.free);
    assert forall i :: 0 <= i < |r| ==> r[i] in l.slots && SameLinks(m, m', r[i]);
  }

  /** Taking entry k out of the ring by joining its neighbours. */
  lemma RingRemove(m: Mem, m': Mem, l: Layout, k: int)
    requires Ring(m, RingOf(l.head, l.free)) && Spaced(HDR, l.slots) && ListedIn(l.free, l.slots, l.head)
             && 0 <= k < |l.free|
    requires var q, n := RingOf(l.head, l.free)[k], RingOf(l.head, l.free)[k + 2];
             && Only(m, m', {n + PREV_FREE, q + NEXT_FREE})
             && Ld(m', n + PREV_FREE) == q && Ld(m', q + NEXT_FREE) == n
    ensures Ring(m', RingOf(l.head, Without(l.free, k)))
  {
    hide Ld;
    var r, s := RingOf(l.head, l.free), RingOf(l.head, Without(l.free, k));
    forall i, j | 0 <= i && j == i + 1 < |s|
      ensures Ld(m', s[i] + NEXT_FREE) == s[j] && Ld(m', s[j] + PREV_FREE) == s[i]
    {
      var i', j' := if i <= k then i else i + 1, if j <= k then j else j + 1;
      assert s[i] == r[i'] && s[j] == r[j'];
      if i != k {
        assert j' == i' + 1;
      }
    }
  }

  /** Linking a new entry in directly behind the list header. */
  lemma RingPush(m: Mem, m': Mem, l: Layout, a: int)
    requires Ring(m, RingOf(l.head, l.free)) && Spaced(HDR, l.slots) && ListedIn(l.free, l.slots, l.head)
    requires a in l.slots && a != l.head && a !in l.free
    requires var n := RingOf(l.head, l.free)[1];
             && Only(m, m', {a + NEXT_FREE, a + PREV_FREE, n + PREV_FREE, l.head + NEXT_FREE})
             && Ld(m', a + NEXT_FREE) == n && Ld(m', a + PREV_FREE) == l.head
             && Ld(m', n + PREV_FREE) == a && Ld(m', l.head + NEXT_FREE) == a
    ensures Ring(m', RingOf(l.head, [a] + l.free))
  {
    hide Ld;
    var r, s := RingOf(l.head, l.free), RingOf(l.head, [a] + l.free);
    forall i, j | 0 <= i && j == i + 1 < |s|
      ensures Ld(m', s[i] + NEXT_FREE) == s[j] && Ld(m', s[j] + PREV_FREE) == s[i]
    {
      if i >= 2 {
        assert s[i] == r[i - 1] && s[j] == r[j - 1];
      } else if i == 1 {
        assert s[1] == a && s[2] == r[1];
      }
    }
  }

  /** The lists a memory holds: blocks in address order, the free list, and every header slot. */
  datatype Layout = Layout(bs: seq<Block>, free: seq<int>, slots: set<int>, head: int, start: int, tail: int, self: int)

  ghost predicate ListedIn(free: seq<int>, slots: set<int>, head: int) {
    && head in slots
    && (forall k :: 0 <= k < |free| ==> free[k] in slots)
    && Distinct(free) && head !in free
  }

  ghost predicate Links(m: Mem, l: Layout) {
    && Spaced(HDR, l.slots)
    && HeadersIn(l.bs, l.tail, l.slots)
    && ListedIn(l.free, l.slots, l.head)
    && BlocksRep(m, l.bs, l.start, l.tail, l.self)
    && Ring(m, RingOf(l.head, l.free))
  }

  ghost predicate SameMark(m: Mem, m': Mem, a: int) {
    Ld(m', a + MAGIC) == Ld(m, a + MAGIC) && Ld(m', a + POOL) == Ld(m, a + POOL)
  }

  ghost predicate SameNext(m: Mem, m': Mem, a: int) {
    Ld(m', a + NEXT) == Ld(m, a + NEXT)
  }

  ghost predicate SamePrev(m: Mem, m': Mem, a: int) {
    Ld(m', a + PREV) == Ld(m, a + PREV)
  }

  /** What block-list writes leave alone: everything but the new header, one `next` and one `prev`. */
  lemma ListCellsApart(m: Mem, m': Mem, slots: set<int>, a: int, p: int, s: int)
    requires Spaced(HDR, slots) && a in slots && p in slots && s in slots
    requires Only(m, m', {a + MAGIC, a + POOL, a + NEXT, a + PREV, p + NEXT, s + PREV})
    ensures forall y :: y in slots && y != a ==> SameMark(m, m', y)
    ensures forall y :: y in slots && y != a && y != p ==> SameNext(m, m', y)
    ensures forall y :: y in slots && y != a && y != s ==> SamePrev(m, m', y)
  {
  }

  lemma JoinCellsApart(m: Mem, m': Mem, slots: set<int>, p: int, s: int)
    requires Spaced(HDR, slots) && p in slots && s in slots
    requires Only(m, m', {p + NEXT, s + PREV})
    ensures forall y :: y in slots ==> SameMark(m, m', y)
    ensures forall y :: y in slots && y != p ==> SameNext(m, m', y)
    ensures forall y :: y in slots && y != s ==> SamePrev(m, m', y)
  {
  }

  lemma MarkCellApart(m: Mem, m': Mem, slots: set<int>, p: int)
    requires Spaced(HDR, slots) && p in slots
    requires Only(m, m', {p + MAGIC})
    ensures forall y :: y in slots && y != p ==> SameMark(m, m', y)
    ensures forall y :: y in slots ==> SameNext(m, m', y) && SamePrev(m, m', y)
    ensures Ld(m', p + POOL) == Ld(m, p + POOL)
  {
  }

  /** The headers of the blocks and of the tail are pairwise different slots, each block ending at the next. */
  ghost predicate HeadersIn(bs: seq<Block>, tail: int, slots: set<int>) {
    && (forall k :: 0 <= k < |bs| ==> bs[k].addr in slots && bs[k].addr != tail)
    && (forall k, l :: 0 <= k && l == k + 1 < |bs| ==> bs[k].end == bs[l].addr)
    && (|bs| > 0 ==> bs[|bs| - 1].end == tail)
    && (forall k, l :: 0 <= k < l < |bs| ==> bs[k].addr != bs[l].addr)
    && tail in slots
  }

  /** The address `next` of block i leads to. */
  function After(bs: seq<Block>, i: int, tail: int): int
    requires 0 <= i < |bs|
  {
    if i + 1 < |bs| then bs[i + 1].addr else tail
  }

  lemma HeadsSplice(m: Mem, m': Mem, bs: seq<Block>, lo: int, hi: int, mid: seq<Block>, self: int)
    requires 0 <= lo < hi <= |bs| && Heads(m, bs, self) && Heads(m', mid, self)
    requires forall k :: 0 <= k < lo || hi <= k < |bs| ==> SameMark(m, m', bs[k].addr) && SameNext(m, m', bs[k].addr)
    ensures Heads(m', Splice(bs, lo, hi, mid), self)
  {
    hide Ld;
    var r := Splice(bs, lo, hi, mid);
    forall k | 0 <= k < |r| ensures HeaderRep(m', r[k], self) {
      if k < lo {
        assert r[k] == bs[k];
      } else if k < lo + |mid| {
        assert r[k] == mid[k - lo];
      } else {
        assert r[k] == bs[k - lo - |mid| + hi];
      }
    }
  }

  lemma PrevsSplice(m: Mem, m': Mem, bs: seq<Block>, lo: int, hi: int, mid: seq<Block>)
    requires 0 <= lo < hi <= |bs| && |mid| > 0 && Prevs(m, bs) && Prevs(m', mid)
    requires mid[0].addr == bs[lo].addr && SamePrev(m, m', bs[lo].addr)
    requires forall k :: 0 <= k < lo || hi < k < |bs| ==> SamePrev(m, m', bs[k].addr)
    requires hi < |bs| ==> Ld(m', bs[hi].addr + PREV) == mid[|mid| - 1].addr
    ensures Prevs(m', Splice(bs, lo, hi, mid))
  {
    hide Ld;
    var r := Splice(bs, lo, hi, mid);
    var d := lo + |mid| - hi;
    forall i, j | 0 <= i && j == i + 1 < |r| ensures Ld(m', r[j].addr + PREV) == r[i].addr {
      if j < lo {
        assert r[i] == bs[i] && r[j] == bs[j];
      } else if j == lo {
        assert r[i] == bs[lo - 1] && r[j] == mid[0];
      } else if j < lo + |mid| {
        assert r[i] == mid[i - lo] && r[j] == mid[j - lo];
      } else if j == lo + |mid| {
        assert r[i] == mid[|mid| - 1] && r[j] == bs[hi];
      } else {
        assert r[i] == bs[i - d] && r[j] == bs[j - d];
      }
    }
  }

  /** Outside the window nothing of the block list was written, except `prev` just behind it. */
  ghost predicate Framed(m: Mem, m': Mem, bs: seq<Block>, lo: int, hi: int, tail: int) {
    && 0 <= lo < hi <= |bs|
    && (forall k :: 0 <= k < lo || hi <= k < |bs| ==> SameMark(m, m', bs[k].addr) && SameNext(m, m', bs[k].addr))
    && (forall k :: 0 <= k < lo || hi < k < |bs| ==> SamePrev(m, m', bs[k].addr))
    && SamePrev(m, m', bs[lo].addr)
    && SameMark(m, m', tail) && SameNext(m, m', tail)
    && (hi < |bs| ==> SamePrev(m, m', tail))
  }

  /** The block list after a window was rewritten in memory. */
  lemma RepSplice(m: Mem, m': Mem, bs: seq<Block>, lo: int, hi: int, mid: seq<Block>, start: int, tail: int, self: int)
    requires BlocksRep(m, bs, start, tail, self) && |mid| > 0
    requires Framed(m, m', bs, lo, hi, tail)
    requires Heads(m', mid, self) && Prevs(m', mid) && mid[0].addr == bs[lo].addr
    requires Ld(m', After(bs, hi - 1, tail) + PREV) == mid[|mid| - 1].addr
    ensures BlocksRep(m', Splice(bs, lo, hi, mid), start, tail, self)
  {
    HeadsSplice(m, m', bs, lo, hi, mid, self);
    PrevsSplice(m, m', bs, lo, hi, mid);
    hide Ld, Heads, Prevs;
    var r := Splice(bs, lo, hi, mid);
    assert r[0].addr == start && SamePrev(m, m', start);
    assert r[|r| - 1] == if hi < |bs| then bs[|bs| - 1] else mid[|mid| - 1];
  }

  lemma InsertedPair(m': Mem, b: Block, a: int, self: int)
    requires Ld(m', b.addr + MAGIC) == MagicOf(b.used) && Ld(m', b.addr + POOL) == self && Ld(m', b.addr + NEXT) == a
    requires Ld(m', a + MAGIC) == RT_MEMHEAP_MAGIC && Ld(m', a + POOL) == self
    requires Ld(m', a + NEXT) == b.end && Ld(m', a + PREV) == b.addr
    ensures Heads(m', [b.(end := a), Block(a, b.end, false)], self) && Prevs(m', [b.(end := a), Block(a, b.end, false)])
  {
    hide Ld;
  }

  lemma InsertFramed(m: Mem, m': Mem, bs: seq<Block>, tail: int, slots: set<int>, i: int, a: int)
    requires Spaced(HDR, slots) && 0 <= i < |bs| && HeadersIn(bs, tail, slots)
    requires a in slots && a != tail && (forall k :: 0 <= k < |bs| ==> bs[k].addr != a)
    requires Only(m, m', {a + MAGIC, a + POOL, a + NEXT, a + PREV, bs[i].addr + NEXT, After(bs, i, tail) + PREV})
    ensures Framed(m, m', bs, i, i + 1, tail) && SameMark(m, m', bs[i].addr)
  {
    ListCellsApart(m, m', slots, a, bs[i].addr, After(bs, i, tail));
  }

  lemma JoinFramed(m: Mem, m': Mem, bs: seq<Block>, tail: int, slots: set<int>, i: int)
    requires Spaced(HDR, slots) && 0 <= i < |bs| - 1 && HeadersIn(bs, tail, slots)
    requires Only(m, m', {bs[i].addr + NEXT, After(bs, i + 1, tail) + PREV})
    ensures Framed(m, m', bs, i, i + 2, tail) && SameMark(m, m', bs[i].addr)
  {
    JoinCellsApart(m, m', slots, bs[i].addr, After(bs, i + 1, tail));
  }

  lemma MarkFramed(m: Mem, m': Mem, bs: seq<Block>, tail: int, slots: set<int>, i: int)
    requires Spaced(HDR, slots) && 0 <= i < |bs| && HeadersIn(bs, tail, slots)
    requires Only(m, m', {bs[i].addr + MAGIC})
    ensures Framed(m, m', bs, i, i + 1, tail) && SameNext(m, m', bs[i].addr) && SamePrev(m, m', After(bs, i, tail))
    ensures Ld(m', bs[i].addr + POOL) == Ld(m, bs[i].addr + POOL)
  {
    MarkCellApart(m, m', slots, bs[i].addr);
  }

  /** The used bit of block i is written. */
  lemma BlocksMark(m: Mem, m': Mem, bs: seq<Block>, start: int, tail: int, self: int, slots: set<int>, i: int,
      used: bool)
    requires BlocksRep(m, bs, start, tail, self) && Spaced(HDR, slots) && 0 <= i < |bs|
    requires HeadersIn(bs, tail, slots)
    requires Only(m, m', {bs[i].addr + MAGIC}) && Ld(m', bs[i].addr + MAGIC) == MagicOf(used)
    ensures BlocksRep(m', Splice(bs, i, i + 1, [bs[i].(used := used)]), start, tail, self)
  {
    var mid := [bs[i].(used := used)];
    assert HeaderRep(m, bs[i], self);
    assert Ld(m, After(bs, i, tail) + PREV) == bs[i].addr;
    MarkFramed(m, m', bs, tail, slots, i);
    hide Ld, Spaced, HeadersIn, Framed, BlocksRep;
    assert Heads(m', mid, self);
    RepSplice(m, m', bs, i, i + 1, mid, start, tail, self);
  }

  lemma RingMembers(m: Mem, l: Layout, k: int)
    requires Ring(m, RingOf(l.head, l.free)) && ListedIn(l.free, l.slots, l.head) && 0 <= k < |l.free|
    ensures var r, a := RingOf(l.head, l.free), l.free[k];
            && Ld(m, a + NEXT_FREE) == r[k + 2] && Ld(m, a + PREV_FREE) == r[k]
            && r[k] in l.slots && r[k + 2] in l.slots
  {
    var r := RingOf(l.head, l.free);
    assert r[k + 1] == l.free[k];
  }

  lemma TwoWrites(m: Mem, a: int, x: int, b: int, y: int)
    requires a != b
    ensures var m' := m[a := x][b := y];
            Ld(m', a) == x && Ld(m', b) == y && Only(m, m', {a, b})
  {
  }

  lemma ListedWithout(l: Layout, k: int)
    requires ListedIn(l.free, l.slots, l.head) && 0 <= k < |l.free|
    ensures ListedIn(Without(l.free, k), l.slots, l.head)
  {
    WithoutElems(l.free, k);
  }

  /** `a->next_free->prev_free = a->prev_free; a->prev_free->next_free = a->next_free`. */
  function UnlinkMem(m: Mem, a: int): Mem {
    var n, p := Ld(m, a + NEXT_FREE), Ld(m, a + PREV_FREE);
    m[n + PREV_FREE := p][p + NEXT_FREE := n]
  }

  lemma UnlinkLinks(m: Mem, l: Layout, k: int)
    requires Links(m, l) && 0 <= k < |l.free|
    ensures Links(UnlinkMem(m, l.free[k]), l.(free := Without(l.free, k)))
    ensures var n, p := Ld(m, l.free[k] + NEXT_FREE), Ld(m, l.free[k] + PREV_FREE);
            n in l.slots && p in l.slots && Only(m, UnlinkMem(m, l.free[k]), {n + PREV_FREE, p + NEXT_FREE})
  {
    hide BlocksRep, Ring, HeadersIn, ListedIn, RingOf, Ld, Without;
    RingMembers(m, l, k);
    var n, p := Ld(m, l.free[k] + NEXT_FREE), Ld(m, l.free[k] + PREV_FREE);
    assert n + PREV_FREE != p + NEXT_FREE;
    TwoWrites(m, n + PREV_FREE, p, p + NEXT_FREE, n);
    var m' := UnlinkMem(m, l.free[k]);
    assert Only(m, m', {p + NEXT_FREE, p + PREV_FREE, p + NEXT_FREE, n + PREV_FREE});
    LinkCellsApart(m, m', l.slots, p, p, n);
    hide Spaced, Only, UnlinkMem, SameHeader;
    RingRemove(m, m', l, k);
    BlocksFrame(m, m', l.bs, l.start, l.tail, l.self, l.slots);
    ListedWithout(l, k);
  }

  /** A header linked in behind the list header, the four writes in the order of the source. */
  function PushMem(m: Mem, head: int, a: int): Mem {
    var m1 := m[a + NEXT_FREE := Ld(m, head + NEXT_FREE)];
    var m2 := m1[a + PREV_FREE := head];
    var m3 := m2[Ld(m2, head + NEXT_FREE) + PREV_FREE := a];
    m3[head + NEXT_FREE := a]
  }

  lemma PushCells(m: Mem, head: int, a: int, n: int, slots: set<int>)
    requires Spaced(HDR, slots) && head in slots && a in slots && n in slots && a != head && a != n
    requires n == Ld(m, head + NEXT_FREE)
    ensures var m' := PushMem(m, head, a);
            && Only(m, m', {a + NEXT_FREE, a + PREV_FREE, n + PREV_FREE, head + NEXT_FREE})
            && Ld(m', a + NEXT_FREE) == n && Ld(m', a + PREV_FREE) == head
            && Ld(m', n + PREV_FREE) == a && Ld(m', head + NEXT_FREE) == a
  {
    assert a + HDR <= head || head + HDR <= a;
    assert a + HDR <= n || n + HDR <= a;
    assert n == head || n + HDR <= head || head + HDR <= n;
  }

  lemma ListedPush(l: Layout, a: int)
    requires ListedIn(l.free, l.slots, l.head) && a in l.slots && a != l.head && a !in l.free
    ensures ListedIn([a] + l.free, l.slots, l.head)
    ensures RingOf(l.head, l.free)[1] in l.slots && RingOf(l.head, l.free)[1] != a
  {
    var f := [a] + l.free;
    forall i, j | 0 <= i < j < |f| ensures f[i] != f[j] {
      assert f[j] == l.free[j - 1];
    }
  }

  lemma PushLinks(m: Mem, l: Layout, a: int)
    requires Links(m, l) && a in l.slots && a != l.head && a !in l.free
    ensures Links(PushMem(m, l.head, a), l.(free := [a] + l.free))
    ensures var n := Ld(m, l.head + NEXT_FREE);
            n in l.slots
                && Only(m, PushMem(m, l.head, a), {a + NEXT_FREE, a + PREV_FREE, n + PREV_FREE, l.head + NEXT_FREE})
  {
    var r := RingOf(l.head, l.free);
    var n := Ld(m, l.head + NEXT_FREE);
    assert r[0] == l.head && n == r[1];
    ListedPush(l, a);
    assert l.head in l.slots;
    hide BlocksRep, Ring, HeadersIn, ListedIn, RingOf, Ld, PushMem;
    PushCells(m, l.head, a, n, l.slots);
    var m' := PushMem(m, l.head, a);
    assert Only(m, m', {a + NEXT_FREE, a + PREV_FREE, l.head + NEXT_FREE, n + PREV_FREE});
    LinkCellsApart(m, m', l.slots, a, l.head, n);
    hide Spaced, Only, SameHeader;
    RingPush(m, m', l, a);
    BlocksFrame(m, m', l.bs, l.start, l.tail, l.self, l.slots);
  }

  /** A new header at a behind the one at h: magic, pool, prev, next, then the two neighbours. */
  function InsertMem(m: Mem, h: int, a: int, self: int): Mem {
    var m1 := m[a + MAGIC := RT_MEMHEAP_MAGIC];
    var m2 := m1[a + POOL := self];
    var m3 := m2[a + PREV := h];
    var m4 := m3[a + NEXT := Ld(m3, h + NEXT)];
    var m5 := m4[Ld(m4, h + NEXT) + PREV := a];
    m5[h + NEXT := a]
  }

  lemma InsertCells(m: Mem, h: int, a: int, e: int, self: int, slots: set<int>)
    requires Spaced(HDR, slots) && h in slots && a in slots && e in slots && a != h && a != e
    requires e == Ld(m, h + NEXT)
    ensures var m' := InsertMem(m, h, a, self);
            && Only(m, m', {a + MAGIC, a + POOL, a + NEXT, a + PREV, h + NEXT, e + PREV})
            && Ld(m', a + MAGIC) == RT_MEMHEAP_MAGIC && Ld(m', a + POOL) == self
            && Ld(m', a + NEXT) == e && Ld(m', a + PREV) == h
            && Ld(m', h + NEXT) == a && Ld(m', e + PREV) == a
            && Ld(m', h + MAGIC) == Ld(m, h + MAGIC) && Ld(m', h + POOL) == Ld(m, h + POOL)
  {
    assert a + HDR <= h || h + HDR <= a;
    assert a + HDR <= e || e + HDR <= a;
    assert e == h || e + HDR <= h || h + HDR <= e;
  }

  lemma HeadersSplice(l: Layout, i: int, a: int)
    requires HeadersIn(l.bs, l.tail, l.slots) && 0 <= i < |l.bs|
    requires a in l.slots && a != l.tail && (forall k :: 0 <= k < |l.bs| ==> l.bs[k].addr != a)
    ensures HeadersIn(Splice(l.bs, i, i + 1, [l.bs[i].(end := a), Block(a, l.bs[i].end, false)]), l.tail, l.slots)
  {
    var r := Splice(l.bs, i, i + 1, [l.bs[i].(end := a), Block(a, l.bs[i].end, false)]);
    forall k | 0 <= k < |r| ensures r[k].addr
        == (if k <= i then l.bs[k].addr else if k == i + 1 then a else l.bs[k - 1].addr) {
    }
    forall k | 0 <= k < |r| ensures r[k].end == (if k < i then l.bs[k].end else if k == i then a else l.bs[k - 1].end) {
    }
  }

  lemma HeadersJoin(l: Layout, i: int)
    requires HeadersIn(l.bs, l.tail, l.slots) && 0 <= i < |l.bs| - 1
    ensures HeadersIn(Splice(l.bs, i, i + 2, [l.bs[i].(end := l.bs[i + 1].end)]), l.tail, l.slots)
  {
    var r := Splice(l.bs, i, i + 2, [l.bs[i].(end := l.bs[i + 1].end)]);
    forall k | 0 <= k < |r| ensures r[k].addr == (if k <= i then l.bs[k].addr else l.bs[k + 1].addr) {
    }
    forall k | 0 <= k < |r| ensures r[k].end == (if k < i then l.bs[k].end else l.bs[k + 1].end) {
    }
  }

  lemma HeadersMark(l: Layout, i: int, used: bool)
    requires HeadersIn(l.bs, l.tail, l.slots) && 0 <= i < |l.bs|
    ensures HeadersIn(Splice(l.bs, i, i + 1, [l.bs[i].(used := used)]), l.tail, l.slots)
  {
    var r := Splice(l.bs, i, i + 1, [l.bs[i].(used := used)]);
    forall k | 0 <= k < |r| ensures r[k].addr == l.bs[k].addr && r[k].end == l.bs[k].end {
    }
  }

  /** Where the links of block i lead. */
  lemma NextIs(m: Mem, l: Layout, i: int)
    requires Links(m, l) && 0 <= i < |l.bs|
    ensures l.bs[i].end == After(l.bs, i, l.tail) && Ld(m, l.bs[i].addr + NEXT) == l.bs[i].end
    ensures l.bs[i].addr in l.slots && After(l.bs, i, l.tail) in l.slots && After(l.bs, i, l.tail) != l.bs[i].addr
    ensures Ld(m, After(l.bs, i, l.tail) + PREV) == l.bs[i].addr
    ensures Ld(m, l.bs[i].addr + PREV) == if i > 0 then l.bs[i - 1].addr else l.tail
    ensures Ld(m, l.bs[i].addr + MAGIC) == MagicOf(l.bs[i].used) && Ld(m, l.bs[i].addr + POOL) == l.self
    ensures Ld(m, l.tail + MAGIC) == MagicOf(true)
  {
    assert HeaderRep(m, l.bs[i], l.self);
  }

  lemma LinksParts(m: Mem, l: Layout)
    requires Links(m, l)
    ensures Spaced(HDR, l.slots) && HeadersIn(l.bs, l.tail, l.slots)
  {
  }

  lemma InsertPrepared(m: Mem, l: Layout, i: int, a: int)
    requires Links(m, l) && 0 <= i < |l.bs|
    requires a in l.slots && a != l.tail && (forall k :: 0 <= k < |l.bs| ==> l.bs[k].addr != a)
    ensures var m', h, e := InsertMem(m, l.bs[i].addr, a, l.self), l.bs[i].addr, After(l.bs, i, l.tail);
            && Only(m, m', {a + MAGIC, a + POOL, a + NEXT, a + PREV, h + NEXT, e + PREV})
            && Framed(m, m', l.bs, i, i + 1, l.tail)
            && (forall y :: y in l.slots ==> SameLinks(m, m', y))
            && Heads(m', [l.bs[i].(end := a), Block(a, l.bs[i].end, false)], l.self)
            && Prevs(m', [l.bs[i].(end := a), Block(a, l.bs[i].end, false)])
            && Ld(m', e + PREV) == a
  {
    hide Links, Ld, InsertMem, Only, Spaced, HeadersIn, Framed, Heads, Prevs, SameLinks;
    var h, e := l.bs[i].addr, After(l.bs, i, l.tail);
    LinksParts(m, l);
    NextIs(m, l, i);
    InsertCells(m, h, a, e, l.self, l.slots);
    var m' := InsertMem(m, h, a, l.self);
    ListCellsMissLinks(m, m', l.slots, a, h, e);
    InsertFramed(m, m', l.bs, l.tail, l.slots, i, a);
    InsertedPair(m', l.bs[i], a, l.self);
  }

  /** Block i is cut at `a`: a new header there, linked in behind block i. */
  lemma InsertLinks(m: Mem, l: Layout, i: int, a: int)
    requires Links(m, l) && 0 <= i < |l.bs|
    requires a in l.slots && a != l.tail && (forall k :: 0 <= k < |l.bs| ==> l.bs[k].addr != a)
    ensures Links(InsertMem(m, l.bs[i].addr, a, l.self),
                  l.(bs := Splice(l.bs, i, i + 1, [l.bs[i].(end := a), Block(a, l.bs[i].end, false)])))
    ensures Only(m, InsertMem(m, l.bs[i].addr, a, l.self),
                 {a + MAGIC, a + POOL, a + NEXT, a + PREV, l.bs[i].addr + NEXT, After(l.bs, i, l.tail) + PREV})
  {
    hide BlocksRep, Ring, HeadersIn, ListedIn, Ld, InsertMem, Splice, Only, Spaced, Framed, Heads, Prevs, SameLinks,
        RingOf;
    InsertPrepared(m, l, i, a);
    HeadersSplice(l, i, a);
    var m' := InsertMem(m, l.bs[i].addr, a, l.self);
    RingFrame(m, m', l);
    RepSplice(m, m', l.bs, i, i + 1, [l.bs[i].(end := a), Block(a, l.bs[i].end, false)], l.start, l.tail, l.self);
  }

  /** The header at x leaves the block list: its two neighbours point past it. */
  function JoinMem(m: Mem, x: int): Mem {
    var n, p := Ld(m, x + NEXT), Ld(m, x + PREV);
    m[n + PREV := p][p + NEXT := n]
  }

  lemma JoinCells(m: Mem, x: int, p: int, n: int, slots: set<int>)
    requires Spaced(HDR, slots) && p in slots && n in slots
    requires n == Ld(m, x + NEXT) && p == Ld(m, x + PREV)
    ensures var m' := JoinMem(m, x);
            && Only(m, m', {p + NEXT, n + PREV})
            && Only(m, m', {p + MAGIC, p + POOL, p + NEXT, p + PREV, p + NEXT, n + PREV})
            && Ld(m', n + PREV) == p && Ld(m', p + NEXT) == n
  {
    assert n == p || n + HDR <= p || p + HDR <= n;
    TwoWrites(m, n + PREV, p, p + NEXT, n);
  }

  lemma JoinPrepared(m: Mem, l: Layout, i: int)
    requires Links(m, l) && 0 <= i < |l.bs| - 1
    ensures var m', p, n := JoinMem(m, l.bs[i + 1].addr), l.bs[i].addr, After(l.bs, i + 1, l.tail);
            && Only(m, m', {p + NEXT, n + PREV})
            && Framed(m, m', l.bs, i, i + 2, l.tail)
            && (forall y :: y in l.slots ==> SameLinks(m, m', y))
            && Heads(m', [l.bs[i].(end := l.bs[i + 1].end)], l.self)
            && Ld(m', n + PREV) == p
  {
    hide Links, Ld, JoinMem, Only, Spaced, HeadersIn, Framed, SameLinks;
    var p, n := l.bs[i].addr, After(l.bs, i + 1, l.tail);
    LinksParts(m, l);
    NextIs(m, l, i + 1);
    NextIs(m, l, i);
    JoinCells(m, l.bs[i + 1].addr, p, n, l.slots);
    var m' := JoinMem(m, l.bs[i + 1].addr);
    ListCellsMissLinks(m, m', l.slots, p, p, n);
    JoinFramed(m, m', l.bs, l.tail, l.slots, i);
  }

  /** Blocks i and i+1 become one: the header between them is unlinked. */
  lemma JoinLinks(m: Mem, l: Layout, i: int)
    requires Links(m, l) && 0 <= i < |l.bs| - 1
    ensures Links(JoinMem(m, l.bs[i + 1].addr), l.(bs := Splice(l.bs, i, i + 2, [l.bs[i].(end := l.bs[i + 1].end)])))
    ensures Only(m, JoinMem(m, l.bs[i + 1].addr), {l.bs[i].addr + NEXT, After(l.bs, i + 1, l.tail) + PREV})
  {
    hide BlocksRep, Ring, HeadersIn, ListedIn, Ld, JoinMem, Splice, Only, Spaced, Framed, Heads, SameLinks, RingOf;
    JoinPrepared(m, l, i);
    HeadersJoin(l, i);
    var m' := JoinMem(m, l.bs[i + 1].addr);
    RingFrame(m, m', l);
    RepSplice(m, m', l.bs, i, i + 2, [l.bs[i].(end := l.bs[i + 1].end)], l.start, l.tail, l.self);
  }

  /** `magic |= RT_MEMHEAP_USED` and `magic &= ~RT_MEMHEAP_USED`. */
  function MarkMem(m: Mem, a: int, used: bool): Mem {
    var w := Ld(m, a + MAGIC);
    m[a + MAGIC := if used then (if w % 2 == 0 then w + 1 else w) else (if w % 2 == 0 then w else w - 1)]
  }

  lemma MarkLinks(m: Mem, l: Layout, i: int, used: bool)
    requires Links(m, l) && 0 <= i < |l.bs|
    ensures Links(MarkMem(m, l.bs[i].addr, used), l.(bs := Splice(l.bs, i, i + 1, [l.bs[i].(used := used)])))
    ensures Only(m, MarkMem(m, l.bs[i].addr, used), {l.bs[i].addr + MAGIC})
  {
    var p := l.bs[i].addr;
    NextIs(m, l, i);
    HeadersMark(l, i, used);
    hide BlocksRep, Ring, HeadersIn, ListedIn, RingOf, Splice;
    var m' := MarkMem(m, p, used);
    assert Only(m, m', {p + MAGIC}) && Ld(m', p + MAGIC) == MagicOf(used);
    assert Only(m, m', {p + MAGIC, p + POOL, p + NEXT, p + PREV, p + NEXT, p + PREV});
    hide Ld, MarkMem;
    ListCellsMissLinks(m, m', l.slots, p, p, p);
    RingFrame(m, m', l);
    BlocksMark(m, m', l.bs, l.start, l.tail, l.self, l.slots, i, used);
  }

  /** x lies in no header slot. */
  ghost predicate Clear(x: int, slots: set<int>) {
    forall s :: s in slots ==> x < s || s + HDR <= x
  }

  /** Only header slots were written. */
  ghost predicate WithinSlots(m: Mem, m': Mem, slots: set<int>) {
    forall x :: Clear(x, slots) ==> Ld(m', x) == Ld(m, x)
  }

  lemma ListCellsWithin(m: Mem, m': Mem, slots: set<int>, a: int, p: int, s: int)
    requires a in slots && p in slots && s in slots
    requires Only(m, m', {a + MAGIC, a + POOL, a + NEXT, a + PREV, p + NEXT, s + PREV})
    ensures WithinSlots(m, m', slots)
  {
    hide Ld;
    forall x | Clear(x, slots) ensures Ld(m', x) == Ld(m, x) {
      assert x !in {a + MAGIC, a + POOL, a + NEXT, a + PREV, p + NEXT, s + PREV};
    }
  }

  lemma LinkCellsWithin(m: Mem, m': Mem, slots: set<int>, p: int, q: int, s: int)
    requires p in slots && q in slots && s in slots
    requires Only(m, m', {p + NEXT_FREE, p + PREV_FREE, q + NEXT_FREE, s + PREV_FREE})
    ensures WithinSlots(m, m', slots)
  {
    hide Ld;
    forall x | Clear(x, slots) ensures Ld(m', x) == Ld(m, x) {
      assert x !in {p + NEXT_FREE, p + PREV_FREE, q + NEXT_FREE, s + PREV_FREE};
    }
  }

  lemma WithinTrans(m: Mem, m1: Mem, m2: Mem, s1: set<int>, s2: set<int>)
    requires WithinSlots(m, m1, s1) && WithinSlots(m1, m2, s2)
    ensures WithinSlots(m, m2, s1 + s2)
  {
    hide Ld;
    forall x | Clear(x, s1 + s2) ensures Ld(m2, x) == Ld(m, x) {
      assert Clear(x, s1) && Clear(x, s2);
    }
  }

  /** A header that is off the free list forgets its links. */
  lemma ForgetLinks(m: Mem, l: Layout, a: int)
    requires Links(m, l) && a in l.slots && a != l.head && a !in l.free
    ensures Links(m[a + NEXT_FREE := 0][a + PREV_FREE := 0], l)
    ensures WithinSlots(m, m[a + NEXT_FREE := 0][a + PREV_FREE := 0], l.slots)
  {
    var m' := m[a + NEXT_FREE := 0][a + PREV_FREE := 0];
    assert Only(m, m', {a + NEXT_FREE, a + PREV_FREE, a + NEXT_FREE, a + PREV_FREE});
    hide BlocksRep, HeadersIn, Ld;
    LinkCellsApart(m, m', l.slots, a, a, a);
    LinkCellsWithin(m, m', l.slots, a, a, a);
    BlocksFrame(m, m', l.bs, l.start, l.tail, l.self, l.slots);
    var r := RingOf(l.head, l.free);
    forall i | 0 <= i < |r| ensures SameLinks(m, m', r[i]) {
      assert r[i] in l.slots && r[i] != a;
    }
  }

  /** The header reached after n steps along the field at offset f. */
  function Walk(m: Mem, a: int, f: int, n: nat): int
    decreases n
  {
    if n == 0 then a else Walk(m, Ld(m, a + f), f, n - 1)
  }

  /** From the first block, `next` visits the blocks in address order, then the tail, then the first again. */
  lemma {:induction false} NextVisitsAll(m: Mem, l: Layout, k: int, n: nat)
    requires Links(m, l) && 0 <= k && k + n <= |l.bs| + 1
    ensures var cycle := seq(|l.bs|, (i: int) requires 0 <= i < |l.bs| => l.bs[i].addr) + [l.tail, l.start];
            Walk(m, cycle[k], NEXT, n) == cycle[k + n]
    decreases n
  {
    var cycle := seq(|l.bs|, (i: int) requires 0 <= i < |l.bs| => l.bs[i].addr) + [l.tail, l.start];
    if n > 0 {
      NextVisitsAll(m, l, k + 1, n - 1);
      if k < |l.bs| {
        NextIs(m, l, k);
      } else {
        assert HeaderRep(m, Block(l.tail, l.start, true), l.self);
      }
      assert Ld(m, cycle[k] + NEXT) == cycle[k + 1];
    }
  }

  /** From the list header, `next_free` visits the listed blocks and comes back. */
  lemma {:induction false} NextFreeVisitsAll(m: Mem, l: Layout, k: int, n: nat)
    requires Links(m, l) && 0 <= k && k + n <= |l.free| + 1
    ensures Walk(m, RingOf(l.head, l.free)[k], NEXT_FREE, n) == RingOf(l.head, l.free)[k + n]
    decreases n
  {
    if n > 0 {
      var r := RingOf(l.head, l.free);
      assert Ld(m, r[k] + NEXT_FREE) == r[k + 1];
      NextFreeVisitsAll(m, l, k + 1, n - 1);
    }
  }
}
