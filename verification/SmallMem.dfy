/** The small-memory arena in memory: struct heap_mem headers between the callers' data. */
module SmallMemLayout {
  import opened Memory
  import opened Blocks
  import opened SmallMemModel

  /** Field offsets of struct heap_mem. */
  const MAGIC: int := 0
  const USED: int := 2
  const NEXT: int := 4
  const PREV: int := 8

  const HEAP_MAGIC: int := 0x1ea0

  function Flag(used: bool): int {
    if used then 1 else 0
  }

  /** A header as the block it describes; `next` is an offset from base. */
  ghost predicate HeadRep(m: Mem, base: int, b: Block) {
    && Ld(m, base + b.addr + MAGIC) == HEAP_MAGIC && Ld(m, base + b.addr + USED) == Flag(b.used)
    && Ld(m, base + b.addr + NEXT) == b.end
  }

  ghost predicate Heads(m: Mem, base: int, bs: seq<Block>) {
    forall i :: 0 <= i < |bs| ==> HeadRep(m, base, bs[i])
  }

  ghost predicate Prevs(m: Mem, base: int, bs: seq<Block>) {
    forall i, j :: 0 <= i && j == i + 1 < |bs| ==> Ld(m, base + bs[j].addr + PREV) == bs[i].addr
  }

  /** The chain from the first header to the end sentinel, whose `prev` is not kept and not read. */
  ghost predicate ChainRep(m: Mem, base: int, bs: seq<Block>, end: int) {
    && |bs| > 0 && bs[0].addr == 0
    && Heads(m, base, bs) && Prevs(m, base, bs)
    && Ld(m, base + 0 + PREV) == 0
    && HeadRep(m, base, Block(end, end, true))
  }

  /** The header slots, by offset, and the chain through them. */
  datatype Chain = Chain(bs: seq<Block>, slots: set<int>, base: int, end: int)

  ghost predicate HeadersIn(bs: seq<Block>, end: int, slots: set<int>) {
    && (forall k :: 0 <= k < |bs| ==> bs[k].addr in slots && bs[k].addr != end)
    && (forall k, l :: 0 <= k && l == k + 1 < |bs| ==> bs[k].end == bs[l].addr)
    && (|bs| > 0 ==> bs[|bs| - 1].end == end)
    && (forall k, l :: 0 <= k < l < |bs| ==> bs[k].addr != bs[l].addr)
    && end in slots
  }

  ghost predicate Linked(m: Mem, c: Chain) {
    && Spaced(HDR, c.slots)
    && HeadersIn(c.bs, c.end, c.slots)
    && ChainRep(m, c.base, c.bs, c.end)
  }

  ghost predicate SameMark(m: Mem, m': Mem, a: int) {
    Ld(m', a + MAGIC) == Ld(m, a + MAGIC) && Ld(m', a + USED) == Ld(m, a + USED)
  }

  ghost predicate SameNext(m: Mem, m': Mem, a: int) {
    Ld(m', a + NEXT) == Ld(m, a + NEXT)
  }

  ghost predicate SamePrev(m: Mem, m': Mem, a: int) {
    Ld(m', a + PREV) == Ld(m, a + PREV)
  }

  /** What list writes leave alone: everything but one header, one `next` and one `prev`. */
  lemma CellsApart(m: Mem, m': Mem, base: int, slots: set<int>, a: int, p: int, s: int)
    requires Spaced(HDR, slots) && a in slots && p in slots && s in slots
    requires Only(m, m',
             {base + a + MAGIC, base + a + USED, base + a + NEXT, base + a + PREV, base + p + NEXT, base + s + PREV})
    ensures forall y :: y in slots && y != a ==> SameMark(m, m', base + y)
    ensures forall y :: y in slots && y != a && y != p ==> SameNext(m, m', base + y)
    ensures forall y :: y in slots && y != a && y != s ==> SamePrev(m, m', base + y)
  {
    hide Ld;
  }

  lemma JoinCellsApart(m: Mem, m': Mem, base: int, slots: set<int>, p: int, s: int)
    requires Spaced(HDR, slots) && p in slots && s in slots
    requires Only(m, m', {base + p + NEXT, base + s + PREV})
    ensures forall y :: y in slots ==> SameMark(m, m', base + y)
    ensures forall y :: y in slots && y != p ==> SameNext(m, m', base + y)
    ensures forall y :: y in slots && y != s ==> SamePrev(m, m', base + y)
  {
    hide Ld;
  }

  lemma MarkCellsApart(m: Mem, m': Mem, base: int, slots: set<int>, p: int)
    requires Spaced(HDR, slots) && p in slots
    requires Only(m, m', {base + p + MAGIC, base + p + USED})
    ensures forall y :: y in slots && y != p ==> SameMark(m, m', base + y)
    ensures forall y :: y in slots ==> SameNext(m, m', base + y) && SamePrev(m, m', base + y)
  {
    hide Ld;
  }

  /** The offset `next` of block i leads to. */
  function After(bs: seq<Block>, i: int, end: int): int
    requires 0 <= i < |bs|
  {
    if i + 1 < |bs| then bs[i + 1].addr else end
  }

  lemma HeadsSplice(m: Mem, m': Mem, base: int, bs: seq<Block>, lo: int, hi: int, mid: seq<Block>)
    requires 0 <= lo < hi <= |bs| && Heads(m, base, bs) && Heads(m', base, mid)
    requires forall k :: 0 <= k < lo || hi <= k < |bs| ==>
              SameMark(m, m', base + bs[k].addr)
              && SameNext(m, m', base + bs[k].addr)
    ensures Heads(m', base, Splice(bs, lo, hi, mid))
  {
    hide Ld;
    var r := Splice(bs, lo, hi, mid);
    forall k | 0 <= k < |r| ensures HeadRep(m', base, r[k]) {
      if k < lo {
        assert r[k] == bs[k];
      } else if k < lo + |mid| {
        assert r[k] == mid[k - lo];
      } else {
        assert r[k] == bs[k - lo - |mid| + hi];
      }
    }
  }

  lemma PrevsSplice(m: Mem, m': Mem, base: int, bs: seq<Block>, lo: int, hi: int, mid: seq<Block>)
    requires 0 <= lo < hi <= |bs| && |mid| > 0 && Prevs(m, base, bs) && Prevs(m', base, mid)
    requires mid[0].addr == bs[lo].addr && SamePrev(m, m', base + bs[lo].addr)
    requires forall k :: 0 <= k < lo || hi < k < |bs| ==> SamePrev(m, m', base + bs[k].addr)
    requires hi < |bs| ==> Ld(m', base + bs[hi].addr + PREV) == mid[|mid| - 1].addr
    ensures Prevs(m', base, Splice(bs, lo, hi, mid))
  {
    hide Ld;
    var r := Splice(bs, lo, hi, mid);
    var d := lo + |mid| - hi;
    forall i, j | 0 <= i && j == i + 1 < |r| ensures Ld(m', base + r[j].addr + PREV) == r[i].addr {
      if j < lo {
        assert r[i] == bs[i] && r[j] == bs[j];
      } else if j == lo {
        assert r[i] == bs[lo - 1] && r[j] == mid[0];
      } else if j < lo + |mid| {
        assert r[i] == mid[i - lo] && r[j] == mid[j - lo];
      } else if j == lo + |mid| {
        assert r[i] == mid[|mid| - 1] && r[j] == bs[hi];
      } else {
        assert r[i] == bs[i - d] && r[j] == bs[j - d];
      }
    }
  }

  /** Outside the window nothing of the chain was written, except `prev` just behind it. */
  ghost predicate Framed(m: Mem, m': Mem, base: int, bs: seq<Block>, lo: int, hi: int, end: int) {
    && 0 <= lo < hi <= |bs|
    && (forall k :: 0 <= k < lo || hi <= k < |bs| ==>
          SameMark(m, m', base + bs[k].addr)
          && SameNext(m, m', base + bs[k].addr))
    && (forall k :: 0 <= k < lo || hi < k < |bs| ==> SamePrev(m, m', base + bs[k].addr))
    && SamePrev(m, m', base + bs[lo].addr)
    && SameMark(m, m', base + end) && SameNext(m, m', base + end)
  }

  /** The chain after a window was rewritten in memory. */
  lemma RepSplice(m: Mem, m': Mem, base: int, bs: seq<Block>, lo: int, hi: int, mid: seq<Block>, end: int)
    requires ChainRep(m, base, bs, end) && |mid| > 0
    requires Framed(m, m', base, bs, lo, hi, end)
    requires Heads(m', base, mid) && Prevs(m', base, mid) && mid[0].addr == bs[lo].addr
    requires hi < |bs| ==> Ld(m', base + bs[hi].addr + PREV) == mid[|mid| - 1].addr
    ensures ChainRep(m', base, Splice(bs, lo, hi, mid), end)
  {
    HeadsSplice(m, m', base, bs, lo, hi, mid);
    PrevsSplice(m, m', base, bs, lo, hi, mid);
    hide Ld, Heads, Prevs;
    var r := Splice(bs, lo, hi, mid);
    assert r[0].addr == 0 && SamePrev(m, m', base + bs[0].addr);
  }

  lemma LinkedParts(m: Mem, c: Chain)
    requires Linked(m, c)
    ensures Spaced(HDR, c.slots) && HeadersIn(c.bs, c.end, c.slots) && ChainRep(m, c.base, c.bs, c.end)
  {
  }

  /** The chain depends on the cells of its headers only. */
  lemma SameHeaders(m: Mem, m': Mem, c: Chain)
    requires Linked(m, c)
    requires forall a, x :: a in c.slots && c.base + a <= x < c.base + a + HDR ==> Ld(m', x) == Ld(m, x)
    ensures Linked(m', c)
  {
    hide Ld, Spaced;
    forall a | a in c.slots
      ensures SameMark(m, m', c.base + a) && SameNext(m, m', c.base + a) && SamePrev(m, m', c.base + a)
    {
    }
    assert c.bs[0].addr in c.slots;
  }

  /** What the header of block i reads as. */
  lemma Reads(m: Mem, c: Chain, i: int)
    requires Linked(m, c) && 0 <= i < |c.bs|
    ensures HeadRep(m, c.base, c.bs[i]) && c.bs[i].end == After(c.bs, i, c.end)
    ensures c.bs[i].addr in c.slots && After(c.bs, i, c.end) in c.slots && After(c.bs, i, c.end) != c.bs[i].addr
    ensures Ld(m, c.base + c.bs[i].addr + PREV) == if i > 0 then c.bs[i - 1].addr else 0
    ensures HeadRep(m, c.base, Block(c.end, c.end, true))
    ensures (c.bs[i].end == c.end) == (i + 1 == |c.bs|)
    ensures (c.bs[i].addr == 0) == (i == 0)
  {
    hide Ld;
    assert c.bs[0].addr == 0;
  }

  /** A free header at offset a behind block p: its four fields, `next` of p, and `prev` of the one after. */
  function InsertMem(m: Mem, base: int, p: int, a: int, end: int): Mem {
    var n := Ld(m, base + p + NEXT);
    var m4 := m[base + a + MAGIC := HEAP_MAGIC][base + a + USED := 0][base + a + NEXT := n][base + a + PREV := p];
    var m5 := m4[base + p + NEXT := a];
    if n != end then m5[base + n + PREV := a] else m5
  }

  lemma InsertCells(m: Mem, base: int, p: int, a: int, n: int, end: int, slots: set<int>)
    requires Spaced(HDR, slots) && p in slots && a in slots && n in slots && a != p && a != n
    requires n == Ld(m, base + p + NEXT)
    ensures var m' := InsertMem(m, base, p, a, end);
            && Only(m, m',
                {base + a + MAGIC, base + a + USED, base + a + NEXT, base + a + PREV, base + p + NEXT, base + n + PREV})
            && Ld(m', base + a + MAGIC) == HEAP_MAGIC && Ld(m', base + a + USED) == 0
            && Ld(m', base + a + NEXT) == n && Ld(m', base + a + PREV) == p
            && Ld(m', base + p + NEXT) == a && (n != end ==> Ld(m', base + n + PREV) == a)
            && Ld(m', base + p + MAGIC) == Ld(m, base + p + MAGIC) && Ld(m', base + p + USED) == Ld(m, base + p + USED)
  {
    assert a + HDR <= p || p + HDR <= a;
    assert a + HDR <= n || n + HDR <= a;
    assert n == p || n + HDR <= p || p + HDR <= n;
  }

  lemma InsertFramed(m: Mem, m': Mem, base: int, bs: seq<Block>, end: int, slots: set<int>, i: int, a: int)
    requires Spaced(HDR, slots) && 0 <= i < |bs| && HeadersIn(bs, end, slots)
    requires a in slots && a != end && (forall k :: 0 <= k < |bs| ==> bs[k].addr != a)
    requires Only(m, m',
             {base + a + MAGIC, base + a + USED, base + a + NEXT, base + a + PREV, base + bs[i].addr + NEXT, base
                 + After(bs, i, end) + PREV})
    ensures Framed(m, m', base, bs, i, i + 1, end)
  {
    hide Ld, Spaced, Only;
    CellsApart(m, m', base, slots, a, bs[i].addr, After(bs, i, end));
  }

  lemma InsertedPair(m': Mem, base: int, b: Block, a: int)
    requires Ld(m', base + b.addr + MAGIC) == HEAP_MAGIC && Ld(m', base + b.addr + USED) == Flag(b.used)
             && Ld(m', base + b.addr + NEXT) == a
    requires Ld(m', base + a + MAGIC) == HEAP_MAGIC && Ld(m', base + a + USED) == 0
    requires Ld(m', base + a + NEXT) == b.end && Ld(m', base + a + PREV) == b.addr
    ensures Heads(m', base, [b.(end := a), Block(a, b.end, false)])
            && Prevs(m', base, [b.(end := a), Block(a, b.end, false)])
  {
    hide Ld;
  }

  lemma InsertHeaders(c: Chain, i: int, a: int)
    requires HeadersIn(c.bs, c.end, c.slots) && 0 <= i < |c.bs|
    requires a in c.slots && a != c.end && (forall k :: 0 <= k < |c.bs| ==> c.bs[k].addr != a)
    ensures HeadersIn(Splice(c.bs, i, i + 1, [c.bs[i].(end := a), Block(a, c.bs[i].end, false)]), c.end, c.slots)
  {
    var r := Splice(c.bs, i, i + 1, [c.bs[i].(end := a), Block(a, c.bs[i].end, false)]);
    forall k | 0 <= k < |r| ensures r[k].addr
        == (if k <= i then c.bs[k].addr else if k == i + 1 then a else c.bs[k - 1].addr) {
    }
    forall k | 0 <= k < |r| ensures r[k].end == (if k < i then c.bs[k].end else if k == i then a else c.bs[k - 1].end) {
    }
  }

  lemma InsertPrepared(m: Mem, c: Chain, i: int, a: int)
    requires Linked(m, c) && 0 <= i < |c.bs|
    requires a in c.slots && a != c.end && (forall k :: 0 <= k < |c.bs| ==> c.bs[k].addr != a)
    ensures var m', p, n := InsertMem(m, c.base, c.bs[i].addr, a, c.end), c.bs[i].addr, After(c.bs, i, c.end);
            && Only(m, m',
                {c.base + a + MAGIC, c.base + a + USED, c.base + a + NEXT, c.base + a + PREV, c.base + p + NEXT,
                    c.base + n + PREV})
            && Framed(m, m', c.base, c.bs, i, i + 1, c.end)
            && Heads(m', c.base, [c.bs[i].(end := a), Block(a, c.bs[i].end, false)])
            && Prevs(m', c.base, [c.bs[i].(end := a), Block(a, c.bs[i].end, false)])
            && (i + 1 < |c.bs| ==> Ld(m', c.base + n + PREV) == a)
  {
    hide Linked, Ld, InsertMem, Only, Spaced, HeadersIn, Framed, Heads, Prevs;
    var p, n := c.bs[i].addr, After(c.bs, i, c.end);
    LinkedParts(m, c);
    Reads(m, c, i);
    InsertCells(m, c.base, p, a, n, c.end, c.slots);
    var m' := InsertMem(m, c.base, p, a, c.end);
    InsertFramed(m, m', c.base, c.bs, c.end, c.slots, i, a);
    InsertedPair(m', c.base, c.bs[i], a);
  }

  /** Block i is cut at `a`: a new header there, linked in behind block i. */
  lemma InsertLinked(m: Mem, c: Chain, i: int, a: int)
    requires Linked(m, c) && 0 <= i < |c.bs|
    requires a in c.slots && a != c.end && (forall k :: 0 <= k < |c.bs| ==> c.bs[k].addr != a)
    ensures Linked(InsertMem(m, c.base, c.bs[i].addr, a, c.end),
                   c.(bs := Splice(c.bs, i, i + 1, [c.bs[i].(end := a), Block(a, c.bs[i].end, false)])))
    ensures Only(m, InsertMem(m, c.base, c.bs[i].addr, a, c.end),
                 {c.base + a + MAGIC, c.base + a + USED, c.base + a + NEXT, c.base + a + PREV,
                  c.base + c.bs[i].addr + NEXT, c.base + After(c.bs, i, c.end) + PREV})
  {
    hide ChainRep, HeadersIn, Ld, InsertMem, Splice, Only, Spaced, Framed, Heads, Prevs;
    LinkedParts(m, c);
    InsertPrepared(m, c, i, a);
    InsertHeaders(c, i, a);
    RepSplice(m, InsertMem(m, c.base, c.bs[i].addr, a, c.end), c.base, c.bs, i, i + 1,
              [c.bs[i].(end := a), Block(a, c.bs[i].end, false)], c.end);
  }

  /** Block p swallows the next one, x: plug_holes' two assignments. */
  function JoinMem(m: Mem, base: int, p: int, x: int): Mem {
    var n := Ld(m, base + x + NEXT);
    m[base + p + NEXT := n][base + n + PREV := p]
  }

  lemma JoinFramed(m: Mem, m': Mem, base: int, bs: seq<Block>, end: int, slots: set<int>, i: int)
    requires Spaced(HDR, slots) && 0 <= i < |bs| - 1 && HeadersIn(bs, end, slots)
    requires Only(m, m', {base + bs[i].addr + NEXT, base + After(bs, i + 1, end) + PREV})
    ensures Framed(m, m', base, bs, i, i + 2, end) && SameMark(m, m', base + bs[i].addr)
  {
    hide Ld, Spaced, Only;
    JoinCellsApart(m, m', base, slots, bs[i].addr, After(bs, i + 1, end));
  }

  lemma JoinHeaders(c: Chain, i: int)
    requires HeadersIn(c.bs, c.end, c.slots) && 0 <= i < |c.bs| - 1
    ensures HeadersIn(Splice(c.bs, i, i + 2, [c.bs[i].(end := c.bs[i + 1].end)]), c.end, c.slots)
    ensures After(c.bs, i + 1, c.end) != c.bs[i].addr && After(c.bs, i + 1, c.end) in c.slots && c.bs[i].addr in c.slots
  {
    var r := Splice(c.bs, i, i + 2, [c.bs[i].(end := c.bs[i + 1].end)]);
    forall k | 0 <= k < |r| ensures r[k].addr == (if k <= i then c.bs[k].addr else c.bs[k + 1].addr) {
    }
    forall k | 0 <= k < |r| ensures r[k].end == (if k < i then c.bs[k].end else c.bs[k + 1].end) {
    }
  }

  lemma JoinCells(m: Mem, base: int, p: int, x: int, n: int, slots: set<int>)
    requires Spaced(HDR, slots) && p in slots && n in slots && n != p
    requires n == Ld(m, base + x + NEXT)
    ensures var m' := JoinMem(m, base, p, x);
            && Only(m, m', {base + p + NEXT, base + n + PREV})
            && Ld(m', base + n + PREV) == p && Ld(m', base + p + NEXT) == n
  {
    assert n + HDR <= p || p + HDR <= n;
  }

  /** Blocks i and i+1 become one: the header between them leaves the chain. */
  lemma JoinLinked(m: Mem, c: Chain, i: int)
    requires Linked(m, c) && 0 <= i < |c.bs| - 1
    ensures Linked(JoinMem(m, c.base, c.bs[i].addr, c.bs[i + 1].addr),
            c.(bs := Splice(c.bs, i, i + 2, [c.bs[i].(end := c.bs[i + 1].end)])))
    ensures Only(m, JoinMem(m, c.base, c.bs[i].addr, c.bs[i + 1].addr),
                 {c.base + c.bs[i].addr + NEXT, c.base + After(c.bs, i + 1, c.end) + PREV})
  {
    hide ChainRep, HeadersIn, Ld, JoinMem, Splice, Only, Spaced, Framed;
    var p, x, n := c.bs[i].addr, c.bs[i + 1].addr, After(c.bs, i + 1, c.end);
    LinkedParts(m, c);
    Reads(m, c, i);
    Reads(m, c, i + 1);
    JoinHeaders(c, i);
    JoinCells(m, c.base, p, x, n, c.slots);
    var m' := JoinMem(m, c.base, p, x);
    JoinFramed(m, m', c.base, c.bs, c.end, c.slots, i);
    RepSplice(m, m', c.base, c.bs, i, i + 2, [c.bs[i].(end := c.bs[i + 1].end)], c.end);
  }

  /** `mem->used = used; mem->magic = HEAP_MAGIC`. */
  function MarkMem(m: Mem, base: int, p: int, used: bool): Mem {
    m[base + p + USED := Flag(used)][base + p + MAGIC := HEAP_MAGIC]
  }

  lemma MarkCells(m: Mem, base: int, p: int, used: bool)
    ensures var m' := MarkMem(m, base, p, used);
            && Only(m, m', {base + p + MAGIC, base + p + USED})
            && Ld(m', base + p + MAGIC) == HEAP_MAGIC && Ld(m', base + p + USED) == Flag(used)
  {
  }

  lemma MarkHeaders(c: Chain, i: int, used: bool)
    requires HeadersIn(c.bs, c.end, c.slots) && 0 <= i < |c.bs|
    ensures HeadersIn(Splice(c.bs, i, i + 1, [c.bs[i].(used := used)]), c.end, c.slots)
  {
    var r := Splice(c.bs, i, i + 1, [c.bs[i].(used := used)]);
    forall k | 0 <= k < |r| ensures r[k].addr == c.bs[k].addr && r[k].end == c.bs[k].end {
    }
  }

  lemma MarkFramed(m: Mem, m': Mem, base: int, bs: seq<Block>, end: int, slots: set<int>, i: int)
    requires Spaced(HDR, slots) && 0 <= i < |bs| && HeadersIn(bs, end, slots)
    requires Only(m, m', {base + bs[i].addr + MAGIC, base + bs[i].addr + USED})
    ensures Framed(m, m', base, bs, i, i + 1, end) && SameNext(m, m', base + bs[i].addr)
    ensures SamePrev(m, m', base + After(bs, i, end))
  {
    hide Ld, Spaced, Only;
    MarkCellsApart(m, m', base, slots, bs[i].addr);
  }

  /** The used flag of block i is written. */
  lemma MarkLinked(m: Mem, c: Chain, i: int, used: bool)
    requires Linked(m, c) && 0 <= i < |c.bs|
    ensures Linked(MarkMem(m, c.base, c.bs[i].addr, used), c.(bs := Splice(c.bs, i, i + 1, [c.bs[i].(used := used)])))
    ensures Only(m, MarkMem(m, c.base, c.bs[i].addr, used),
            {c.base + c.bs[i].addr + MAGIC, c.base + c.bs[i].addr + USED})
  {
    hide ChainRep, HeadersIn, Ld, MarkMem, Splice, Only, Spaced, Framed;
    LinkedParts(m, c);
    Reads(m, c, i);
    if i + 1 < |c.bs| {
      Reads(m, c, i + 1);
    }
    MarkHeaders(c, i, used);
    MarkCells(m, c.base, c.bs[i].addr, used);
    var m' := MarkMem(m, c.base, c.bs[i].addr, used);
    MarkFramed(m, m', c.base, c.bs, c.end, c.slots, i);
    RepSplice(m, m', c.base, c.bs, i, i + 1, [c.bs[i].(used := used)], c.end);
  }

  /** x lies in no header. */
  ghost predicate Clear(x: int, base: int, slots: set<int>) {
    forall s :: s in slots ==> x < base + s || base + s + HDR <= x
  }

  /** Only headers were written. */
  ghost predicate WithinSlots(m: Mem, m': Mem, base: int, slots: set<int>) {
    forall x :: Clear(x, base, slots) ==> Ld(m', x) == Ld(m, x)
  }

  lemma CellsWithin(m: Mem, m': Mem, base: int, slots: set<int>, a: int, p: int, s: int)
    requires a in slots && p in slots && s in slots
    requires Only(m, m',
             {base + a + MAGIC, base + a + USED, base + a + NEXT, base + a + PREV, base + p + NEXT, base + s + PREV})
    ensures WithinSlots(m, m', base, slots)
  {
    hide Ld;
    forall x | Clear(x, base, slots) ensures Ld(m', x) == Ld(m, x) {
      assert x !in {base + a + MAGIC, base + a + USED, base + a + NEXT, base + a + PREV, base + p + NEXT, base + s
             + PREV};
    }
  }

  lemma JoinWithin(m: Mem, m': Mem, base: int, slots: set<int>, p: int, s: int)
    requires p in slots && s in slots && Only(m, m', {base + p + NEXT, base + s + PREV})
    ensures WithinSlots(m, m', base, slots)
  {
    hide Ld;
    forall x | Clear(x, base, slots) ensures Ld(m', x) == Ld(m, x) {
      assert x !in {base + p + NEXT, base + s + PREV};
    }
  }

  lemma MarkWithin(m: Mem, m': Mem, base: int, slots: set<int>, p: int)
    requires p in slots && Only(m, m', {base + p + MAGIC, base + p + USED})
    ensures WithinSlots(m, m', base, slots)
  {
    hide Ld;
    forall x | Clear(x, base, slots) ensures Ld(m', x) == Ld(m, x) {
      assert x !in {base + p + MAGIC, base + p + USED};
    }
  }

  lemma WithinStep(m: Mem, m1: Mem, m2: Mem, base: int, s: set<int>)
    requires WithinSlots(m, m1, base, s) && WithinSlots(m1, m2, base, s)
    ensures WithinSlots(m, m2, base, s)
  {
    hide Ld;
  }

  /** The header reached after n steps along `next`. */
  function Walk(m: Mem, base: int, a: int, n: nat): int
    decreases n
  {
    if n == 0 then a else Walk(m, base, Ld(m, base + a + NEXT), n - 1)
  }

  /** From any header, `next` visits the blocks in address order up to the end sentinel. */
  lemma {:induction false} NextVisitsAll(m: Mem, c: Chain, k: int, n: nat)
    requires Linked(m, c) && 0 <= k && k + n <= |c.bs|
    ensures Walk(m, c.base, if k < |c.bs| then c.bs[k].addr else c.end, n) == if k + n < |c.bs| then c.bs[k + n].addr
            else c.end
    decreases n
  {
    if n > 0 {
      NextVisitsAll(m, c, k + 1, n - 1);
      Reads(m, c, k);
    }
  }

  /** The guard of rt_malloc's loop, in 32-bit arithmetic. */
  predicate Guard(ptr: int, total: int, sz: int) {
    ptr < (total - sz) % 0x1_0000_0000
  }

  /** With an arena of at least 16 bytes the guard fails at the end sentinel. */
  lemma GuardStops(c: Chain, total: int, sz: int)
    requires c.end == total + HDR && 0 <= sz <= total < 0x1_0000_0000
    ensures !Guard(c.end, total, sz)
    ensures forall ptr :: Guard(ptr, total, sz) <==> ptr < total - sz
  {
  }

  /** With an arena of 8 bytes it never fails: the loop runs on the sentinel, whose `next` is itself, for ever. */
  lemma {:induction false} EightByteArenaLoops(m: Mem, c: Chain, n: nat)
    requires Linked(m, c) && c.bs == [Block(0, 24, false)] && c.end == 24
    ensures Guard(Walk(m, c.base, 0, n), 8, MIN_ALIGNED)
    ensures Walk(m, c.base, 24, n) == 24
    decreases n
  {
    Reads(m, c, 0);
    if n > 0 {
      EightByteArenaLoops(m, c, n - 1);
    }
  }
}
