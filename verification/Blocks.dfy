/** What the two heap allocators share: an arena of cells, and a sequence of blocks that tile it. */
module Memory {

  /** The cells of the RAM, by byte address: one cell for each header field and each data word. */
  type Mem = map<int, int>

  function Ld(m: Mem, a: int): int {
    if a in m then m[a] else 0
  }

  /** Header slots, hdr bytes each, never overlap. */
  ghost predicate Spaced(hdr: int, slots: set<int>) {
    forall x, y :: x in slots && y in slots && x != y ==> x + hdr <= y || y + hdr <= x
  }

  /** m' differs from m at most in the listed cells. */
  ghost predicate Only(m: Mem, m': Mem, cells: set<int>) {
    forall x :: x !in cells ==> Ld(m', x) == Ld(m, x)
  }

  /** The n cells at dst now hold what the n cells at src held before. */
  ghost predicate Copied(m: Mem, m': Mem, dst: int, src: int, n: int) {
    forall x :: dst <= x < dst + n ==> Ld(m', x) == Ld(m, x - dst + src)
  }
}

module Words {

  const WORD: int := 0x1_0000_0000

  /** RT_ALIGN(size, 8) on a 32-bit rt_size_t: the addition wraps before the low bits are cleared. */
  function AlignUp(size: int): int {
    (size + 7) % WORD / 8 * 8
  }

  /** Rounding up covers the request except for the seven sizes whose addition wraps. */
  lemma AlignUpCovers(size: int)
    requires 0 <= size < WORD
    ensures AlignUp(size) >= size <==> size <= 0xFFFF_FFF8
    ensures size <= 0xFFFF_FFF8 ==> AlignUp(size) < size + 8
    ensures size > 0xFFFF_FFF8 ==> AlignUp(size) == 0
    ensures AlignUp(size) % 8 == 0 && 0 <= AlignUp(size) < WORD
  {
    if size > 0xFFFF_FFF8 {
      assert (size + 7) % WORD == size + 7 - WORD;
    } else {
      assert (size + 7) % WORD == size + 7;
    }
  }

  function Max(a: int, b: int): int {
    if a < b then b else a
  }

  function Min(a: int, b: int): int {
    if a < b then a else b
  }
}

module Blocks {

  /** A block owns [addr, end): its header, then its data. */
  datatype Block = Block(addr: int, end: int, used: bool)

  /** The blocks cover [lo, hi) in address order, each at least `gap` long. */
  ghost predicate Tiled(bs: seq<Block>, lo: int, hi: int, gap: int) {
    && |bs| > 0
    && bs[0].addr == lo
    && bs[|bs| - 1].end == hi
    && (forall i :: 0 <= i < |bs| ==> bs[i].addr + gap <= bs[i].end)
    && (forall i, j :: 0 <= i && j == i + 1 < |bs| ==> bs[i].end == bs[j].addr)
  }

  ghost predicate NoFreePair(bs: seq<Block>) {
    forall i, j :: 0 <= i && j == i + 1 < |bs| ==> bs[i].used || bs[j].used
  }

  ghost predicate Ordered(bs: seq<Block>) {
    forall i, j :: 0 <= i < j < |bs| ==> bs[i].end <= bs[j].addr
  }

  /** Blocks that tile an interval are in strict address order and never overlap. */
  lemma {:induction false} TiledOrdered(bs: seq<Block>, lo: int, hi: int, gap: int)
    requires Tiled(bs, lo, hi, gap) && gap > 0
    ensures Ordered(bs)
    ensures forall i :: 0 <= i < |bs| ==> lo <= bs[i].addr && bs[i].end <= hi
  {
    if |bs| > 1 {
      var n := |bs| - 1;
      var init := bs[..n];
      assert init[n - 1].end == bs[n].addr;
      TiledOrdered(init, lo, bs[n].addr, gap);
      forall i, j | 0 <= i < j < |bs| ensures bs[i].end <= bs[j].addr {
        assert bs[i] == init[i];
        if j < n {
          assert bs[j] == init[j];
        }
      }
      forall i | 0 <= i < |bs| ensures lo <= bs[i].addr && bs[i].end <= hi {
        if i < n {
          assert bs[i] == init[i];
        } else {
          assert lo <= init[n - 1].addr;
        }
      }
    }
  }

  /** bs with the blocks from lo up to hi replaced by mid. */
  function Splice(bs: seq<Block>, lo: int, hi: int, mid: seq<Block>): seq<Block>
    requires 0 <= lo <= hi <= |bs|
  {
    bs[..lo] + mid + bs[hi..]
  }

  lemma SpliceLength(bs: seq<Block>, lo: int, hi: int, mid: seq<Block>)
    requires 0 <= lo <= hi <= |bs|
    ensures |Splice(bs, lo, hi, mid)| == |bs| - (hi - lo) + |mid|
  {
  }

  /** Replacing a window by blocks that tile the same bytes keeps the tiling. */
  lemma SpliceTiled(bs: seq<Block>, lo: int, hi: int, mid: seq<Block>, a: int, b: int, gap: int)
    requires Tiled(bs, a, b, gap)
    requires 0 <= lo < hi <= |bs|
    requires Tiled(mid, bs[lo].addr, bs[hi - 1].end, gap)
    ensures Tiled(Splice(bs, lo, hi, mid), a, b, gap)
  {
    var r := Splice(bs, lo, hi, mid);
    var d := lo + |mid| - hi;
    forall i, j | 0 <= i && j == i + 1 < |r| ensures r[i].end == r[j].addr {
      if j < lo {
      } else if j == lo {
        assert r[i] == bs[lo - 1] && r[j] == mid[0];
      } else if j < lo + |mid| {
        assert r[i] == mid[i - lo] && r[j] == mid[j - lo];
      } else if j == lo + |mid| {
        assert r[i] == mid[|mid| - 1] && r[j] == bs[hi];
      } else {
        assert r[i] == bs[i - d] && r[j] == bs[j - d];
      }
    }
    if hi == |bs| {
      assert r[|r| - 1] == mid[|mid| - 1];
    } else {
      assert r[|r| - 1] == bs[|bs| - 1];
    }
  }

  /** The window may be replaced if neither of its edges meets a free block outside. */
  lemma SpliceNoFreePair(bs: seq<Block>, lo: int, hi: int, mid: seq<Block>)
    requires NoFreePair(bs) && NoFreePair(mid)
    requires 0 <= lo < hi <= |bs| && |mid| > 0
    requires lo > 0 ==> bs[lo - 1].used || mid[0].used
    requires hi < |bs| ==> mid[|mid| - 1].used || bs[hi].used
    ensures NoFreePair(Splice(bs, lo, hi, mid))
  {
    var r := Splice(bs, lo, hi, mid);
    var d := lo + |mid| - hi;
    forall i, j | 0 <= i && j == i + 1 < |r| ensures r[i].used || r[j].used {
      if j < lo {
        assert r[i] == bs[i] && r[j] == bs[j];
      } else if j == lo {
        assert r[i] == bs[lo - 1] && r[j] == mid[0];
      } else if j < lo + |mid| {
        assert r[i] == mid[i - lo] && r[j] == mid[j - lo];
      } else if j == lo + |mid| {
        assert r[i] == mid[|mid| - 1] && r[j] == bs[hi];
      } else {
        assert r[i] == bs[i - d] && r[j] == bs[j - d];
      }
    }
  }

  /** The data bytes of the free blocks, hdr bytes of each being header. */
  function FreeBytes(bs: seq<Block>, hdr: int): int {
    if bs == [] then 0
    else (if bs[0].used then 0 else bs[0].end - bs[0].addr - hdr) + FreeBytes(bs[1..], hdr)
  }

  /** The bytes of the used blocks, headers included. */
  function UsedBytes(bs: seq<Block>): int {
    if bs == [] then 0
    else (if bs[0].used then bs[0].end - bs[0].addr else 0) + UsedBytes(bs[1..])
  }

  lemma {:induction false} FreeBytesConcat(a: seq<Block>, b: seq<Block>, hdr: int)
    ensures FreeBytes(a + b, hdr) == FreeBytes(a, hdr) + FreeBytes(b, hdr)
  {
    if a == [] {
      assert a + b == b;
    } else {
      FreeBytesConcat(a[1..], b, hdr);
      assert (a + b)[1..] == a[1..] + b;
    }
  }

  lemma {:induction false} UsedBytesConcat(a: seq<Block>, b: seq<Block>)
    ensures UsedBytes(a + b) == UsedBytes(a) + UsedBytes(b)
  {
    if a == [] {
      assert a + b == b;
    } else {
      UsedBytesConcat(a[1..], b);
      assert (a + b)[1..] == a[1..] + b;
    }
  }

  /** A splice changes the free bytes by what the window gains and loses. */
  lemma SpliceFreeBytes(bs: seq<Block>, lo: int, hi: int, mid: seq<Block>, hdr: int)
    requires 0 <= lo <= hi <= |bs|
    ensures FreeBytes(Splice(bs, lo, hi, mid), hdr)
         == FreeBytes(bs, hdr) - FreeBytes(bs[lo..hi], hdr) + FreeBytes(mid, hdr)
  {
    FreeBytesConcat(bs[..lo] + mid, bs[hi..], hdr);
    FreeBytesConcat(bs[..lo], mid, hdr);
    assert bs == bs[..lo] + bs[lo..hi] + bs[hi..];
    FreeBytesConcat(bs[..lo] + bs[lo..hi], bs[hi..], hdr);
    FreeBytesConcat(bs[..lo], bs[lo..hi], hdr);
  }

  lemma SpliceUsedBytes(bs: seq<Block>, lo: int, hi: int, mid: seq<Block>)
    requires 0 <= lo <= hi <= |bs|
    ensures UsedBytes(Splice(bs, lo, hi, mid)) == UsedBytes(bs) - UsedBytes(bs[lo..hi]) + UsedBytes(mid)
  {
    UsedBytesConcat(bs[..lo] + mid, bs[hi..]);
    UsedBytesConcat(bs[..lo], mid);
    assert bs == bs[..lo] + bs[lo..hi] + bs[hi..];
    UsedBytesConcat(bs[..lo] + bs[lo..hi], bs[hi..]);
    UsedBytesConcat(bs[..lo], bs[lo..hi]);
  }

  /** Used and free bytes of a tiling add up to the arena. */
  lemma {:induction false} TiledBytes(bs: seq<Block>, lo: int, hi: int, gap: int)
    requires Tiled(bs, lo, hi, gap)
    ensures UsedBytes(bs) + FreeBytes(bs, 0) == hi - lo
  {
    if |bs| > 1 {
      TiledBytes(bs[1..], bs[1].addr, hi, gap);
    }
  }

  /** The free blocks' headers. */
  function FreeAddrs(bs: seq<Block>): set<int> {
    set i | 0 <= i < |bs| && !bs[i].used :: bs[i].addr
  }

  /** The blocks handed out to callers. */
  function Live(bs: seq<Block>): set<Block> {
    set i | 0 <= i < |bs| && bs[i].used :: bs[i]
  }

  lemma MembersConcat(a: seq<Block>, b: seq<Block>)
    ensures FreeAddrs(a + b) == FreeAddrs(a) + FreeAddrs(b)
    ensures Live(a + b) == Live(a) + Live(b)
  {
    var c := a + b;
    forall i | 0 <= i < |b| ensures c[|a| + i] == b[i] {
    }
    forall i | 0 <= i < |a| ensures c[i] == a[i] {
    }
    forall x | x in FreeAddrs(c) ensures x in FreeAddrs(a) + FreeAddrs(b) {
      var i :| 0 <= i < |c| && !c[i].used && c[i].addr == x;
      assert if i < |a| then c[i] == a[i] else c[i] == b[i - |a|];
    }
    forall x | x in Live(c) ensures x in Live(a) + Live(b) {
      var i :| 0 <= i < |c| && c[i].used && c[i] == x;
      assert if i < |a| then c[i] == a[i] else c[i] == b[i - |a|];
    }
    forall x | x in FreeAddrs(b) ensures x in FreeAddrs(c) {
      var i :| 0 <= i < |b| && !b[i].used && b[i].addr == x;
      assert c[|a| + i] == b[i];
    }
    forall x | x in Live(b) ensures x in Live(c) {
      var i :| 0 <= i < |b| && b[i].used && b[i] == x;
      assert c[|a| + i] == b[i];
    }
  }

  /** Blocks of one part of an ordered sequence are not blocks of another. */
  lemma PartsDisjoint(a: seq<Block>, b: seq<Block>)
    requires Ordered(a + b)
    requires forall i :: 0 <= i < |a + b| ==> (a + b)[i].addr < (a + b)[i].end
    ensures FreeAddrs(a) !! FreeAddrs(b) && Live(a) !! Live(b)
  {
    var c := a + b;
    forall i, j | 0 <= i < |a| && 0 <= j < |b| ensures a[i].addr != b[j].addr {
      assert c[i] == a[i] && c[|a| + j] == b[j];
    }
  }

  /** A splice changes the free headers and the live blocks by what the window gains and loses. */
  lemma SpliceMembers(bs: seq<Block>, lo: int, hi: int, mid: seq<Block>)
    requires 0 <= lo <= hi <= |bs| && Ordered(bs)
    requires forall i :: 0 <= i < |bs| ==> bs[i].addr < bs[i].end
    ensures FreeAddrs(Splice(bs, lo, hi, mid)) == FreeAddrs(bs) - FreeAddrs(bs[lo..hi]) + FreeAddrs(mid)
    ensures Live(Splice(bs, lo, hi, mid)) == Live(bs) - Live(bs[lo..hi]) + Live(mid)
  {
    var pre, win, post := bs[..lo], bs[lo..hi], bs[hi..];
    assert bs == pre + win + post;
    assert bs == pre + (win + post);
    assert Ordered(pre + win) by {
      assert forall i :: 0 <= i < |pre + win| ==> (pre + win)[i] == bs[i];
    }
    PartsDisjoint(pre, win);
    PartsDisjoint(pre + win, post);
    hide FreeAddrs, Live, Ordered;
    MembersConcat(pre + mid, post);
    MembersConcat(pre, mid);
    MembersConcat(pre + win, post);
    MembersConcat(pre, win);
  }

  /** The position of the block whose header is at a, or |bs|. */
  function IndexAt(bs: seq<Block>, a: int): (i: int)
    ensures 0 <= i <= |bs|
    ensures i < |bs| ==> bs[i].addr == a
    ensures forall j :: 0 <= j < i ==> bs[j].addr != a
  {
    if bs == [] then 0
    else if bs[0].addr == a then 0
    else
      var k := IndexAt(bs[1..], a);
      assert forall j :: 0 < j < k + 1 ==> bs[j] == bs[1..][j - 1];
      k + 1
  }

  /** The blocks merged with block i when it becomes free: [lo, hi). */
  function LeftEdge(bs: seq<Block>, i: int): int
    requires 0 <= i < |bs|
  {
    if i > 0 && !bs[i - 1].used then i - 1 else i
  }

  function RightEdge(bs: seq<Block>, i: int): int
    requires 0 <= i < |bs|
  {
    if i + 1 < |bs| && !bs[i + 1].used then i + 2 else i + 1
  }

  /** A block starts and ends on a multiple of n. */
  predicate OnBoundary(b: Block, n: int)
    requires n > 0
  {
    b.addr % n == 0 && b.end % n == 0
  }

  /** Every block starts and ends on a multiple of n. */
  ghost predicate Aligned(bs: seq<Block>, n: int)
    requires n > 0
  {
    forall i :: 0 <= i < |bs| ==> OnBoundary(bs[i], n)
  }

  lemma SpliceAligned(bs: seq<Block>, lo: int, hi: int, mid: seq<Block>, n: int)
    requires n > 0 && Aligned(bs, n) && Aligned(mid, n) && 0 <= lo <= hi <= |bs|
    ensures Aligned(Splice(bs, lo, hi, mid), n)
  {
    hide OnBoundary;
  }

  lemma SpliceSelf(bs: seq<Block>, i: int)
    requires 0 <= i < |bs|
    ensures !bs[i].used ==> Splice(bs, i, i + 1, [Block(bs[i].addr, bs[i].end, false)]) == bs
  {
  }

  lemma JoinedLeft(bs: seq<Block>, i: int)
    requires 0 < i < |bs|
    ensures Splice(bs, i - 1, i - 1 + 2, [bs[i - 1].(end := bs[i].end)])
         == Splice(bs, i - 1, i + 1, [Block(bs[i - 1].addr, bs[i].end, bs[i - 1].used)])
  {
  }
}
