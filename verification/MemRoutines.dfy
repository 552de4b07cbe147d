/** kservice.c: rt_memset, rt_memcpy and rt_memmove on a byte-addressed memory with 4-byte words. */
module MemRoutines {

  const LONG: int := 4

  /** The byte at offset j of a little-endian word. */
  function ByteOf(w: int, j: int): int {
    if j == 0 then w % 0x100
    else if j == 1 then w / 0x100 % 0x100
    else if j == 2 then w / 0x1_0000 % 0x100
    else w / 0x100_0000 % 0x100
  }

  /** `(d << 8) | d`, then `buffer |= buffer << 16`; the parts do not overlap. */
  function Replicate(d: int): int {
    var half := d * 0x100 + d;
    half * 0x1_0000 + half
  }

  /** Every byte of the replicated word is d. */
  lemma Replicated(d: int)
    requires 0 <= d < 0x100
    ensures forall j :: 0 <= j < LONG ==> ByteOf(Replicate(d), j) == d
  {
    assert Replicate(d) == d * 0x101_0101;
    assert Replicate(d) / 0x100 == d * 0x1_0101;
    assert Replicate(d) / 0x1_0000 == d * 0x101;
    assert Replicate(d) / 0x100_0000 == d;
  }

  /** A store of one aligned word. */
  method StoreWord(mem: array<int>, a: int, w: int)
    requires 0 <= a && a + LONG <= mem.Length
    modifies mem
    ensures forall x :: 0 <= x < mem.Length ==> mem[x] == if a <= x < a + LONG then ByteOf(w, x - a) else old(mem[x])
  {
    mem[a] := ByteOf(w, 0);
    mem[a + 1] := ByteOf(w, 1);
    mem[a + 2] := ByteOf(w, 2);
    mem[a + 3] := ByteOf(w, 3);
  }

  /** A load and a store of one aligned word: its four bytes move together. */
  method MoveWord(mem: array<int>, dst: int, src: int)
    requires 0 <= dst && dst + LONG <= mem.Length && 0 <= src && src + LONG <= mem.Length
    modifies mem
    ensures forall x :: 0 <= x < mem.Length ==> mem[x] == if dst <= x < dst + LONG then old(mem[x - dst + src])
            else old(mem[x])
  {
    mem[dst], mem[dst + 1], mem[dst + 2], mem[dst + 3] := mem[src], mem[src + 1], mem[src + 2], mem[src + 3];
  }

  /** The cells below m that belong to [s, s + count) are set, the others are as before. */
  ghost predicate SetUpTo(m: seq<int>, was: seq<int>, s: int, at: int, d: int) {
    |m| == |was| && forall x :: 0 <= x < |m| ==> m[x] == if s <= x < at then d else was[x]
  }

  /** rt_memset: the word-wide loops write exactly what a byte loop would. */
  method MemSet(mem: array<int>, s: int, c: int, count: int)
    requires 0 <= s && 0 <= count && s + count <= mem.Length
    modifies mem
    ensures mem[..] == old(mem[..s]) + seq(count, i => c % 0x100) + old(mem[s + count..])
  {
    ghost var was := mem[..];
    var d := c % 0x100;
    var m, left := s, count;
    if count >= LONG && s % LONG == 0 {
      m, left := SetWords(mem, s, d, count);
    }
    while left > 0
      invariant s <= m && 0 <= left && m + left == s + count
      invariant SetUpTo(mem[..], was, s, m, d)
    {
      mem[m] := d;
      m := m + 1;
      left := left - 1;
    }
  }

  /** The two word loops of rt_memset. */
  method SetWords(mem: array<int>, s: int, d: int, count: int) returns (m: int, left: int)
    requires 0 <= s && LONG <= count && s + count <= mem.Length && 0 <= d < 0x100
    modifies mem
    ensures s <= m && 0 <= left < LONG && m + left == s + count
    ensures SetUpTo(mem[..], old(mem[..]), s, m, d)
  {
    ghost var was := mem[..];
    var buffer := Replicate(d);
    Replicated(d);
    hide Replicate, ByteOf;
    m, left := s, count;
    while left >= LONG * 4
      invariant s <= m && 0 <= left && m + left == s + count
      invariant SetUpTo(mem[..], was, s, m, d)
    {
      StoreWord(mem, m, buffer);
      StoreWord(mem, m + 4, buffer);
      StoreWord(mem, m + 8, buffer);
      StoreWord(mem, m + 12, buffer);
      m := m + 16;
      left := left - 16;
    }
    while left >= LONG
      invariant s <= m && 0 <= left && m + left == s + count
      invariant SetUpTo(mem[..], was, s, m, d)
    {
      StoreWord(mem, m, buffer);
      m := m + LONG;
      left := left - LONG;
    }
  }

  /** The first n cells of the target hold what the source held; nothing else changed. */
  ghost predicate CopiedUpTo(m: seq<int>, was: seq<int>, dst: int, src: int, n: int) {
    && |m| == |was| && 0 <= n && 0 <= src && src + n <= |was| && 0 <= dst && dst + n <= |was|
    && (forall x :: dst <= x < dst + n ==> m[x] == was[x - dst + src])
    && (forall x :: 0 <= x < dst || dst + n <= x < |m| ==> m[x] == was[x])
  }

  /** The target of a forward copy never overtakes the source. */
  predicate Forward(dst: int, src: int, count: int) {
    dst <= src || src + count <= dst
  }

  /** rt_memcpy, for areas where a forward copy is right: disjoint ones, and a target at or below the source. */
  method MemCpy(mem: array<int>, dst: int, src: int, count: int)
    requires 0 <= count < 0x8000_0000 && 0 <= dst && dst + count <= mem.Length && 0 <= src && src + count <= mem.Length
    requires Forward(dst, src, count)
    modifies mem
    ensures CopiedUpTo(mem[..], old(mem[..]), dst, src, count)
  {
    ghost var was := mem[..];
    var n := 0;
    if count >= LONG * 4 && dst % LONG == 0 && src % LONG == 0 {
      n := CopyWords(mem, dst, src, count);
    }
    while n < count
      invariant 0 <= n <= count && CopiedUpTo(mem[..], was, dst, src, n)
    {
      assert mem[src + n] == was[src + n];
      mem[dst + n] := mem[src + n];
      n := n + 1;
    }
  }

  /** The two word loops of rt_memcpy. */
  method CopyWords(mem: array<int>, dst: int, src: int, count: int) returns (n: int)
    requires 0 <= count && 0 <= dst && dst + count <= mem.Length && 0 <= src && src + count <= mem.Length
    requires Forward(dst, src, count) && dst % LONG == 0 && src % LONG == 0
    modifies mem
    ensures 0 <= n <= count && count - n < LONG && CopiedUpTo(mem[..], old(mem[..]), dst, src, n)
  {
    ghost var was := mem[..];
    n := 0;
    while count - n >= LONG * 4
      invariant 0 <= n <= count && n % LONG == 0 && CopiedUpTo(mem[..], was, dst, src, n)
    {
      n := CopyWord(mem, dst, src, count, n, was);
      n := CopyWord(mem, dst, src, count, n, was);
      n := CopyWord(mem, dst, src, count, n, was);
      n := CopyWord(mem, dst, src, count, n, was);
    }
    while count - n >= LONG
      invariant 0 <= n <= count && n % LONG == 0 && CopiedUpTo(mem[..], was, dst, src, n)
    {
      n := CopyWord(mem, dst, src, count, n, was);
    }
  }

  /** `*aligned_dst++ = *aligned_src++`. */
  method CopyWord(mem: array<int>, dst: int, src: int, count: int, n: int, ghost was: seq<int>) returns (n': int)
    requires 0 <= n && n + LONG <= count && 0 <= dst && dst + count <= mem.Length && 0 <= src
             && src + count <= mem.Length
    requires Forward(dst, src, count) && dst % LONG == 0 && src % LONG == 0 && n % LONG == 0
    requires CopiedUpTo(mem[..], was, dst, src, n)
    modifies mem
    ensures n' == n + LONG && n' % LONG == 0 && CopiedUpTo(mem[..], was, dst, src, n')
  {
    Unread(mem[..], was, dst, src, n, count);
    MoveWord(mem, dst + n, src + n);
    n' := n + LONG;
    forall x | dst <= x < dst + n + LONG ensures mem[x] == was[x - dst + src] {
      if dst + n <= x {
        assert mem[x] == old(mem[..])[x - dst + src];
      }
    }
  }

  /** What is still to be copied has not been overwritten. */
  lemma Unread(m: seq<int>, was: seq<int>, dst: int, src: int, n: int, count: int)
    requires CopiedUpTo(m, was, dst, src, n) && Forward(dst, src, count) && 0 <= n <= count && src + count <= |m|
    ensures forall x :: src + n <= x < src + count ==> m[x] == was[x]
  {
  }

  /** rt_memmove: whatever the overlap, the target holds what the source held. */
  method MemMove(mem: array<int>, dest: int, src: int, n: int)
    requires 0 <= n && 0 <= dest && dest + n <= mem.Length && 0 <= src && src + n <= mem.Length
    modifies mem
    ensures CopiedUpTo(mem[..], old(mem[..]), dest, src, n)
  {
    ghost var was := mem[..];
    var k := 0;
    if src < dest && dest < src + n {
      k := n;
      while k > 0
        invariant 0 <= k <= n
        invariant forall x :: dest + k <= x < dest + n ==> mem[x] == was[x - dest + src]
        invariant forall x :: 0 <= x < dest + k || dest + n <= x < mem.Length ==> mem[x] == was[x]
      {
        k := k - 1;
        assert mem[src + k] == was[src + k];
        mem[dest + k] := mem[src + k];
      }
    } else {
      while k < n
        invariant 0 <= k <= n && CopiedUpTo(mem[..], was, dest, src, k)
      {
        assert mem[src + k] == was[src + k];
        mem[dest + k] := mem[src + k];
        k := k + 1;
      }
    }
  }

  /** The byte-by-byte forward copy as a function. */
  function CopyForward(m: seq<int>, dst: int, src: int, n: int): (r: seq<int>)
    requires 0 <= n && 0 <= dst && dst + n <= |m| && 0 <= src && src + n <= |m|
    ensures |r| == |m|
    decreases n
  {
    if n == 0 then m
    else var r := CopyForward(m, dst, src, n - 1); r[dst + n - 1 := r[src + n - 1]]
  }

  /** From dst on, r repeats what lies d before. */
  ghost predicate Repeats(r: seq<int>, dst: int, end: int, d: int) {
    0 < d <= dst <= end <= |r| && forall x, y :: dst <= x < end && y == x - d ==> r[x] == r[y]
  }

  /** Where it is not right: a target inside the source repeats the first dst - src bytes. */
  lemma {:induction false} ForwardRepeats(m: seq<int>, dst: int, src: int, n: int)
    requires 0 <= n && 0 <= src < dst && dst + n <= |m|
    ensures Repeats(CopyForward(m, dst, src, n), dst, dst + n, dst - src)
    ensures forall x :: 0 <= x < dst ==> CopyForward(m, dst, src, n)[x] == m[x]
    decreases n
  {
    if n > 0 {
      ForwardRepeats(m, dst, src, n - 1);
    }
  }

  /** r holds at dst what m held d before it. */
  ghost predicate Shifted(r: seq<int>, m: seq<int>, dst: int, end: int, d: int) {
    0 < d <= dst <= end <= |m| == |r| && forall x, y :: dst <= x < end && y == x - d ==> r[x] == m[y]
  }

  /** So it equals the simultaneous copy exactly when the source already had that period. */
  lemma ForwardRightIff(m: seq<int>, dst: int, src: int, n: int)
    requires 0 <= n && 0 <= src < dst && dst + n <= |m|
    ensures Shifted(CopyForward(m, dst, src, n), m, dst, dst + n, dst - src)
            <==> (n <= dst - src || Repeats(m, dst, src + n, dst - src))
  {
    ForwardRepeats(m, dst, src, n);
    var r, d := CopyForward(m, dst, src, n), dst - src;
    if Shifted(r, m, dst, dst + n, d) && n > d {
      RightThenPeriod(m, r, dst, d, n);
    }
    if n <= d || Repeats(m, dst, src + n, d) {
      PeriodCarries(m, r, dst, d, n, n);
    }
  }

  lemma RightThenPeriod(m: seq<int>, r: seq<int>, dst: int, d: int, n: int)
    requires Shifted(r, m, dst, dst + n, d) && Repeats(r, dst, dst + n, d) && n > d
    ensures Repeats(m, dst, dst - d + n, d)
  {
    forall x, y | dst <= x < dst - d + n && y == x - d ensures m[x] == m[y] {
      var z := x + d;
      assert r[z] == m[x] && r[z] == r[x] && r[x] == m[y];
    }
  }

  lemma {:induction false} PeriodCarries(m: seq<int>, r: seq<int>, dst: int, d: int, n: int, k: int)
    requires 0 < d <= dst && 0 <= k <= n && dst + n <= |m| == |r|
    requires forall x :: 0 <= x < dst ==> r[x] == m[x]
    requires Repeats(r, dst, dst + n, d)
    requires n <= d || Repeats(m, dst, dst - d + n, d)
    ensures Shifted(r, m, dst, dst + k, d)
    decreases k
  {
    if k > 0 {
      PeriodCarries(m, r, dst, d, n, k - 1);
      var x := dst + k - 1;
      var y := x - d;
      assert r[x] == r[y];
      if y >= dst {
        var z := y - d;
        assert r[y] == m[z] && m[y] == m[z];
      }
    }
  }
}
