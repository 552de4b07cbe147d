/** kservice.c: rt_malloc_align and rt_free_align over the small-memory allocator. */
module AlignedAlloc {
  import opened Memory
  import opened Words
  import opened Blocks
  import opened SmallMemModel
  import opened SmallMemLayout
  import opened SmallMemImpl

  function PowerOfTwo(k: nat): int {
    if k == 0 then 1 else 2 * PowerOfTwo(k - 1)
  }

  /** `(n + 3) & ~3` on 32 bits. */
  function Round4(n: int): int {
    (n + 3) % WORD / 4 * 4
  }

  /** What rt_malloc is asked for. */
  function AlignSize(size: int, align: int): int {
    (Round4(size) + Round4(align)) % WORD
  }

  /** The pointer handed out: for a power of two `x & (a - 1)` is `x % a` and `x & ~(a - 1)` is `x - x % a`. */
  function AlignPtr(ptr: int, a: int): int
    requires a > 0
  {
    if ptr % a == 0 then ptr + a else ptr + (a - 1) - (ptr + (a - 1)) % a
  }

  /** Every alignment of at least 4 that is a power of two is left as it is; 1 and 2 become 4. */
  lemma RoundedPower(k: nat)
    requires k <= 31
    ensures 0 < PowerOfTwo(k) <= 0x8000_0000 && (k >= 2 ==> PowerOfTwo(k) % 4 == 0)
    ensures Round4(PowerOfTwo(k)) == if k < 2 then 4 else PowerOfTwo(k)
  {
    PowerBound(k);
    SmallPowers(k);
    hide PowerOfTwo;
    RoundFours(PowerOfTwo(k));
  }

  lemma SmallPowers(k: nat)
    ensures k == 0 ==> PowerOfTwo(k) == 1
    ensures k == 1 ==> PowerOfTwo(k) == 2
    ensures k >= 2 ==> PowerOfTwo(k) % 4 == 0
  {
    if k >= 2 {
      assert PowerOfTwo(k) == 2 * PowerOfTwo(k - 1) == 4 * PowerOfTwo(k - 2);
    }
  }

  lemma RoundFours(n: int)
    requires 0 < n <= 0x8000_0000 && (n == 1 || n == 2 || n % 4 == 0)
    ensures Round4(n) == if n < 4 then 4 else n
  {
  }

  lemma {:induction false} PowerBound(k: nat)
    requires k <= 31
    ensures 0 < PowerOfTwo(k) && PowerOfTwo(k) * PowerOfTwo(31 - k) == PowerOfTwo(31) == 0x8000_0000
    ensures PowerOfTwo(k) <= 0x8000_0000
    decreases k
  {
    if k == 0 {
      assert PowerOfTwo(31) == 0x8000_0000 by {
        assert PowerOfTwo(8) == 0x100;
        assert PowerOfTwo(16) == 0x1_0000;
        assert PowerOfTwo(24) == 0x100_0000;
      }
    } else {
      PowerBound(k - 1);
      Product(PowerOfTwo(k - 1), PowerOfTwo(31 - k));
      Positive(31 - k);
      Factor(PowerOfTwo(k), PowerOfTwo(31 - k));
    }
  }

  lemma Product(x: int, y: int)
    ensures x * (2 * y) == 2 * x * y
  {
  }

  lemma Factor(x: int, y: int)
    requires x > 0 && y > 0
    ensures x <= x * y
  {
  }

  lemma {:induction false} Positive(k: nat)
    ensures PowerOfTwo(k) > 0
  {
    if k > 0 {
      Positive(k - 1);
    }
  }

  /** Neither the rounding of the size, nor the sum with the alignment, nor the rounding in rt_malloc wraps. */
  predicate AlignFits(size: int, a: int) {
    size + 3 < WORD && Round4(size) + a <= 0xFFFF_FFF8
  }

  /** What rt_malloc works with: all of the sum, or, when something wraps, far less than the size. */
  lemma AlignSum(size: int, a: int)
    requires 0 <= size < WORD && 4 <= a <= 0x8000_0000 && a % 4 == 0
    ensures var n := (Round4(size) + a) % WORD;
            if AlignFits(size, a) then size + a <= n == Round4(size) + a && Request(n) >= n
            else Request(n) + HDR + MIN_ALIGNED <= size
  {
    var n := (Round4(size) + a) % WORD;
    AlignUpCovers(n);
    if size + 3 >= WORD {
      assert (size + 3) % WORD == size + 3 - WORD && Round4(size) == 0;
      assert n == a;
    } else {
      assert (size + 3) % WORD == size + 3;
      var sum := Round4(size) + a;
      if sum >= WORD {
        assert n == sum - WORD;
      }
    }
  }

  /** The block handed out has room for the request and a word in front exactly when nothing wraps. */
  lemma AlignSizeCovers(s: Small, size: int, a: int)
    requires Inv(s) && 0 <= size < WORD && 4 <= a <= 0x8000_0000 && a % 4 == 0
    requires Malloc(s, (Round4(size) + a) % WORD).1 != 0
    ensures Size(Given(s, (Round4(size) + a) % WORD)) >= size + 4 <==> AlignFits(size, a)
  {
    hide Inv, Malloc, Round4, Request, Given;
    AlignSum(size, a);
    MallocMeaning(s, (Round4(size) + a) % WORD);
    GivenTight(s, (Round4(size) + a) % WORD);
  }

  /** A sum that does not wrap itself, and that rt_malloc rounds to zero. */
  lemma AlignSizeRoundsAway()
    ensures Round4(0xFFFF_FFF8) + Round4(4) < WORD && !AlignFits(0xFFFF_FFF8, 4)
    ensures AlignSize(0xFFFF_FFF8, 4) == 0xFFFF_FFFC && Request(0xFFFF_FFFC) == MIN_ALIGNED
  {
    assert (0xFFFF_FFFC + 7) % WORD == 3;
  }

  lemma AtLeast(d: int, a: int)
    requires a > 0
    ensures d >= 1 ==> d * a >= a
    ensures d <= -1 ==> d * a <= -a
  {
    if d >= 1 {
      assert (d - 1) * a >= 0;
    } else if d <= -1 {
      assert (-d - 1) * a >= 0;
    }
  }

  lemma Split(x: int, a: int)
    requires a > 0
    ensures x == x / a * a + x % a && 0 <= x % a < a
  {
  }

  /** A remainder is unique. */
  lemma Remainder(x: int, a: int, q: int, r: int)
    requires a > 0 && 0 <= r < a && x == q * a + r
    ensures x % a == r
  {
    Split(x, a);
    var d := q - x / a;
    assert d * a == q * a - x / a * a;
    AtLeast(d, a);
  }

  /** The pointer is aligned, with at least a word in front of it and at most one alignment lost. */
  lemma AlignPtrBounds(ptr: int, c: int, a: int)
    requires ptr % 4 == 0 && a > 0 && a == 4 * c
    ensures AlignPtr(ptr, a) % a == 0
    ensures ptr + 4 <= AlignPtr(ptr, a) <= ptr + a
  {
    if ptr % a == 0 {
      Split(ptr, a);
      assert ptr + a == (ptr / a + 1) * a;
      Remainder(ptr + a, a, ptr / a + 1, 0);
    } else {
      var x := ptr + (a - 1);
      Split(x, a);
      Remainder(x - x % a, a, x / a, 0);
      assert x - x % a == 4 * (x / a * c);
    }
  }

  /** The block a pointer from rt_malloc_align lies in: the hidden word and the caller's bytes. */
  ghost predicate Inside(s: Small, b: Block, p: int, size: int) {
    Data(s, b) <= p - 4 && p + size <= s.base + b.end
  }

  /** rt_malloc_align, for sizes with which nothing wraps. */
  method MallocAlign(h: SmallMem, size: int, ghost k: nat, align: int) returns (p: int, ghost b: Block)
    requires h.Valid() && Aligned(h.blocks, 8) && h.heap_ptr % 8 == 0
    requires 0 <= size && k <= 31 && align == PowerOfTwo(k) && align > 0
    requires AlignFits(size, Round4(align))
    modifies h
    ensures h.Valid() && Aligned(h.blocks, 8) && h.heap_ptr == old(h.heap_ptr)
    ensures h.Abs() == Malloc(old(h.Abs()), AlignSize(size, align)).0
    ensures p == 0 <==> Malloc(old(h.Abs()), AlignSize(size, align)).1 == 0
    ensures p != 0 ==> b in Live(h.blocks) && Live(h.blocks) == Live(old(h.blocks)) + {b} && b !in Live(old(h.blocks))
    ensures p != 0 ==> p % align == 0 && Inside(h.Abs(), b, p, size) && Ld(h.mem, p - 4) == Data(h.Abs(), b)
    ensures Kept(old(h.mem), h.mem, h.heap_ptr, Live(old(h.blocks)))
  {
    hide Inv, Malloc, Kept, Outside, Linked, SlotsOf, Live, Aligned, Round4, AlignPtr, Given;
    ghost var s := h.Abs();
    Sizes(size, k, align);
    var a := Round4(align);
    var align_size := (Round4(size) + a) % WORD;
    MallocMeaning(s, align_size);
    MallocAligned(s, align_size);
    var ptr := h.Malloc(align_size);
    b := Block(0, 0, true);
    p := 0;
    if ptr != 0 {
      b := Given(s, align_size);
      Placed(s, size, align_size, a);
      p := AlignPtr(ptr, a);
      Divides(p, k, align);
      ghost var m := h.mem;
      h.mem := h.mem[p - 4 := ptr];
      OneWord(m, p - 4, ptr);
      DataWrite(m, h.mem, h.Abs(), h.Links(), b);
      KeptThen(s, align_size, old(h.mem), m, h.mem, p - 4);
    }
  }

  lemma Sizes(size: int, k: nat, align: int)
    requires 0 <= size && k <= 31 && align == PowerOfTwo(k) && AlignFits(size, Round4(align))
    ensures var a, n := Round4(align), AlignSize(size, align);
            a >= 4 && a % 4 == 0 && n == Round4(size) + a && size + a <= n <= 0xFFFF_FFF8
  {
    RoundedPower(k);
    hide AlignFits;
    AlignSum(size, Round4(align));
  }

  /** Where the pointer comes to lie in the block rt_malloc found. */
  lemma Placed(s: Small, size: int, n: int, a: int)
    requires Inv(s) && s.base % 8 == 0 && Malloc(s, n).1 != 0 && Aligned(Malloc(s, n).0.blocks, 8)
    requires 0 <= size && a >= 4 && a % 4 == 0 && size + a <= n <= 0xFFFF_FFF8
    ensures var p, b := AlignPtr(Malloc(s, n).1, a), Given(s, n);
            && p % a == 0 && p != 0 && Inside(s, b, p, size) && Data(s, b) == Malloc(s, n).1
            && b !in Live(s.blocks) && b in Live(Malloc(s, n).0.blocks)
  {
    hide Inv, Malloc, Live, Aligned, Given, AlignPtr;
    MallocMeaning(s, n);
    GivenFits(s, n);
    LiveInside(Malloc(s, n).0, Given(s, n));
    BasePositive(s);
    var ptr := Malloc(s, n).1;
    assert ptr % 4 == 0 && ptr > 0;
    AlignPtrBounds(ptr, a / 4, a);
  }

  /** rt_free_align: the block is the one whose address is hidden in front of the data. */
  method FreeAlign(h: SmallMem, p: int, ghost b: Block)
    requires h.Valid() && b in Live(h.blocks) && Ld(h.mem, p - 4) == Data(h.Abs(), b)
    modifies h
    ensures h.Valid() && Live(h.blocks) == Live(old(h.blocks)) - {b}
    ensures h.Abs() == Free(old(h.Abs()), Data(old(h.Abs()), b))
  {
    hide Inv, Linked, SlotsOf, Live;
    ghost var s := h.Abs();
    LiveHeld(s, b);
    FreeMeaning(s, Data(s, b));
    var real_ptr := Ld(h.mem, p - 4);
    h.Free(real_ptr);
  }

  /** A live block is found again from its pointer. */
  lemma LiveHeld(s: Small, b: Block)
    requires Inv(s) && b in Live(s.blocks)
    ensures Held(s, Data(s, b)) && BlockOf(s, Data(s, b)) == b && Data(s, b) != 0 && !Illegal(s, Data(s, b))
  {
    hide Inv;
    LiveUnique(s, b);
    var j :| 0 <= j < |s.blocks| && s.blocks[j] == b;
    IndexAtUnique(s, j);
    IllegalIs(s, Data(s, b));
    BasePositive(s);
    Gap(s);
  }

  lemma Divides(p: int, k: nat, align: int)
    requires k <= 31 && align == PowerOfTwo(k) && Round4(align) > 0 && align > 0 && p % Round4(align) == 0
    ensures p % align == 0
  {
    RoundedPower(k);
    SmallPowers(k);
    hide Round4, PowerOfTwo;
    if k < 2 {
      Halves(p, Round4(align), align);
    }
  }

  lemma Halves(p: int, a: int, align: int)
    requires a == 4 && p % a == 0 && (align == 1 || align == 2)
    ensures p % align == 0
  {
    Split(p, a);
    var c := p / a;
    var q := if align == 1 then 4 * c else 2 * c;
    assert p == 4 * c;
    Remainder(p, align, q, 0);
  }

  lemma GivenFits(s: Small, n: int)
    requires Inv(s) && 0 <= n <= 0xFFFF_FFF8 && Malloc(s, n).1 != 0 && Aligned(Malloc(s, n).0.blocks, 8)
             && s.base % 8 == 0
    ensures var b := Given(s, n);
            && Data(s, b) == Malloc(s, n).1 && Data(s, b) % 8 == 0 && Size(b) >= n
            && b !in Live(s.blocks) && b in Live(Malloc(s, n).0.blocks)
  {
    hide Inv, Malloc;
    MallocMeaning(s, n);
    GivenWasFree(s, n);
    AlignedRequest(n);
    var b := Given(s, n);
    var r := Malloc(s, n).0.blocks;
    var j :| 0 <= j < |r| && r[j] == b;
    assert OnBoundary(r[j], 8);
  }

  lemma OneWord(m: Mem, x: int, v: int)
    ensures forall y :: y != x ==> Ld(m[x := v], y) == Ld(m, y)
    ensures Ld(m[x := v], x) == v
  {
  }

  /** The hidden word lies in the new block, so the old ones keep their data. */
  lemma KeptThen(s: Small, n: int, m: Mem, m1: Mem, m2: Mem, x: int)
    requires Inv(s) && Malloc(s, n).1 != 0 && Kept(m, m1, s.base, Live(s.blocks))
    requires Data(s, Given(s, n)) <= x < s.base + Given(s, n).end
    requires forall y :: y != x ==> Ld(m2, y) == Ld(m1, y)
    ensures Kept(m, m2, s.base, Live(s.blocks))
  {
    hide Inv, Malloc, Live, Given, Ld;
    MallocMeaning(s, n);
    GivenWasFree(s, n);
    forall c, y | c in Live(s.blocks) && s.base + c.addr + HDR <= y < s.base + c.end ensures Ld(m2, y) == Ld(m, y) {
      LiveDisjoint(Malloc(s, n).0, c, Given(s, n));
    }
  }
}
