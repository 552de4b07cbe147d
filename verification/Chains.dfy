/** Singly linked lists in memory: a map from a node to the next, ending in RT_NULL. */
module Chains {
  import opened Sequences

  /** From `first`, `next` leads through s to RT_NULL, which is 0. */
  ghost predicate Chain(next: map<int, int>, s: seq<int>, first: int) {
    && first == (if s == [] then 0 else s[0])
    && (forall i :: 0 <= i < |s| ==> s[i] != 0 && s[i] in next)
    && (forall i, j :: 0 <= i && j == i + 1 < |s| ==> next[s[i]] == s[j])
    && (s != [] ==> next[s[|s| - 1]] == 0)
  }

  lemma ChainPop(next: map<int, int>, s: seq<int>, first: int)
    requires Chain(next, s, first) && s != []
    ensures first == s[0] && first != 0 && first in next && Chain(next, s[1..], next[first])
  {
  }

  lemma ChainPush(next: map<int, int>, s: seq<int>, first: int, n: int)
    requires Chain(next, s, first) && n !in s && n != 0
    ensures Chain(next[n := first], [n] + s, n)
  {
    var r := [n] + s;
    assert forall i :: 0 < i < |r| ==> r[i] == s[i - 1];
    forall i | 0 <= i < |s| ensures s[i] != n {
      assert s[i] in s;
    }
  }

  lemma ChainFrame(next: map<int, int>, s: seq<int>, first: int, n: int, v: int)
    requires Chain(next, s, first) && n !in s
    ensures Chain(next[n := v], s, first)
  {
    forall i | 0 <= i < |s| ensures s[i] != n {
      assert s[i] in s;
    }
  }

  lemma ChainAppend(next: map<int, int>, s: seq<int>, first: int, n: int)
    requires Chain(next, s, first) && Distinct(s) && n !in s && n != 0 && n in next && next[n] == 0
    ensures s == [] ==> Chain(next, [n], n)
    ensures s != [] ==> Chain(next[s[|s| - 1] := n], s + [n], first)
  {
    var r := s + [n];
    if s != [] {
      assert s[|s| - 1] in s;
      assert forall i :: 0 <= i < |s| ==> r[i] == s[i];
    }
  }

  lemma Empty(next: map<int, int>, s: seq<int>, first: int)
    requires Chain(next, s, first)
    ensures (first == 0 <==> s == []) && (s != [] ==> first == s[0])
  {
  }

  lemma EmptyChain(next: map<int, int>)
    ensures Chain(next, [], 0)
  {
  }

  lemma LastIn(next: map<int, int>, s: seq<int>, first: int)
    requires Chain(next, s, first)
    ensures s != [] ==> s[|s| - 1] in s && s[|s| - 1] != 0 && s[|s| - 1] in next
  {
  }

  /** A chain none of whose nodes was written. */
  lemma ChainSame(was: map<int, int>, now: map<int, int>, s: seq<int>, first: int)
    requires Chain(was, s, first) && was.Keys == now.Keys && (forall n :: n in s && n in now ==> now[n] == was[n])
    ensures Chain(now, s, first)
  {
    forall i | 0 <= i < |s| ensures s[i] in now && now[s[i]] == was[s[i]] {
      assert s[i] in s;
    }
  }

  /** Where the k-th of the equally long blocks of an area starts. */
  function Nth(start: int, stride: int, k: int): int {
    start + k * stride
  }

  /** Blocks one stride long that lie inside the area and do not overlap. */
  ghost predicate Separate(blocks: set<int>, start: int, stride: int, size: int) {
    && (forall b :: b in blocks ==> start <= b && b + stride <= start + size)
    && (forall a, b :: a in blocks && b in blocks && a < b ==> a + stride <= b)
  }

  lemma NonNegative(x: int, y: int)
    requires x >= 0 && y >= 0
    ensures x * y >= 0
  {
  }

  lemma NthAhead(start: int, stride: int, i: int, j: int)
    requires 0 <= i < j && stride > 0
    ensures start <= Nth(start, stride, i) && Nth(start, stride, i) + stride <= Nth(start, stride, j)
  {
    NonNegative(i, stride);
    NonNegative(j - i - 1, stride);
    assert (j - i - 1) * stride == j * stride - i * stride - stride;
  }

  lemma NthSeparate(blocks: set<int>, start: int, stride: int, n: int, size: int)
    requires stride > 0 && n * stride <= size
    requires forall b :: b in blocks ==> exists k :: 0 <= k < n && b == Nth(start, stride, k)
    ensures Separate(blocks, start, stride, size)
  {
    forall b | b in blocks ensures start <= b && b + stride <= start + size {
      var k :| 0 <= k < n && b == Nth(start, stride, k);
      NthAhead(start, stride, k, n);
    }
    forall a, b | a in blocks && b in blocks && a < b ensures a + stride <= b {
      var i :| 0 <= i < n && a == Nth(start, stride, i);
      var j :| 0 <= j < n && b == Nth(start, stride, j);
      if i < j {
        NthAhead(start, stride, i, j);
      } else if j < i {
        NthAhead(start, stride, j, i);
      }
    }
  }
}
