/** Where a priority-ordered suspend list takes a newcomer. */
module Priorities {

  /** The first position whose priority number exceeds p, or the end. */
  function Slot(ps: seq<int>, p: int): (k: nat)
    ensures k <= |ps|
    ensures forall i :: 0 <= i < k ==> ps[i] <= p
    ensures k < |ps| ==> p < ps[k]
  {
    if ps == [] || p < ps[0] then 0
    else
      var k := Slot(ps[1..], p);
      assert forall i :: 1 <= i < k + 1 ==> ps[i] == ps[1..][i - 1];
      1 + k
  }

  lemma {:induction false} SlotUnique(ps: seq<int>, p: int, k: nat)
    requires k <= |ps| && (forall i :: 0 <= i < k ==> ps[i] <= p) && (k < |ps| ==> p < ps[k])
    ensures Slot(ps, p) == k
  {
    if k > 0 {
      assert ps[0] <= p;
      SlotUnique(ps[1..], p, k - 1);
    }
  }
}

/** Sequences without repetition, and one element put in or taken out. */
module Sequences {

  ghost predicate Distinct<T>(s: seq<T>) {
    forall i, j :: 0 <= i < j < |s| ==> s[i] != s[j]
  }

  function Insert<T>(s: seq<T>, k: int, n: T): seq<T>
    requires 0 <= k <= |s|
  {
    s[..k] + [n] + s[k..]
  }

  function Without<T>(s: seq<T>, k: int): seq<T>
    requires 0 <= k < |s|
  {
    s[..k] + s[k + 1..]
  }

  lemma InsertDistinct<T>(s: seq<T>, k: int, n: T)
    requires Distinct(s) && 0 <= k <= |s| && n !in s
    ensures Distinct(Insert(s, k, n))
  {
    var r := Insert(s, k, n);
    forall i, j | 0 <= i < j < |r| ensures r[i] != r[j] {
      assert r[i] == if i < k then s[i] else if i == k then n else s[i - 1];
      assert r[j] == if j < k then s[j] else if j == k then n else s[j - 1];
    }
  }

  lemma WithoutDistinct<T>(s: seq<T>, k: int)
    requires Distinct(s) && 0 <= k < |s|
    ensures Distinct(Without(s, k)) && s[k] !in Without(s, k)
  {
    var r := Without(s, k);
    forall i, j | 0 <= i < j < |r| ensures r[i] != r[j] {
      assert r[i] == if i < k then s[i] else s[i + 1];
      assert r[j] == if j < k then s[j] else s[j + 1];
    }
    forall i | 0 <= i < |r| ensures r[i] != s[k] {
      assert r[i] == if i < k then s[i] else s[i + 1];
    }
  }

  lemma TakeFirst<T>(s: seq<T>)
    requires Distinct(s) && s != []
    ensures Distinct(s[1..]) && s[0] !in s[1..] && (forall x :: x in s <==> x == s[0] || x in s[1..])
  {
    assert s == [s[0]] + s[1..];
  }

  lemma PutFirst<T>(s: seq<T>, n: T)
    requires Distinct(s) && n !in s
    ensures Distinct([n] + s) && Distinct(s + [n])
    ensures forall x :: x in [n] + s <==> x == n || x in s
    ensures forall x :: x in s + [n] <==> x == n || x in s
  {
    InsertDistinct(s, 0, n);
    InsertDistinct(s, |s|, n);
    assert Insert(s, 0, n) == [n] + s && Insert(s, |s|, n) == s + [n];
  }

  /** Taking an inserted element out again gives the sequence back. */
  lemma WithoutInsert<T>(s: seq<T>, k: int, n: T)
    requires 0 <= k <= |s|
    ensures Without(Insert(s, k, n), k) == s
  {
    var r := Insert(s, k, n);
    assert r[..k] == s[..k] && r[k + 1..] == s[k..];
  }

  /** The first position of n, or |s|. */
  function IndexOf<T(==)>(s: seq<T>, n: T): (k: nat)
    ensures k <= |s| && (k < |s| ==> s[k] == n) && (forall i :: 0 <= i < k ==> s[i] != n)
  {
    if s == [] || s[0] == n then 0
    else
      var k := IndexOf(s[1..], n);
      assert forall i :: 1 <= i < k + 1 ==> s[i] == s[1..][i - 1];
      1 + k
  }

  /** s without n, if it is there. */
  function Drop<T(==)>(s: seq<T>, n: T): seq<T> {
    if IndexOf(s, n) < |s| then Without(s, IndexOf(s, n)) else s
  }

  lemma DropMembers<T>(s: seq<T>, n: T)
    requires Distinct(s)
    ensures Distinct(Drop(s, n)) && n !in Drop(s, n)
    ensures forall x :: x in Drop(s, n) <==> x in s && x != n
    ensures s == [] ==> Drop(s, n) == []
  {
    var k := IndexOf(s, n);
    if k < |s| {
      WithoutDistinct(s, k);
      assert s == s[..k] + [s[k]] + s[k + 1..];
    }
  }

  function Reversed<T>(s: seq<T>): (r: seq<T>)
    ensures |r| == |s|
  {
    if s == [] then [] else Reversed(s[1..]) + [s[0]]
  }

  /** Element i counted from the front is element i counted from the back. */
  lemma {:induction false} ReversedAt<T>(s: seq<T>, i: int)
    requires 0 <= i < |s|
    ensures Reversed(s)[i] == s[|s| - 1 - i]
  {
    if i < |s| - 1 {
      ReversedAt(s[1..], i);
    }
  }

  lemma WithoutBehind<T>(x: T, s: seq<T>, k: int)
    requires 0 <= k < |s|
    ensures [x] + Without(s, k) == Without([x] + s, k + 1)
  {
    var l, r := [x] + Without(s, k), Without([x] + s, k + 1);
    forall i | 0 <= i < |l| ensures l[i] == r[i] {
    }
  }
}

/** rtservice.h: intrusive lists as ghost sequences of their nodes. */
module RtList {
  import opened Words
  import opened Priorities
  import opened Sequences

  /** A list node inside a thread, with the priority that sits beside it. */
  class Node {
    var next: Node
    var prev: Node
    var current_priority: int

    /** rt_list_init. */
    constructor ()
      ensures Ring(this, [])
    {
      next := this;
      prev := this;
    }
  }

  /** Once around the circle, from the head back to the head. */
  function Circle(head: Node, s: seq<Node>): seq<Node> {
    [head] + s + [head]
  }

  ghost predicate Linked(r: seq<Node>)
    reads r
  {
    forall i, j :: 0 <= i && j == i + 1 < |r| ==> r[i].next == r[j] && r[j].prev == r[i]
  }

  /** The nodes behind head are exactly s, in order, and prev inverts next. */
  ghost predicate Ring(head: Node, s: seq<Node>)
    reads head, s
  {
    Distinct([head] + s) && Linked(Circle(head, s))
  }

  /** Node k of the circle and its neighbours. */
  lemma Around(head: Node, s: seq<Node>, k: int)
    requires Ring(head, s) && 0 <= k <= |s|
    ensures var r := Circle(head, s);
            && r[k].next == r[k + 1] && r[k + 1].prev == r[k]
            && (r[k + 1] == head <==> k == |s|)
  {
    var r, q := Circle(head, s), [head] + s;
    assert r[k].next == r[k + 1];
    if k < |s| {
      assert r[k + 1] == q[k + 1] && q[0] == head;
    }
  }

  /** n linked in between nodes k and k + 1 of the circle. */
  method Link(l: Node, m: Node, n: Node, ghost head: Node, ghost s: seq<Node>, ghost k: int)
    requires Ring(head, s) && 0 <= k <= |s| && l == Circle(head, s)[k] && m == Circle(head, s)[k + 1]
    requires n != head && n !in s
    modifies m`prev, n`next, l`next, n`prev
    ensures Ring(head, Insert(s, k, n))
  {
    ghost var r, t := Circle(head, s), Circle(head, Insert(s, k, n));
    InsertDistinct([head] + s, k + 1, n);
    assert [head] + Insert(s, k, n) == Insert([head] + s, k + 1, n);
    assert forall i :: 0 <= i < |r| ==> r[i] != n;
    assert forall i :: 0 <= i < |t| ==> t[i] == if i <= k then r[i] else if i == k + 1 then n else r[i - 1];
    Apart(head, s);
    m.prev := n;
    n.next := m;
    l.next := n;
    n.prev := l;
    forall i, j | 0 <= i && j == i + 1 < |t| ensures t[i].next == t[j] && t[j].prev == t[i] {
      if j <= k {
        assert old(r[i].next) == r[j] && old(r[j].prev) == r[i];
      } else if i > k + 1 {
        assert old(r[i - 1].next) == r[j - 1] && old(r[j - 1].prev) == r[i - 1];
      }
    }
  }

  /** Apart from the head at both ends, no node occurs twice on the circle. */
  lemma Apart(head: Node, s: seq<Node>)
    requires Distinct([head] + s)
    ensures forall i, j :: 0 <= i < j <= |s| ==> Circle(head, s)[i] != Circle(head, s)[j]
    ensures forall i, j :: 1 <= i < j <= |s| + 1 ==> Circle(head, s)[i] != Circle(head, s)[j]
  {
    var q, r := [head] + s, Circle(head, s);
    assert forall i :: 0 <= i <= |s| ==> r[i] == q[i];
    forall i, j | 1 <= i < j <= |s| + 1 ensures r[i] != r[j] {
      assert r[i] == q[i] && (if j <= |s| then r[j] == q[j] else r[j] == q[0]);
    }
  }

  /** rt_list_insert_after. */
  method InsertAfter(l: Node, n: Node, ghost head: Node, ghost s: seq<Node>, ghost k: int)
    requires Ring(head, s) && 0 <= k <= |s| && l == Circle(head, s)[k] && n != head && n !in s
    modifies l.next`prev, n`next, l`next, n`prev
    ensures Ring(head, Insert(s, k, n))
  {
    Around(head, s, k);
    Link(l, l.next, n, head, s, k);
  }

  /** rt_list_insert_before: before the head is behind the last node. */
  method InsertBefore(l: Node, n: Node, ghost head: Node, ghost s: seq<Node>, ghost k: int)
    requires Ring(head, s) && 0 <= k <= |s| && l == Circle(head, s)[k + 1] && n != head && n !in s
    modifies l.prev`next, n`prev, l`prev, n`next
    ensures Ring(head, Insert(s, k, n))
  {
    Around(head, s, k);
    Link(l.prev, l, n, head, s, k);
  }

  /** rt_list_remove: a node of a list leaves it; a self-linked node stays as it is. */
  method Remove(n: Node, ghost head: Node, ghost s: seq<Node>, ghost k: int)
    requires Ring(n, []) || (Ring(head, s) && 0 <= k < |s| && s[k] == n)
    modifies n`next, n`prev, n.next`prev, n.prev`next
    ensures Ring(n, [])
    ensures old(Ring(n, [])) ==> n.next == old(n.next) && n.prev == old(n.prev)
    ensures !old(Ring(n, [])) ==> Ring(head, Without(s, k))
  {
    ghost var alone := Ring(n, []);
    if !alone {
      Neighbours(n, head, s, k);
      WithoutDistinct([head] + s, k + 1);
      WithoutBehind(head, s, k);
    } else {
      Around(n, [], 0);
    }
    n.next.prev := n.prev;
    n.prev.next := n.next;
    n.next := n;
    n.prev := n;
    assert Distinct([n] + []);
    if !alone {
      ghost var r, t := Circle(head, s), Circle(head, Without(s, k));
      forall i, j | 0 <= i && j == i + 1 < |t| ensures t[i].next == t[j] && t[j].prev == t[i] {
        assert t[i] == if i <= k then r[i] else r[i + 1];
        assert t[j] == if j <= k then r[j] else r[j + 1];
        if j <= k {
          assert old(r[i].next) == r[j] && old(r[j].prev) == r[i];
        } else if i > k {
          assert old(r[i + 1].next) == r[j + 1] && old(r[j + 1].prev) == r[i + 1];
        }
      }
    }
  }

  lemma Neighbours(n: Node, head: Node, s: seq<Node>, k: int)
    requires Ring(head, s) && 0 <= k < |s| && s[k] == n
    ensures var r := Circle(head, s);
            && r[k + 1] == n && n.next == r[k + 2] && n.prev == r[k]
            && (forall i, j :: 0 <= i < j <= |s| ==> r[i] != r[j])
            && (forall i, j :: 1 <= i < j <= |s| + 1 ==> r[i] != r[j])
  {
    Apart(head, s);
    Around(head, s, k);
    Around(head, s, k + 1);
  }

  /** rt_list_isempty. */
  method IsEmpty(l: Node, ghost s: seq<Node>) returns (empty: bool)
    requires Ring(l, s)
    ensures empty == (s == [])
  {
    Around(l, s, 0);
    return l.next == l;
  }

  /** rt_list_len, in a 32-bit counter. */
  method Len(l: Node, ghost s: seq<Node>) returns (len: int)
    requires Ring(l, s)
    ensures len == |s| % WORD
  {
    len := 0;
    var p := l;
    ghost var k := 0;
    Around(l, s, 0);
    while p.next != l
      invariant 0 <= k <= |s| && p == Circle(l, s)[k] && len == k % WORD
      invariant p.next == Circle(l, s)[k + 1] && (p.next == l <==> k == |s|)
      decreases |s| - k
    {
      p := p.next;
      k := k + 1;
      Around(l, s, k);
      len := (len + 1) % WORD;
    }
  }

  function Prios(s: seq<Node>): (ps: seq<int>)
    reads s
    ensures |ps| == |s| && forall i :: 0 <= i < |s| ==> ps[i] == s[i].current_priority
  {
    seq(|s|, i requires 0 <= i < |s| reads s => s[i].current_priority)
  }

  /** The search loop of rt_ipc_list_suspend: the first node of lower urgency, or the list itself. */
  method FindPosition(list: Node, thread: Node, ghost s: seq<Node>) returns (n: Node)
    requires Ring(list, s)
    ensures n == Circle(list, s)[Slot(Prios(s), thread.current_priority) + 1]
  {
    ghost var r := Circle(list, s);
    n := list.next;
    ghost var k := 0;
    Around(list, s, 0);
    while n != list
      invariant 0 <= k <= |s| && n == r[k + 1] && (n == list <==> k == |s|)
      invariant forall i :: 0 <= i < k ==> Prios(s)[i] <= thread.current_priority
      decreases |s| - k
    {
      if thread.current_priority < n.current_priority {
        break;
      }
      Around(list, s, k + 1);
      n := n.next;
      k := k + 1;
    }
    SlotUnique(Prios(s), thread.current_priority, k);
  }

  /** rt_ipc_list_suspend, for a thread that has left the ready list. */
  method Suspend(list: Node, thread: Node, fifo: bool, ghost s: seq<Node>)
    requires Ring(list, s) && thread != list && thread !in s
    modifies list`next, list`prev, s`next, s`prev, thread`next, thread`prev
    ensures Ring(list, Insert(s, if fifo then |s| else Slot(Prios(s), thread.current_priority), thread))
  {
    ghost var k := if fifo then |s| else Slot(Prios(s), thread.current_priority);
    OnCircle(list, s, k);
    if fifo {
      InsertBefore(list, thread, list, s, |s|);
    } else {
      var n := FindPosition(list, thread, s);
      InsertBefore(n, thread, list, s, k);
    }
  }

  lemma OnCircle(head: Node, s: seq<Node>, k: int)
    requires Ring(head, s) && 0 <= k <= |s|
    ensures var r := Circle(head, s);
            && r[|s| + 1] == head && (r[k + 1] == head || r[k + 1] in s)
            && (r[k + 1].prev == head || r[k + 1].prev in s)
            && (head.prev == head || head.prev in s)
  {
    Around(head, s, k);
    Around(head, s, |s|);
  }
}

/** rtservice.h: single lists. */
module RtSlist {
  import opened Words
  import opened Sequences

  class Node {
    var next: Node?

    /** rt_slist_init. */
    constructor ()
      ensures List(this, [])
    {
      next := null;
    }
  }

  ghost predicate Linked(r: seq<Node>)
    reads r
  {
    && (forall i, j :: 0 <= i && j == i + 1 < |r| ==> r[i].next == r[j])
    && (|r| > 0 ==> r[|r| - 1].next == null)
  }

  /** Behind l come exactly the nodes of s, and then RT_NULL. */
  ghost predicate List(l: Node, s: seq<Node>)
    reads l, s
  {
    Distinct([l] + s) && Linked([l] + s)
  }

  /** What node k points to. */
  lemma NextIs(l: Node, s: seq<Node>, k: int)
    requires List(l, s) && 0 <= k <= |s|
    ensures ([l] + s)[k].next == if k < |s| then ([l] + s)[k + 1] else null
    ensures k < |s| ==> ([l] + s)[k + 1] == s[k]
  {
  }

  /** rt_slist_tail: the last node, or l itself. */
  method Tail(l: Node, ghost s: seq<Node>) returns (node: Node)
    requires List(l, s)
    ensures node == ([l] + s)[|s|]
  {
    node := l;
    ghost var k := 0;
    NextIs(l, s, 0);
    while node.next != null
      invariant 0 <= k <= |s| && node == ([l] + s)[k]
      invariant node.next == if k < |s| then ([l] + s)[k + 1] else null
      decreases |s| - k
    {
      node := node.next;
      k := k + 1;
      NextIs(l, s, k);
    }
  }

  /** rt_slist_append. */
  method Append(l: Node, n: Node, ghost s: seq<Node>)
    requires List(l, s) && n != l && n !in s
    modifies l`next, s`next, n`next
    ensures List(l, s + [n])
  {
    ghost var r, t := [l] + s, [l] + (s + [n]);
    InsertDistinct(r, |r|, n);
    assert t == Sequences.Insert(r, |r|, n);
    var node := Tail(l, s);
    node.next := n;
    n.next := null;
    forall i, j | 0 <= i && j == i + 1 < |t| ensures t[i].next == t[j] {
      assert i < |s| ==> r[j] == t[j] && r[i] == t[i] && old(r[i].next) == r[j];
    }
  }

  /** rt_slist_insert. */
  method Insert(l: Node, n: Node, ghost s: seq<Node>)
    requires List(l, s) && n != l && n !in s
    modifies l`next, n`next
    ensures List(l, [n] + s)
  {
    ghost var r, t := [l] + s, [l] + ([n] + s);
    InsertDistinct(r, 1, n);
    assert t == Sequences.Insert(r, 1, n);
    NextIs(l, s, 0);
    n.next := l.next;
    l.next := n;
    forall i, j | 0 <= i && j == i + 1 < |t| ensures t[i].next == t[j] {
      assert i > 1 ==> r[j - 1] == t[j] && r[i - 1] == t[i] && old(r[i - 1].next) == r[j - 1];
    }
  }

  /** rt_slist_len, in a 32-bit counter. */
  method Len(l: Node, ghost s: seq<Node>) returns (len: int)
    requires List(l, s)
    ensures len == |s| % WORD
  {
    len := 0;
    var list := l.next;
    ghost var k := 0;
    NextIs(l, s, 0);
    while list != null
      invariant 0 <= k <= |s| && list == (if k < |s| then s[k] else null) && len == k % WORD
      decreases |s| - k
    {
      k := k + 1;
      NextIs(l, s, k);
      list := list.next;
      len := (len + 1) % WORD;
    }
  }

  /** The search loop of rt_slist_remove: the node before n, or the last one. */
  method Before(l: Node, n: Node, ghost s: seq<Node>) returns (node: Node)
    requires List(l, s) && n != l
    ensures node == ([l] + s)[IndexOf(s, n)]
    ensures node.next != null <==> IndexOf(s, n) < |s|
  {
    node := l;
    ghost var k := 0;
    NextIs(l, s, 0);
    while node.next != null && node.next != n
      invariant 0 <= k <= IndexOf(s, n) && node == ([l] + s)[k]
      invariant node.next == if k < |s| then s[k] else null
      decreases |s| - k
    {
      node := node.next;
      k := k + 1;
      NextIs(l, s, k);
    }
  }

  /** `node->next = node->next->next`. */
  method Unlink(node: Node, ghost l: Node, ghost s: seq<Node>, ghost k: int)
    requires List(l, s) && 0 <= k < |s| && node == ([l] + s)[k] && node.next != null
    modifies node`next
    ensures List(l, Without(s, k))
  {
    ghost var a, t := [l] + s, [l] + Without(s, k);
    NextIs(l, s, k);
    NextIs(l, s, k + 1);
    NextIs(l, s, |s|);
    WithoutDistinct(a, k + 1);
    WithoutBehind(l, s, k);
    node.next := node.next.next;
    forall i, j | 0 <= i && j == i + 1 < |t| ensures t[i].next == t[j] {
      assert t[i] == if i <= k then a[i] else a[i + 1];
      assert t[j] == if j <= k then a[j] else a[j + 1];
      if j <= k {
        assert old(a[i].next) == a[j];
      } else if i > k {
        assert old(a[i + 1].next) == a[j + 1];
      }
    }
    assert t[|t| - 1] == if k + 1 == |s| then a[k] else a[|s|];
  }

  /** rt_slist_remove: n leaves the list; if it is not there nothing changes. */
  method Remove(l: Node, n: Node, ghost s: seq<Node>) returns (r: Node)
    requires List(l, s) && n != l
    modifies l`next, s`next
    ensures r == l && List(l, Drop(s, n))
  {
    hide List;
    var node := Before(l, n, s);
    if node.next != null {
      Unlink(node, l, s, IndexOf(s, n));
    }
    return l;
  }
}
