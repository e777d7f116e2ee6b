/**
 The intrusive circular queue (src/uct_queue.h, src/uct_queue.c): a ring of
 prev/next links through a sentinel.  The ghost field nodes is the sequence of the
 linked elements; every operation is specified by what it does to it.
 */
module Queue {
  import opened StableOrder

  class Node<T> {
    var prev: Node?<T>
    var next: Node?<T>
    const data: T

    constructor (data: T)
      ensures this.data == data
    {
      this.data := data;
    }
  }

  function Data<T>(): Node<T> -> T {
    (a: Node<T>) => a.data
  }

  // The order that a C comparison function induces.
  function Order<T>(cmp: (T, T) -> int): (T, T) -> bool {
    (a: T, b: T) => cmp(a, b) <= 0
  }

  ghost predicate Joined<T>(a: Node<T>, b: Node<T>)
    reads a, b
  {
    a.next == b && b.prev == a
  }

  ghost predicate Distinct<T>(a: seq<Node<T>>) {
    forall i, j :: 0 <= i < j < |a| ==> a[i] != a[j]
  }

  // The position after k on a ring of n nodes.
  function Next(k: nat, n: nat): nat {
    if k + 1 == n then 0 else k + 1
  }

  // The link that leaves element i of the ring a.
  ghost predicate LinkAt<T>(a: seq<Node<T>>, i: nat)
    requires i < |a|
    reads a
  {
    Joined(a[i], a[Next(i, |a|)])
  }

  // Every link of the ring a holds, except perhaps the one that leaves element k.
  ghost predicate LinkedBut<T>(a: seq<Node<T>>, k: int)
    reads a
  {
    forall i :: 0 <= i < |a| && i != k ==> LinkAt(a, i)
  }

  // a is the whole ring, starting with the sentinel.
  ghost predicate Linked<T>(a: seq<Node<T>>)
    reads a
  {
    |a| > 0 && Distinct(a) && LinkedBut(a, -1)
  }

  lemma Neighbours<T>(a: seq<Node<T>>, k: nat)
    requires Linked(a) && k < |a|
    ensures a[k].next == a[Next(k, |a|)]
    ensures a[k].prev == a[if k == 0 then |a| - 1 else k - 1]
  {
    var j := if k == 0 then |a| - 1 else k - 1;
    assert LinkAt(a, k) && LinkAt(a, j);
  }

  lemma ShortRing<T>(a: seq<Node<T>>)
    requires Linked(a) && a[Next(0, |a|)] == a[|a|-1]
    ensures |a| <= 2
  {
  }

  lemma Inserted<T>(a: seq<Node<T>>, k: nat, x: Node<T>)
    requires Distinct(a) && LinkedBut(a, k) && k < |a| && x !in a
    requires Joined(a[k], x) && Joined(x, a[Next(k, |a|)])
    ensures Linked(a[..k+1] + [x] + a[k+1..])
  {
    var r := a[..k+1] + [x] + a[k+1..];
    assert forall i :: 0 <= i < |r| ==> r[i] == if i <= k then a[i] else if i == k + 1 then x else a[i-1];
    forall i | 0 <= i < |r| ensures LinkAt(r, i) {
      assert i < k ==> LinkAt(a, i);
      assert i > k + 1 ==> LinkAt(a, i - 1);
    }
    forall i, j | 0 <= i < j < |r| ensures r[i] != r[j] {
      var i' := if i <= k then i else i - 1;
      var j' := if j <= k then j else j - 1;
      assert i != k + 1 ==> r[i] == a[i'];
      assert j != k + 1 ==> r[j] == a[j'];
    }
  }

  lemma Removed<T>(a: seq<Node<T>>, k: nat)
    requires 0 < k < |a| && Distinct(a)
    requires forall i :: 0 <= i < |a| && i != k - 1 && i != k ==> LinkAt(a, i)
    requires Joined(a[k-1], a[Next(k, |a|)])
    ensures Linked(a[..k] + a[k+1..])
  {
    var r := a[..k] + a[k+1..];
    assert forall i :: 0 <= i < |r| ==> r[i] == if i < k then a[i] else a[i+1];
    forall i | 0 <= i < |r| ensures LinkAt(r, i) {
      var i' := if i < k then i else i + 1;
      assert i != k - 1 ==> LinkAt(a, i');
    }
    forall i, j | 0 <= i < j < |r| ensures r[i] != r[j] {
      assert r[i] == a[if i < k then i else i + 1] && r[j] == a[if j < k then j else j + 1];
    }
  }

  // The ring a falls apart; h takes over its second part, from element k on.
  lemma SplitApart<T>(a: seq<Node<T>>, k: nat, h: Node<T>)
    requires 0 < k < |a| && h !in a && Distinct(a)
    requires forall i :: 0 <= i < |a| - 1 && i != k - 1 ==> LinkAt(a, i)
    requires Joined(a[k-1], a[0]) && Joined(h, a[k]) && Joined(a[|a|-1], h)
    ensures Linked(a[..k]) && Linked([h] + a[k..])
  {
    var r, t := a[..k], [h] + a[k..];
    assert forall i :: 1 <= i < |t| ==> t[i] == a[i+k-1];
    forall i | 0 <= i < |r| ensures LinkAt(r, i) {
      assert i < k - 1 ==> LinkAt(a, i);
    }
    forall i | 0 <= i < |t| ensures LinkAt(t, i) {
      assert 0 < i < |t| - 1 ==> LinkAt(a, i + k - 1);
    }
    forall i, j | 0 <= i < j < |t| ensures t[i] != t[j] {
      assert t[j] == a[j+k-1] && (i > 0 ==> t[i] == a[i+k-1]);
    }
  }

  // The elements of ring b, without its sentinel, are appended to ring a.
  lemma Appended<T>(a: seq<Node<T>>, b: seq<Node<T>>)
    requires a != [] && |b| > 1 && Distinct(a + b)
    requires forall i :: 0 <= i < |a| - 1 ==> LinkAt(a, i)
    requires forall i :: 1 <= i < |b| - 1 ==> LinkAt(b, i)
    requires Joined(a[|a|-1], b[1]) && Joined(b[|b|-1], a[0])
    ensures Linked(a + b[1..])
  {
    var r := a + b[1..];
    assert forall i :: |a| <= i < |r| ==> r[i] == b[i-|a|+1];
    forall i | 0 <= i < |r| ensures LinkAt(r, i) {
      assert i < |a| - 1 ==> LinkAt(a, i);
      assert |a| <= i < |r| - 1 ==> LinkAt(b, i - |a| + 1);
    }
    forall i, j | 0 <= i < j < |r| ensures r[i] != r[j] {
      var i' := if i < |a| then i else i + 1;
      var j' := if j < |a| then j else j + 1;
      assert (a + b)[i'] == r[i] && (a + b)[j'] == r[j];
    }
  }

  lemma Apart<T>(a: seq<Node<T>>, b: seq<Node<T>>)
    requires Distinct(a + b)
    ensures forall i, j :: 0 <= i < |a| && 0 <= j < |b| ==> a[i] != b[j]
  {
    forall i, j | 0 <= i < |a| && 0 <= j < |b| ensures a[i] != b[j] {
      assert (a + b)[i] == a[i] && (a + b)[|a|+j] == b[j];
    }
  }

  // What moving q from place i of a sequence to place p does to its order and its classes.
  lemma {:induction false} Reinsertion<T(!new)>(before: seq<Node<T>>, i: nat, p: nat, q: Node<T>, le: (T, T) -> bool)
    requires p <= i <= |before|
    requires TotalPreorder(le) && Sorted(before[..i], Data(), le)
    requires p > 0 ==> le(before[p-1].data, q.data)
    requires forall k :: p <= k < i ==> !le(before[k].data, q.data)
    ensures var r := before[..p] + [q] + before[p..];
            && Sorted(r[..i+1], Data(), le)
            && r[i+1..] == before[i..]
            && SameClasses(before[..i] + [q] + before[i..], r, Data(), le)
  {
    var r := before[..p] + [q] + before[p..];
    MovePast(before[..p], q, before[p..i], before[i..], Data(), le);
    assert before[..i] + [q] + before[i..] == before[..p] + before[p..i] + [q] + before[i..];
    assert r == before[..p] + [q] + before[p..i] + before[i..];
    InsertKeepsSorted(before[..i], p, q, Data(), le);
    assert r[..i+1] == before[..i][..p] + [q] + before[..i][p..];
  }

  // The six assignments of uct_queue_split(h, q, n) on the ring a, of which q is element k.
  method SplitLinks<T>(h: Node<T>, q: Node<T>, n: Node<T>, ghost a: seq<Node<T>>, ghost k: nat)
    requires Linked(a) && 0 < k < |a| && a[0] == h && a[k] == q
    requires forall i :: 0 <= i < |a| ==> a[i] != n
    modifies n, set x | x in a
    ensures Linked(a[..k]) && Linked([n] + a[k..])
  {
    Neighbours(a, 0);
    Neighbours(a, k);
    ghost var z := a[|a|-1];
    n.prev := h.prev;
    n.prev.next := n;
    n.next := q;
    h.prev := q.prev;
    h.prev.next := h;
    q.prev := n;
    forall i | 0 <= i < |a| - 1 && i != k - 1 ensures LinkAt(a, i) {
      assert old(LinkAt(a, i));
    }
    SplitApart(a, k, n);
  }

  // The four assignments of uct_queue_add(h, n) on the rings a of h and b of n.
  method AddLinks<T>(h: Node<T>, n: Node<T>, ghost a: seq<Node<T>>, ghost b: seq<Node<T>>)
    requires Linked(a) && Linked(b) && a[0] == h && b[0] == n && Distinct(a + b)
    modifies set x | x in a, set x | x in b
    ensures Linked(a + b[1..])
  {
    Apart(a, b);
    Neighbours(a, 0);
    Neighbours(b, 0);
    h.prev.next := n.next;
    n.next.prev := h.prev;
    h.prev := n.prev;
    h.prev.next := h;
    forall i | 0 <= i < |a| - 1 ensures LinkAt(a, i) {
      assert old(LinkAt(a, i));
    }
    forall i | 1 <= i < |b| - 1 ensures LinkAt(b, i) {
      assert old(LinkAt(b, i));
    }
    if |b| > 1 {
      Appended(a, b);
    } else {
      assert a + b[1..] == a && LinkAt(a, |a| - 1);
    }
  }

  class List<T(!new)> {
    const head: Node<T>
    ghost var nodes: seq<Node<T>>

    ghost function Ring(): seq<Node<T>>
      reads this
    {
      [head] + nodes
    }

    // The objects a list is made of, besides the list itself.
    ghost function Repr(): set<Node<T>>
      reads this
    {
      set x | x in Ring()
    }

    ghost predicate Valid()
      reads this, Repr()
    {
      Linked(Ring())
    }

    // uct_queue_init
    constructor (head: Node<T>)
      modifies head
      ensures Valid() && this.head == head && nodes == []
    {
      this.head := head;
      nodes := [];
      new;
      head.prev := head;
      head.next := head;
    }

    lemma HeadIsNoElement()
      requires Valid()
      ensures forall k :: 0 <= k < |nodes| ==> nodes[k] != head
    {
      forall k | 0 <= k < |nodes| ensures nodes[k] != head {
        assert Ring()[k+1] == nodes[k] && Ring()[0] == head;
      }
    }

    // uct_queue_empty
    method Empty() returns (b: bool)
      requires Valid()
      ensures b <==> nodes == []
    {
      Neighbours(Ring(), 0);
      b := head == head.prev;
    }

    // uct_queue_insert_head / uct_queue_insert_after: x goes right after h, which is element k of the ring.
    method InsertAfter(h: Node<T>, x: Node<T>, ghost k: nat)
      requires Valid() && x !in Ring()
      requires k < |Ring()| && Ring()[k] == h
      modifies this, Repr(), x
      ensures Valid() && Repr() == old(Repr()) + {x}
      ensures nodes == old(nodes)[..k] + [x] + old(nodes)[k..]
    {
      ghost var a := Ring();
      Neighbours(a, k);
      x.next := h.next;
      x.next.prev := x;
      x.prev := h;
      h.next := x;
      forall i | 0 <= i < |a| && i != k ensures LinkAt(a, i) {
        assert old(LinkAt(a, i));
      }
      Inserted(a, k, x);
      nodes := nodes[..k] + [x] + nodes[k..];
      assert Ring() == a[..k+1] + [x] + a[k+1..];
    }

    // uct_queue_insert_tail
    method InsertTail(x: Node<T>)
      requires Valid() && x !in Ring()
      modifies this, Repr(), x
      ensures Valid() && Repr() == old(Repr()) + {x}
      ensures nodes == old(nodes) + [x]
    {
      ghost var a := Ring();
      Neighbours(a, 0);
      x.prev := head.prev;
      x.prev.next := x;
      x.next := head;
      head.prev := x;
      forall i | 0 <= i < |a| && i != |a| - 1 ensures LinkAt(a, i) {
        assert old(LinkAt(a, i));
      }
      Inserted(a, |a| - 1, x);
      nodes := nodes + [x];
      assert Ring() == a[..|a|] + [x] + a[|a|..];
    }

    // uct_queue_remove, of element k
    method Remove(x: Node<T>, ghost k: nat)
      requires Valid()
      requires k < |nodes| && nodes[k] == x
      modifies this, Repr()
      ensures Valid() && Repr() == old(Repr()) - {x}
      ensures nodes == old(nodes)[..k] + old(nodes)[k+1..]
    {
      ghost var a := Ring();
      assert a[k+1] == x;
      Neighbours(a, k + 1);
      x.next.prev := x.prev;
      x.prev.next := x.next;
      forall i | 0 <= i < |a| && i != k && i != k + 1 ensures LinkAt(a, i) {
        assert old(LinkAt(a, i));
      }
      Removed(a, k + 1);
      nodes := nodes[..k] + nodes[k+1..];
      assert Ring() == a[..k+1] + a[k+2..];
    }

    // uct_queue_split: the elements from q, which is element k, move to the empty list n.
    method Split(q: Node<T>, n: List<T>, ghost k: nat)
      requires Valid() && k < |nodes| && nodes[k] == q
      requires n != this && n.head !in Ring()
      modifies this, Repr(), n, n.head
      ensures Valid() && n.Valid()
      ensures nodes == old(nodes)[..k] && n.nodes == old(nodes)[k..]
    {
      hide Linked;
      ghost var a := Ring();
      assert a[0] == head && a[k+1] == q;
      SplitLinks(head, q, n.head, a, k + 1);
      n.nodes := nodes[k..];
      nodes := nodes[..k];
      assert Ring() == a[..k+1] && n.Ring() == [n.head] + a[k+1..];
    }

    // uct_queue_add: the elements of n are appended; n itself is no longer a list afterwards.
    method Add(n: List<T>)
      requires Valid() && n.Valid() && n != this
      requires Distinct(Ring() + n.Ring())
      modifies this, Repr(), n.Repr()
      ensures Valid()
      ensures nodes == old(nodes) + old(n.nodes)
    {
      hide Linked;
      ghost var a, b := Ring(), n.Ring();
      assert a[0] == head && b[0] == n.head;
      AddLinks(head, n.head, a, b);
      nodes := nodes + n.nodes;
      assert Ring() == a + b[1..];
    }

    // uct_queue_middle; of an empty queue it is the sentinel.
    method Middle() returns (middle: Node<T>)
      requires Valid()
      ensures middle == if nodes == [] then head else nodes[|nodes| / 2]
    {
      ghost var a := Ring();
      Neighbours(a, 0);
      middle := head.next;
      if middle == head.prev {
        return;
      }
      var next := head.next;
      ghost var m := 1;
      ghost var e := 1;
      while true
        invariant 1 <= m <= e < |a| - 1
        invariant e == 2 * m - 1
        invariant middle == a[m] && next == a[e]
        decreases |a| - e
      {
        Neighbours(a, m);
        Neighbours(a, e);
        middle := middle.next;
        m := m + 1;
        next := next.next;
        e := e + 1;
        if next == head.prev {
          return;
        }
        Neighbours(a, e);
        next := next.next;
        e := e + 1;
        if next == head.prev {
          return;
        }
      }
    }

    // The inner loop of uct_queue_sort: q, taken out of its place i, goes back before every
    // element of the sorted part that is greater.
    method Reinsert(q: Node<T>, last: Node<T>, cmp: (T, T) -> int, ghost i: nat)
      requires Valid() && q !in Ring()
      requires 0 < i <= |nodes| && last == nodes[i-1]
      requires TotalPreorder(Order(cmp)) && Sorted(nodes[..i], Data(), Order(cmp))
      modifies this, Repr(), q
      ensures Valid() && |nodes| == |old(nodes)| + 1
      ensures Repr() == old(Repr()) + {q}
      ensures Sorted(nodes[..i+1], Data(), Order(cmp))
      ensures nodes[i+1..] == old(nodes)[i..]
      ensures SameClasses(old(nodes)[..i] + [q] + old(nodes)[i..], nodes, Data(), Order(cmp))
    {
      hide Linked, SameClasses, Sorted, TotalPreorder;
      ghost var before := nodes;
      ghost var p := i;
      var prev := last;
      while true
        invariant Valid() && nodes == before
        invariant 1 <= p <= i
        invariant prev == before[p-1]
        invariant forall k :: p <= k < i ==> !Order(cmp)(before[k].data, q.data)
        decreases p
      {
        if cmp(prev.data, q.data) <= 0 {
          break;
        }
        assert Ring()[p] == prev && Ring()[p-1] == if p == 1 then head else before[p-2];
        Neighbours(Ring(), p);
        prev := prev.prev;
        p := p - 1;
        HeadIsNoElement();
        if prev == head {
          break;
        }
      }
      assert Ring()[p] == prev;
      InsertAfter(prev, q, p);
      Reinsertion(before, i, p, q, Order(cmp));
    }

    // The body of the outer loop of uct_queue_sort: element i joins the sorted part before it.
    method Settle(q: Node<T>, cmp: (T, T) -> int, ghost i: nat) returns (next: Node<T>)
      requires Valid() && 0 < i < |nodes| && q == nodes[i]
      requires TotalPreorder(Order(cmp)) && Sorted(nodes[..i], Data(), Order(cmp))
      modifies this, Repr()
      ensures Valid() && Repr() == old(Repr()) && |nodes| == |old(nodes)|
      ensures Sorted(nodes[..i+1], Data(), Order(cmp))
      ensures SameClasses(old(nodes), nodes, Data(), Order(cmp))
      ensures next == if i + 1 == |nodes| then head else nodes[i+1]
    {
      hide SameClasses, TotalPreorder, Sorted, LinkedBut;
      ghost var before := nodes;
      assert Ring()[i+1] == q && Ring()[i] == before[i-1];
      Neighbours(Ring(), i + 1);
      var prev := q.prev;
      next := q.next;
      assert next == if i + 1 == |before| then head else before[i+1] by {
        assert i + 1 < |before| ==> Ring()[i+2] == before[i+1];
      }
      Remove(q, i);
      assert nodes[..i] == before[..i] && nodes[i..] == before[i+1..];
      Reinsert(q, prev, cmp, i);
      assert before == before[..i] + [q] + before[i+1..];
      assert i + 1 < |before| ==> nodes[i+1] == nodes[i+1..][0];
    }

    // uct_queue_sort: the stable insertion sort.
    method Sort(cmp: (T, T) -> int)
      requires Valid() && TotalPreorder(Order(cmp))
      modifies this, Repr()
      ensures Valid() && Repr() == old(Repr())
      ensures StableSortOf(old(nodes), nodes, Data(), Order(cmp))
      ensures multiset(nodes) == multiset(old(nodes))
    {
      hide SameClasses, TotalPreorder, LinkedBut;
      ghost var orig, n := nodes, |nodes|;
      ghost var le := Order(cmp);
      ghost var a := Ring();
      SameClassesReflexive(orig, Data(), le);
      Neighbours(a, 0);
      var q := head.next;
      if q == head.prev {
        ShortRing(a);
        return;
      }
      Neighbours(a, 1);
      q := q.next;
      assert n > 1 ==> a[2] == nodes[1];
      ghost var i := 1;
      HeadIsNoElement();
      while q != head
        invariant 1 <= i <= n
        invariant Valid() && |nodes| == n && Repr() == old(Repr())
        invariant q == if i == n then head else nodes[i]
        invariant q == head <==> i == n
        invariant SameClasses(orig, nodes, Data(), le)
        invariant Sorted(nodes[..i], Data(), le)
        decreases n - i
      {
        ghost var before := nodes;
        q := Settle(q, cmp, i);
        SameClassesTransitive(orig, before, nodes, Data(), le);
        HeadIsNoElement();
        i := i + 1;
      }
      SameClassesPermute(orig, nodes, Data(), le);
      assert nodes[..n] == nodes;
    }
  }
}
