/**
 The child list of a cJSON array or object (src/uct_json.c): a next/prev list
 whose last next is null and whose first prev points to the last element, so
 that appending needs no walk.  The ghost field kids is the abstract sequence.
 */
module JsonChildList {

  class Item {
    var next: Item?
    var prev: Item?
    var child: Item?
    ghost var kids: seq<Item>

    // cJSON_New_Item
    constructor ()
      ensures next == null && prev == null && child == null && kids == [] && WellFormed()
    {
      next, prev, child := null, null, null;
      kids := [];
    }

    ghost function Repr(): set<Item>
      reads this
    {
      {this} + set x | x in kids
    }

    // The children of this item are exactly those of s, properly linked.
    ghost predicate Lists(s: seq<Item>)
      reads this, s
    {
      this !in s && Linked(s) && child == if s == [] then null else s[0]
    }

    ghost predicate WellFormed()
      reads Repr()
    {
      Lists(kids)
    }
  }

  ghost predicate Joined(a: Item, b: Item)
    reads a, b
  {
    a.next == b && b.prev == a
  }

  ghost predicate Distinct(a: seq<Item>) {
    forall i, j :: 0 <= i < j < |a| ==> a[i] != a[j]
  }

  ghost predicate LinkAt(a: seq<Item>, i: nat)
    requires i + 1 < |a|
    reads a
  {
    Joined(a[i], a[i+1])
  }

  ghost predicate Linked(a: seq<Item>)
    reads a
  {
    && Distinct(a)
    && (forall i :: 0 <= i < |a| - 1 ==> LinkAt(a, i))
    && (a != [] ==> a[|a|-1].next == null && a[0].prev == a[|a|-1])
  }

  lemma Neighbours(a: seq<Item>, k: nat)
    requires Linked(a) && k < |a|
    ensures a[k].next == if k + 1 == |a| then null else a[k+1]
    ensures a[k].prev == if k == 0 then a[|a|-1] else a[k-1]
  {
    assert k + 1 < |a| ==> LinkAt(a, k);
    assert k > 0 ==> LinkAt(a, k - 1);
  }

  // get_array_item: the element at an index, or null.
  method GetArrayItem(parent: Item?, index: nat) returns (item: Item?)
    requires parent != null ==> parent.WellFormed()
    ensures item == if parent == null || index >= |parent.kids| then null else parent.kids[index]
  {
    if parent == null {
      return null;
    }
    var left := index;
    item := parent.child;
    ghost var k := 0;
    while item != null && left > 0
      invariant 0 <= k <= |parent.kids| && left == index - k
      invariant item == if k == |parent.kids| then null else parent.kids[k]
      decreases left
    {
      Neighbours(parent.kids, k);
      left := left - 1;
      item := item.next;
      k := k + 1;
    }
  }

  lemma Appended(a: seq<Item>, x: Item)
    requires a != [] && Distinct(a) && x !in a
    requires forall i :: 0 <= i < |a| - 1 ==> LinkAt(a, i)
    requires Joined(a[|a|-1], x) && a[0].prev == x
    ensures Linked(a + [x]) <==> x.next == null
  {
    var r := a + [x];
    forall i | 0 <= i < |r| - 1 ensures LinkAt(r, i) {
      assert i < |a| - 1 ==> LinkAt(a, i);
    }
  }

  /**
   add_item_to_array.  The item's next is reset only when the list was empty, so the result is
   a list exactly when the list was empty, or the item was no child and came without a successor.
   Otherwise there is no sequence of children at all, as NeverAList says.
   */
  method AddItemToArray(parent: Item?, item: Item?) returns (ok: bool)
    requires parent != null ==> parent.WellFormed()
    modifies if parent == null then {} else parent.Repr(), if item == null then {} else {item}
    ensures ok <==> item != null && parent != null && parent != item
    ensures !ok ==> (parent != null ==> unchanged(old(parent.Repr()))) && (item != null ==> unchanged(item))
    ensures !ok && parent != null ==> parent.WellFormed()
    ensures ok ==> parent.kids == old(parent.kids) + [item]
    ensures ok ==>
              (parent.WellFormed() <==> old(parent.kids) == [] || (item !in old(parent.kids) && old(item.next) == null))
    ensures ok && item in old(parent.kids) && item == old(parent.kids)[|old(parent.kids)|-1] ==> item.next == item
    ensures ok && !parent.WellFormed() ==> parent.child != null && parent.child.prev == item && item.next != null
    ensures parent != null ==> forall x :: x in old(parent.kids) ==> x.child == old(x.child) && x.kids == old(x.kids)
    ensures item != null && item != parent ==> item.child == old(item.child) && item.kids == old(item.kids)
  {
    if item == null || parent == null || parent == item {
      return false;
    }
    ghost var a := parent.kids;
    var child := parent.child;
    if child == null {
      parent.child := item;
      item.prev := item;
      item.next := null;
    } else if child.prev != null {
      ghost var k := 0;
      if item in a {
        k :| 0 <= k < |a| && a[k] == item;
        Neighbours(a, k);
      }
      Neighbours(a, 0);
      // suffix_object
      child.prev.next := item;
      item.prev := child.prev;
      parent.child.prev := item;
      if item !in a {
        forall i | 0 <= i < |a| - 1 ensures LinkAt(a, i) {
          assert old(LinkAt(a, i));
        }
        Appended(a, item);
      } else {
        Twice(a, |a|, item);
      }
    }
    parent.kids := a + [item];
    assert a[..|a|] == a && a[|a|..] == [];
    return true;
  }

  lemma Twice(a: seq<Item>, k: nat, x: Item)
    requires k <= |a| && x in a
    ensures !Linked(a[..k] + [x] + a[k..])
    ensures k == |a| ==> !Linked(a + [x])
  {
    var r := a[..k] + [x] + a[k..];
    var i :| 0 <= i < |a| && a[i] == x;
    assert r[k] == x && r[if i < k then i else i + 1] == x;
    assert k == |a| ==> r == a + [x];
  }

  lemma TwiceReplaced(a: seq<Item>, k: nat, x: Item)
    requires k < |a| && x in a && a[k] != x
    ensures !Linked(a[k := x])
  {
    var j :| 0 <= j < |a| && a[j] == x;
    var r := a[k := x];
    assert if j < k then r[j] == r[k] else k < j && r[k] == r[j];
  }

  // A first child whose prev has a successor belongs to no list.
  lemma NeverAList(parent: Item, s: seq<Item>)
    requires parent.child != null && parent.child.prev != null && parent.child.prev.next != null
    ensures !parent.Lists(s)
  {
  }

  // Appending the first of two children of another parent, which keeps its successor.
  method AppendingASiblingFails() returns (parent: Item)
    ensures fresh(parent) && forall s :: !parent.Lists(s)
  {
    var b, c, a;
    b, c := TwoSiblings();
    parent, a := OnlyChild();
    var ok := AddItemToArray(parent, b);
    forall s ensures !parent.Lists(s) {
      NeverAList(parent, s);
    }
  }

  method TwoSiblings() returns (b: Item, c: Item)
    ensures fresh(b) && fresh(c) && b.next == c
  {
    var other := new Item();
    b := new Item();
    c := new Item();
    var ok := AddItemToArray(other, b);
    ok := AddItemToArray(other, c);
    assert other.kids == [b, c];
    Neighbours(other.kids, 0);
  }

  method OnlyChild() returns (parent: Item, a: Item)
    ensures fresh(parent) && fresh(a) && parent != a
    ensures parent.WellFormed() && parent.kids == [a]
  {
    parent := new Item();
    a := new Item();
    var ok := AddItemToArray(parent, a);
  }

  // Appending the last child once more makes it its own successor.
  method AppendingTwiceFails() returns (parent: Item, x: Item)
    ensures fresh(parent) && parent.kids == [x, x] && x.next == x && forall s :: !parent.Lists(s)
  {
    parent, x := OnlyChild();
    var ok := AddItemToArray(parent, x);
    forall s ensures !parent.Lists(s) {
      NeverAList(parent, s);
    }
  }

  lemma Removed(a: seq<Item>, k: nat)
    requires k < |a| && Distinct(a)
    requires forall i :: 0 <= i < |a| - 1 && i != k - 1 && i != k ==> LinkAt(a, i)
    requires 0 < k < |a| - 1 ==> Joined(a[k-1], a[k+1])
    requires |a| > 1 ==> (if k == |a| - 1 then a[k-1].next == null && a[0].prev == a[k-1]
                          else a[|a|-1].next == null && a[if k == 0 then 1 else 0].prev == a[|a|-1])
    ensures Linked(a[..k] + a[k+1..])
  {
    var r := a[..k] + a[k+1..];
    assert forall i :: 0 <= i < |r| ==> r[i] == a[if i < k then i else i + 1];
    forall i | 0 <= i < |r| - 1 ensures LinkAt(r, i) {
      var i' := if i < k then i else i + 1;
      assert i != k - 1 ==> LinkAt(a, i');
    }
  }

  // cJSON_DetachItemViaPointer, of child number k
  method DetachItemViaPointer(parent: Item?, item: Item?, ghost k: nat) returns (r: Item?)
    requires parent != null ==> parent.WellFormed()
    requires parent != null && item != null ==> k < |parent.kids| && parent.kids[k] == item
    modifies if parent == null then {} else parent.Repr()
    ensures parent == null || item == null ==> r == null && (parent != null ==> unchanged(old(parent.Repr())))
    ensures parent != null && item != null ==>
              && r == item && parent.WellFormed()
              && parent.kids == old(parent.kids)[..k] + old(parent.kids)[k+1..]
              && item.next == null && item.prev == null
    ensures parent != null ==> forall x :: x in old(parent.kids) ==> x.child == old(x.child) && x.kids == old(x.kids)
  {
    if parent == null || item == null {
      return null;
    }
    ghost var a := parent.kids;
    Neighbours(a, k);
    Neighbours(a, 0);
    if item != parent.child {
      item.prev.next := item.next;
    }
    if item.next != null {
      item.next.prev := item.prev;
    }
    if item == parent.child {
      parent.child := item.next;
    } else if item.next == null {
      parent.child.prev := item.prev;
    }
    item.prev := null;
    item.next := null;
    forall i | 0 <= i < |a| - 1 && i != k - 1 && i != k ensures LinkAt(a, i) {
      assert old(LinkAt(a, i));
    }
    Removed(a, k);
    parent.kids := a[..k] + a[k+1..];
    return item;
  }

  lemma Inserted(a: seq<Item>, k: nat, x: Item)
    requires k < |a| && Distinct(a) && x !in a
    requires forall i :: 0 <= i < |a| - 1 && i != k - 1 ==> LinkAt(a, i)
    requires Joined(x, a[k]) && a[|a|-1].next == null
    requires if k == 0 then x.prev == a[|a|-1] else Joined(a[k-1], x) && a[0].prev == a[|a|-1]
    ensures Linked(a[..k] + [x] + a[k..])
  {
    var r := a[..k] + [x] + a[k..];
    assert forall i :: 0 <= i < |r| ==> r[i] == if i < k then a[i] else if i == k then x else a[i-1];
    forall i | 0 <= i < |r| - 1 ensures LinkAt(r, i) {
      assert i < k - 1 ==> LinkAt(a, i);
      assert i > k ==> LinkAt(a, i - 1);
    }
    forall i, j | 0 <= i < j < |r| ensures r[i] != r[j] {
      assert r[i] == x || r[i] in a;
    }
  }

  // cJSON_InsertItemInArray; past the end it appends, with the condition of add_item_to_array.  Only
  // there is it noticed that an item is put into itself.
  method InsertItemInArray(parent: Item?, which: int, newitem: Item) returns (ok: bool)
    requires parent != null ==> parent.WellFormed()
    modifies if parent == null then {} else parent.Repr(), newitem
    ensures ok <==> which >= 0 && parent != null && (newitem != parent || which < |old(parent.kids)|)
    ensures !ok ==> unchanged(newitem) && (parent != null ==> unchanged(old(parent.Repr())))
    ensures ok ==>
              var n := |old(parent.kids)|;
              parent.WellFormed() <==>
                newitem !in old(parent.Repr()) && (which < n || n == 0 || old(newitem.next) == null)
    ensures parent != null ==> forall x :: x in old(parent.kids) ==> x.child == old(x.child) && x.kids == old(x.kids)
    ensures newitem != parent ==> newitem.child == old(newitem.child) && newitem.kids == old(newitem.kids)
    ensures ok ==> var n := |old(parent.kids)|;
                   var at := if which < n then which else n;
                   parent.kids == old(parent.kids)[..at] + [newitem] + old(parent.kids)[at..]
  {
    if which < 0 {
      return false;
    }
    var after := GetArrayItem(parent, which);
    if after == null {
      ok := AddItemToArray(parent, newitem);
      return;
    }
    hide Linked;
    ghost var a := parent.kids;
    InsertBefore(parent, which, after, newitem);
    parent.kids := a[..which] + [newitem] + a[which..];
    if newitem in a {
      Twice(a, which, newitem);
    }
    assert parent.kids[which] == newitem;
    return true;
  }

  // The case of an element at the index.
  method InsertBefore(parent: Item, which: nat, after: Item, newitem: Item)
    requires parent.WellFormed()
    requires which < |parent.kids| && parent.kids[which] == after
    modifies parent.Repr(), newitem
    ensures parent.kids == old(parent.kids)
    ensures newitem !in old(parent.Repr()) ==> parent.Lists(old(parent.kids)[..which] + [newitem] + old(parent.kids)[which..])
    ensures forall x :: x in old(parent.kids) ==> x.child == old(x.child) && x.kids == old(x.kids)
    ensures newitem != parent ==> newitem.child == old(newitem.child) && newitem.kids == old(newitem.kids)
  {
    ghost var a := parent.kids;
    Neighbours(a, which);
    Neighbours(a, 0);
    Neighbours(a, |a| - 1);
    newitem.next := after;
    newitem.prev := after.prev;
    after.prev := newitem;
    if after == parent.child {
      parent.child := newitem;
    } else {
      newitem.prev.next := newitem;
    }
    if newitem !in old(parent.Repr()) {
      forall i | 0 <= i < |a| - 1 && i != which - 1 ensures LinkAt(a, i) {
        assert old(LinkAt(a, i));
      }
      Inserted(a, which, newitem);
    }
  }

  lemma Replaced(a: seq<Item>, k: nat, x: Item)
    requires k < |a| && Distinct(a) && x !in a
    requires forall i :: 0 <= i < |a| - 1 && i != k - 1 && i != k ==> LinkAt(a, i)
    requires k > 0 ==> Joined(a[k-1], x)
    requires if k == |a| - 1 then x.next == null else Joined(x, a[k+1]) && a[|a|-1].next == null
    requires (if k == 0 then x else a[0]).prev == if k == |a| - 1 then x else a[|a|-1]
    ensures Linked(a[k := x])
  {
    var r := a[k := x];
    forall i | 0 <= i < |r| - 1 ensures LinkAt(r, i) {
      assert i != k - 1 && i != k ==> LinkAt(a, i);
    }
  }

  // cJSON_ReplaceItemViaPointer, of child number k; the replaced item is then freed.
  method ReplaceItemViaPointer(parent: Item?, item: Item?, replacement: Item?, ghost k: nat) returns (ok: bool)
    requires parent != null ==> parent.WellFormed()
    requires parent != null && item != null ==> k < |parent.kids| && parent.kids[k] == item
    modifies if parent == null then {} else parent.Repr(), if replacement == null then {} else {replacement}
    ensures ok <==> parent != null && item != null && replacement != null
    ensures !ok ==> (replacement != null ==> unchanged(replacement)) && (parent != null ==> unchanged(old(parent.Repr())))
    ensures ok ==> parent.kids == old(parent.kids)[k := replacement]
    ensures ok ==> (parent.WellFormed() <==> replacement == item || replacement !in old(parent.Repr()))
    ensures parent != null ==> forall x :: x in old(parent.kids) ==> x.child == old(x.child) && x.kids == old(x.kids)
    ensures replacement != null && replacement != parent ==>
              replacement.child == old(replacement.child) && replacement.kids == old(replacement.kids)
    ensures ok && item != replacement ==> item.next == null && item.prev == null
  {
    if parent == null || replacement == null || item == null {
      return false;
    }
    if replacement == item {
      return true;
    }
    hide Linked;
    ghost var a := parent.kids;
    Exchange(parent, item, replacement, k);
    parent.kids := a[k := replacement];
    if replacement in a {
      TwiceReplaced(a, k, replacement);
    }
    assert a[k := replacement][k] == replacement;
    return true;
  }

  // The part of cJSON_ReplaceItemViaPointer that links the replacement.
  method Exchange(parent: Item, item: Item, replacement: Item, ghost k: nat)
    requires parent.WellFormed() && k < |parent.kids| && parent.kids[k] == item && replacement != item
    modifies parent.Repr(), replacement
    ensures parent.kids == old(parent.kids)
    ensures replacement !in old(parent.Repr()) ==> parent.Lists(old(parent.kids)[k := replacement])
    ensures forall x :: x in old(parent.kids) ==> x.child == old(x.child) && x.kids == old(x.kids)
    ensures replacement != parent ==> replacement.child == old(replacement.child) && replacement.kids == old(replacement.kids)
    ensures item.next == null && item.prev == null
  {
    ghost var a := parent.kids;
    Neighbours(a, k);
    Neighbours(a, 0);
    Neighbours(a, |a| - 1);
    replacement.next := item.next;
    replacement.prev := item.prev;
    if replacement.next != null {
      replacement.next.prev := replacement;
    }
    if parent.child == item {
      if parent.child.prev == parent.child {
        replacement.prev := replacement;
      }
      parent.child := replacement;
    } else {
      if replacement.prev != null {
        replacement.prev.next := replacement;
      }
      if replacement.next == null {
        parent.child.prev := replacement;
      }
    }
    item.next := null;
    item.prev := null;
    if replacement !in old(parent.Repr()) {
      forall i | 0 <= i < |a| - 1 && i != k - 1 && i != k ensures LinkAt(a, i) {
        assert old(LinkAt(a, i));
      }
      Replaced(a, k, replacement);
    }
  }
}
