/**
 What it means to be the stable sort of a sequence by a key, independent of any
 algorithm.  The bubble sort of the hash ring and the insertion sort of the queue
 are both proved to produce it.
 */
module StableOrder {

  ghost predicate TotalPreorder<K(!new)>(le: (K, K) -> bool) {
    && (forall x, y :: le(x, y) || le(y, x))
    && (forall x, y, z :: le(x, y) && le(y, z) ==> le(x, z))
  }

  ghost predicate Sorted<T, K>(s: seq<T>, key: T -> K, le: (K, K) -> bool) {
    forall i, j :: 0 <= i < j < |s| ==> le(key(s[i]), key(s[j]))
  }

  predicate Alike<K>(x: K, y: K, le: (K, K) -> bool) {
    le(x, y) && le(y, x)
  }

  // The elements of s whose key compares equal to x, in their order in s.
  function ClassOf<T, K>(s: seq<T>, x: K, key: T -> K, le: (K, K) -> bool): seq<T> {
    if s == [] then []
    else (if Alike(key(s[0]), x, le) then [s[0]] else []) + ClassOf(s[1..], x, key, le)
  }

  ghost predicate SameClasses<T, K(!new)>(a: seq<T>, b: seq<T>, key: T -> K, le: (K, K) -> bool) {
    forall x :: ClassOf(a, x, key, le) == ClassOf(b, x, key, le)
  }

  // Sorted, and elements whose keys compare equal keep their order.
  ghost predicate StableSortOf<T, K(!new)>(s: seq<T>, sorted: seq<T>, key: T -> K, le: (K, K) -> bool) {
    Sorted(sorted, key, le) && SameClasses(s, sorted, key, le)
  }

  lemma {:induction false} SameClassesReflexive<T, K(!new)>(a: seq<T>, key: T -> K, le: (K, K) -> bool)
    ensures SameClasses(a, a, key, le)
  {
  }

  lemma {:induction false} SameClassesTransitive<T, K(!new)>(a: seq<T>, b: seq<T>, c: seq<T>, key: T -> K, le: (K, K) -> bool)
    requires SameClasses(a, b, key, le) && SameClasses(b, c, key, le)
    ensures SameClasses(a, c, key, le)
  {
    forall x ensures ClassOf(a, x, key, le) == ClassOf(c, x, key, le) {
      assert ClassOf(b, x, key, le) == ClassOf(a, x, key, le);
    }
  }

  lemma {:induction false} ClassOfConcat<T, K>(a: seq<T>, b: seq<T>, x: K, key: T -> K, le: (K, K) -> bool)
    ensures ClassOf(a + b, x, key, le) == ClassOf(a, x, key, le) + ClassOf(b, x, key, le)
  {
    if a == [] {
      assert a + b == b;
    } else {
      assert (a + b)[1..] == a[1..] + b;
      ClassOfConcat(a[1..], b, x, key, le);
      var head := if Alike(key(a[0]), x, le) then [a[0]] else [];
      assert head + (ClassOf(a[1..], x, key, le) + ClassOf(b, x, key, le)) == (head + ClassOf(a[1..], x, key, le)) + ClassOf(b, x, key, le);
    }
  }

  // Moving u past elements it does not compare equal to changes no class.
  lemma {:induction false} MovePast<T, K(!new)>(a: seq<T>, u: T, mid: seq<T>, b: seq<T>, key: T -> K, le: (K, K) -> bool)
    requires TotalPreorder(le)
    requires forall i :: 0 <= i < |mid| ==> !Alike(key(mid[i]), key(u), le)
    ensures SameClasses(a + mid + [u] + b, a + [u] + mid + b, key, le)
  {
    forall x ensures ClassOf(a + mid + [u] + b, x, key, le) == ClassOf(a + [u] + mid + b, x, key, le) {
      ClassOfConcat(a + mid + [u], b, x, key, le);
      ClassOfConcat(a + mid, [u], x, key, le);
      ClassOfConcat(a, mid, x, key, le);
      ClassOfConcat(a + [u] + mid, b, x, key, le);
      ClassOfConcat(a + [u], mid, x, key, le);
      ClassOfConcat(a, [u], x, key, le);
      assert ClassOf([u], x, key, le) == if Alike(key(u), x, le) then [u] else [];
      if Alike(key(u), x, le) {
        NoneAlike(mid, x, key, le);
      }
    }
  }

  lemma {:induction false} InsertKeepsSorted<T, K(!new)>(s: seq<T>, p: nat, u: T, key: T -> K, le: (K, K) -> bool)
    requires TotalPreorder(le) && Sorted(s, key, le) && p <= |s|
    requires p > 0 ==> le(key(s[p-1]), key(u))
    requires forall k :: p <= k < |s| ==> !le(key(s[k]), key(u))
    ensures Sorted(s[..p] + [u] + s[p..], key, le)
  {
    var r := s[..p] + [u] + s[p..];
    forall i, j | 0 <= i < j < |r| ensures le(key(r[i]), key(r[j])) {
      if i < p == j {
        assert le(key(s[i]), key(s[p-1]));
      }
    }
  }

  lemma {:induction false} NoneAlike<T, K>(s: seq<T>, x: K, key: T -> K, le: (K, K) -> bool)
    requires forall i :: 0 <= i < |s| ==> !Alike(key(s[i]), x, le)
    ensures ClassOf(s, x, key, le) == []
  {
    if s != [] {
      NoneAlike(s[1..], x, key, le);
    }
  }

  lemma {:induction false} ClassMembers<T, K>(s: seq<T>, x: K, key: T -> K, le: (K, K) -> bool)
    ensures forall y :: y in ClassOf(s, x, key, le) <==> y in s && Alike(key(y), x, le)
  {
    if s != [] {
      ClassMembers(s[1..], x, key, le);
      assert s == [s[0]] + s[1..];
    }
  }

  lemma {:induction false} HeadIsInItsClass<T, K(!new)>(s: seq<T>, key: T -> K, le: (K, K) -> bool)
    requires TotalPreorder(le) && s != []
    ensures ClassOf(s, key(s[0]), key, le) != []
  {
    assert Alike(key(s[0]), key(s[0]), le);
  }

  /** There is only one stable sort: sorted order and class order determine the sequence. */
  lemma {:induction false} StableSortIsUnique<T, K(!new)>(a: seq<T>, b: seq<T>, key: T -> K, le: (K, K) -> bool)
    requires TotalPreorder(le) && Sorted(a, key, le) && Sorted(b, key, le) && SameClasses(a, b, key, le)
    ensures a == b
  {
    if a == [] {
      if b != [] {
        HeadIsInItsClass(b, key, le);
        assert false;
      }
    } else {
      var ka := key(a[0]);
      ClassMembers(a, ka, key, le);
      ClassMembers(b, ka, key, le);
      assert a[0] in ClassOf(b, ka, key, le);
      var kb := key(b[0]);
      ClassMembers(a, kb, key, le);
      ClassMembers(b, kb, key, le);
      assert b[0] in ClassOf(a, kb, key, le);
      assert Alike(ka, kb, le);
      assert ClassOf(a, ka, key, le)[0] == a[0] && ClassOf(b, ka, key, le)[0] == b[0];
      assert a[0] == b[0];
      forall x ensures ClassOf(a[1..], x, key, le) == ClassOf(b[1..], x, key, le) {
        var head := if Alike(ka, x, le) then [a[0]] else [];
        assert ClassOf(a, x, key, le) == head + ClassOf(a[1..], x, key, le);
        assert ClassOf(b, x, key, le) == head + ClassOf(b[1..], x, key, le);
        assert ClassOf(a[1..], x, key, le) == ClassOf(a, x, key, le)[|head|..];
      }
      StableSortIsUnique(a[1..], b[1..], key, le);
      assert a == [a[0]] + a[1..] && b == [b[0]] + b[1..];
    }
  }

  lemma {:induction false} ClassCount<T, K>(s: seq<T>, x: T, key: T -> K, le: (K, K) -> bool)
    requires Alike(key(x), key(x), le)
    ensures multiset(s)[x] == multiset(ClassOf(s, key(x), key, le))[x]
  {
    if s != [] {
      ClassCount(s[1..], x, key, le);
      assert s == [s[0]] + s[1..];
    }
  }

  /** Equal classes make the two sequences permutations of each other. */
  lemma {:induction false} SameClassesPermute<T, K(!new)>(a: seq<T>, b: seq<T>, key: T -> K, le: (K, K) -> bool)
    requires TotalPreorder(le) && SameClasses(a, b, key, le)
    ensures multiset(a) == multiset(b)
  {
    forall x | x in a || x in b ensures multiset(a)[x] == multiset(b)[x] {
      ClassCount(a, x, key, le);
      ClassCount(b, x, key, le);
      assert ClassOf(a, key(x), key, le) == ClassOf(b, key(x), key, le);
    }
    assert forall x :: x !in a && x !in b ==> multiset(a)[x] == multiset(b)[x];
  }
}
