/** Sums of integer sequences, as the scheduler proofs need them. */
module Sums {

  function Sum(s: seq<int>): int {
    if s == [] then 0 else Sum(s[..|s|-1]) + s[|s|-1]
  }

  lemma {:induction false} SumOfUpdate(s: seq<int>, i: nat, v: int)
    requires i < |s|
    ensures Sum(s[i := v]) == Sum(s) - s[i] + v
  {
    var last := |s| - 1;
    if i == last {
      assert s[i := v][..last] == s[..last];
    } else {
      assert s[i := v][..last] == s[..last][i := v];
      SumOfUpdate(s[..last], i, v);
    }
  }

  lemma {:induction false} SumOfPairs(a: seq<int>, b: seq<int>, c: seq<int>)
    requires |a| == |b| == |c|
    requires forall i :: 0 <= i < |a| ==> c[i] == a[i] + b[i]
    ensures Sum(c) == Sum(a) + Sum(b)
  {
    if a != [] {
      SumOfPairs(a[..|a|-1], b[..|a|-1], c[..|a|-1]);
    }
  }

  lemma {:induction false} SumOfZeros(a: seq<int>)
    requires forall i :: 0 <= i < |a| ==> a[i] == 0
    ensures Sum(a) == 0
  {
    if a != [] {
      SumOfZeros(a[..|a|-1]);
    }
  }

  lemma {:induction false} PositiveSum(a: seq<int>)
    requires Sum(a) > 0
    ensures exists i :: 0 <= i < |a| && a[i] > 0
  {
    var last := |a| - 1;
    if a[last] <= 0 {
      PositiveSum(a[..last]);
      var i :| 0 <= i < last && a[..last][i] > 0;
      assert a[i] > 0;
    }
  }

  // If a stays below b everywhere and has the same sum, the two are equal.
  lemma {:induction false} SqueezedSum(a: seq<int>, b: seq<int>)
    requires |a| == |b|
    requires forall i :: 0 <= i < |a| ==> a[i] <= b[i]
    ensures Sum(a) <= Sum(b)
    ensures Sum(a) == Sum(b) ==> a == b
  {
    if a != [] {
      SqueezedSum(a[..|a|-1], b[..|a|-1]);
      assert a == a[..|a|-1] + [a[|a|-1]] && b == b[..|a|-1] + [b[|a|-1]];
    }
  }
}
