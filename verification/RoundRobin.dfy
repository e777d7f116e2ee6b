/**
 Runs of the smooth weighted round robin: exactness, periodicity, fairness,
 and the bound on falling back to a skipped server.
 */
module RoundRobin {
  import opened Upstream
  import opened Sums

  // elig says which servers take part at time now, and no weight is about to change.
  ghost predicate Fixed(ss: seq<Server>, elig: seq<bool>, now: nat) {
    && |elig| == |ss|
    && forall i :: 0 <= i < |ss| ==>
                     && elig[i] == !Skipped(ss[i], now)
                     && (elig[i] ==> !ProbeDue(ss[i], now))
  }

  ghost predicate FixedDuring(ss: seq<Server>, elig: seq<bool>, nows: seq<nat>) {
    && |elig| == |ss|
    && forall k :: 0 <= k < |nows| ==> Fixed(ss, elig, nows[k])
  }

  function After(ss: seq<Server>, nows: seq<nat>): (r: seq<Server>)
    requires |ss| > 0
    ensures |r| == |ss|
  {
    if nows == [] then ss
    else RoundRobinStep(After(ss, nows[..|nows|-1]), nows[|nows|-1]).0
  }

  // The server that call k of the run returns.
  function PickAt(ss: seq<Server>, nows: seq<nat>, k: nat): nat
    requires |ss| > 0 && k < |nows|
  {
    RoundRobinStep(After(ss, nows[..k]), nows[k]).1
  }

  function PickCount(ss: seq<Server>, nows: seq<nat>, i: nat): nat
    requires |ss| > 0
  {
    if nows == [] then 0
    else PickCount(ss, nows[..|nows|-1], i) + (if PickAt(ss, nows, |nows|-1) == i then 1 else 0)
  }

  function Weights(ss: seq<Server>, elig: seq<bool>): (r: seq<int>)
    requires |elig| == |ss|
  {
    seq(|ss|, i requires 0 <= i < |ss| => if elig[i] then ss[i].effectiveWeight else 0)
  }

  function Currents(ss: seq<Server>, elig: seq<bool>): (r: seq<int>)
    requires |elig| == |ss|
  {
    seq(|ss|, i requires 0 <= i < |ss| => if elig[i] then ss[i].currentWeight else 0)
  }

  function Everyone(n: nat): seq<bool> { seq(n, _ => true) }

  function Shifted(s: Server, d: int): Server {
    s.(currentWeight := s.currentWeight + d)
  }

  // What server s gains from a call at time now.
  function Gain(s: Server, now: nat): int {
    if Skipped(s, now) then 0 else Probe(s, now).effectiveWeight
  }

  function Gains(ss: seq<Server>, now: nat): seq<int> {
    seq(|ss|, i requires 0 <= i < |ss| => Gain(ss[i], now))
  }

  lemma {:induction false} TotalIsSumOfGains(ss: seq<Server>, now: nat)
    ensures Total(ss, now) == Sum(Gains(ss, now))
  {
    if ss != [] {
      TotalIsSumOfGains(ss[..|ss|-1], now);
      assert Gains(ss, now)[..|ss|-1] == Gains(ss[..|ss|-1], now);
    }
  }

  lemma StepParts(ss: seq<Server>, now: nat)
    requires |ss| > 0
    ensures var (r, best) := RoundRobinStep(ss, now);
            && |r| == |ss| && best < |ss|
            && IsBest(Advances(ss, now), now, best)
            && (forall i :: 0 <= i < |ss| ==>
                 r[i] == Shifted(Probe(ss[i], now), Gain(ss[i], now) - (if i == best then Sum(Gains(ss, now)) else 0)))
            && (forall i :: 0 <= i < |ss| ==>
                 r[i].currentWeight == ss[i].currentWeight + Gain(ss[i], now) - (if i == best then Sum(Gains(ss, now)) else 0))
  {
    hide Skipped, Probe, Advanced, Gain, Sum, Total;
    TotalIsSumOfGains(ss, now);
    forall i | 0 <= i < |ss|
      ensures Advances(ss, now)[i] == Shifted(Probe(ss[i], now), Gain(ss[i], now))
      ensures Probe(ss[i], now).currentWeight == ss[i].currentWeight
    {
      AdvancedIsShifted(ss[i], now);
    }
  }

  lemma AdvancedIsShifted(s: Server, now: nat)
    ensures Advanced(s, now) == Shifted(Probe(s, now), Gain(s, now))
    ensures Probe(s, now).currentWeight == s.currentWeight
  {
  }

  // One call leaves the sum of all current weights alone, whatever the state of the servers.
  lemma CurrentSumKept(ss: seq<Server>, now: nat)
    requires |ss| > 0
    ensures |RoundRobinStep(ss, now).0| == |ss|
    ensures Sum(Currents(RoundRobinStep(ss, now).0, Everyone(|ss|))) == Sum(Currents(ss, Everyone(|ss|)))
  {
    hide RoundRobinStep;
    StepParts(ss, now);
    SumsMove(ss, Everyone(|ss|), now, Gains(ss, now));
  }

  // How a call moves the sum of the current weights of a set of servers that gains w in all.
  lemma SumsMove(ss: seq<Server>, elig: seq<bool>, now: nat, w: seq<int>)
    requires |ss| > 0 && |elig| == |ss| == |w|
    requires forall i :: 0 <= i < |ss| ==> w[i] == if elig[i] then Gain(ss[i], now) else 0
    ensures var (r, best) := RoundRobinStep(ss, now);
            && |r| == |ss| && best < |ss|
            && Sum(Currents(r, elig)) == Sum(Currents(ss, elig)) + Sum(w)
                                       - (if elig[best] then Sum(Gains(ss, now)) else 0)
  {
    hide RoundRobinStep, Gain, Probe, Skipped, IsBest, Advances;
    var (r, best) := RoundRobinStep(ss, now);
    StepParts(ss, now);
    SumOfMoved(Currents(ss, elig), w, Currents(r, elig), best, if elig[best] then Sum(Gains(ss, now)) else 0);
  }

  lemma SumOfMoved(c: seq<int>, w: seq<int>, d: seq<int>, best: nat, paid: int)
    requires |c| == |w| == |d| && best < |c|
    requires forall i :: 0 <= i < |c| ==> d[i] == c[i] + w[i] - (if i == best then paid else 0)
    ensures Sum(d) == Sum(c) + Sum(w) - paid
  {
    hide Sum;
    var mid := seq(|c|, i requires 0 <= i < |c| => c[i] + w[i]);
    SumOfPairs(c, w, mid);
    SumOfUpdate(mid, best, mid[best] - paid);
    assert d == mid[best := mid[best] - paid];
  }

  // One call under fixed conditions: every participant gains its weight, the pick pays the total.
  lemma FixedStep(ss: seq<Server>, elig: seq<bool>, now: nat)
    requires |ss| > 0 && Fixed(ss, elig, now)
    ensures var (r, best) := RoundRobinStep(ss, now);
            var t := Sum(Weights(ss, elig));
            && |r| == |ss| && best < |ss|
            && (forall i :: 0 <= i < |ss| ==>
                 r[i] == Shifted(ss[i], (if elig[i] then ss[i].effectiveWeight else 0) - (if i == best then t else 0)))
            && Sum(Currents(r, elig)) == Sum(Currents(ss, elig)) + (if elig[best] then 0 else t)
  {
    hide RoundRobinStep;
    StepParts(ss, now);
    assert Gains(ss, now) == Weights(ss, elig);
    SumsMove(ss, elig, now, Weights(ss, elig));
  }

  /**
   In any table, a call returns a server that it skips exactly when server 0 is skipped and no
   participant comes above 0.
   */
  lemma SkippedPickExactly(ss: seq<Server>, now: nat)
    requires |ss| > 0
    ensures var best := RoundRobinStep(ss, now).1;
            && best < |ss|
            && (Skipped(ss[best], now) <==>
                Skipped(ss[0], now) && forall i :: 0 <= i < |ss| && !Skipped(ss[i], now) ==> ss[i].currentWeight + Gain(ss[i], now) <= 0)
  {
    var best := RoundRobinStep(ss, now).1;
    var adv := Advances(ss, now);
    StepParts(ss, now);
    forall i | 0 <= i < |ss|
      ensures adv[i].currentWeight == ss[i].currentWeight + Gain(ss[i], now)
      ensures Skipped(adv[i], now) == Skipped(ss[i], now)
    {
      AdvancedIsShifted(ss[i], now);
    }
    hide Skipped, Gain, Advanced, RoundRobinStep;
    if i :| 0 <= i < |ss| && !Skipped(ss[i], now) && ss[i].currentWeight + Gain(ss[i], now) > 0 {
      assert Candidate(adv[i], now);
    }
  }

  // A pick that does not take part is server 0, and then no participant was above 0.
  lemma FixedPick(ss: seq<Server>, elig: seq<bool>, now: nat)
    requires |ss| > 0 && Fixed(ss, elig, now)
    ensures var best := RoundRobinStep(ss, now).1;
            var t := Sum(Weights(ss, elig));
            && best < |ss|
            && (!elig[best] ==> best == 0 && Sum(Currents(ss, elig)) + t <= 0)
            && (!elig[best] <==>
                !elig[0] && forall i :: 0 <= i < |ss| && elig[i] ==> ss[i].currentWeight + ss[i].effectiveWeight <= 0)
            && (Sum(Currents(ss, elig)) + t > 0 ==> elig[best] && ss[best].currentWeight + ss[best].effectiveWeight > 0)
  {
    StepParts(ss, now);
    var adv := Advances(ss, now);
    SumOfPairs(Currents(ss, elig), Weights(ss, elig), Currents(adv, elig));
    if Sum(Currents(adv, elig)) > 0 {
      PositiveSum(Currents(adv, elig));
      var i :| 0 <= i < |ss| && Currents(adv, elig)[i] > 0;
      assert Candidate(adv[i], now);
    }
    SkippedPickExactly(ss, now);
  }

  // What a run of fixed calls adds to the current weight of server i.
  function Balance(ss: seq<Server>, elig: seq<bool>, nows: seq<nat>, i: nat): int
    requires |ss| > 0 && |elig| == |ss| && i < |ss|
  {
    (if elig[i] then |nows| * ss[i].effectiveWeight else 0) - Sum(Weights(ss, elig)) * PickCount(ss, nows, i)
  }

  lemma BalanceStep(ss: seq<Server>, elig: seq<bool>, nows: seq<nat>, i: nat)
    requires |ss| > 0 && |elig| == |ss| && i < |ss| && nows != []
    ensures Balance(ss, elig, nows, i) == Balance(ss, elig, nows[..|nows|-1], i)
              + (if elig[i] then ss[i].effectiveWeight else 0)
              - (if i == PickAt(ss, nows, |nows|-1) then Sum(Weights(ss, elig)) else 0)
  {
    hide PickAt;
    NextMultiple(|nows| - 1, ss[i].effectiveWeight);
    NextMultiple(PickCount(ss, nows[..|nows|-1], i), Sum(Weights(ss, elig)));
  }

  lemma NextMultiple(k: int, w: int)
    ensures (k + 1) * w == k * w + w
    ensures w * (k + 1) == w * k + w
  {
  }

  ghost predicate ShiftOf(a: seq<Server>, b: seq<Server>) {
    |a| == |b| && forall i :: 0 <= i < |a| ==> a[i] == Shifted(b[i], a[i].currentWeight - b[i].currentWeight)
  }

  lemma ShiftKeepsFixed(a: seq<Server>, b: seq<Server>, elig: seq<bool>)
    requires ShiftOf(a, b) && |elig| == |b|
    ensures Weights(a, elig) == Weights(b, elig)
    ensures forall now :: Fixed(b, elig, now) ==> Fixed(a, elig, now)
  {
    forall now | Fixed(b, elig, now) ensures Fixed(a, elig, now) {
      forall i | 0 <= i < |a|
        ensures Skipped(a[i], now) == Skipped(b[i], now) && ProbeDue(a[i], now) == ProbeDue(b[i], now)
      {
      }
    }
  }

  // The whole table after a run, in closed form.
  lemma {:induction false} ClosedForm(ss: seq<Server>, elig: seq<bool>, nows: seq<nat>)
    requires |ss| > 0 && FixedDuring(ss, elig, nows)
    ensures forall i :: 0 <= i < |ss| ==> After(ss, nows)[i] == Shifted(ss[i], Balance(ss, elig, nows, i))
    ensures Weights(After(ss, nows), elig) == Weights(ss, elig)
    ensures forall now :: Fixed(ss, elig, now) ==> Fixed(After(ss, nows), elig, now)
  {
    hide RoundRobinStep, Skipped, ProbeDue, Elapsed;
    if nows != [] {
      var k := |nows| - 1;
      var prev := After(ss, nows[..k]);
      ClosedForm(ss, elig, nows[..k]);
      assert Fixed(ss, elig, nows[k]);
      FixedStep(prev, elig, nows[k]);
      forall i | 0 <= i < |ss|
        ensures After(ss, nows)[i] == Shifted(ss[i], Balance(ss, elig, nows, i))
      {
        BalanceStep(ss, elig, nows, i);
      }
    }
    assert ShiftOf(After(ss, nows), ss);
    ShiftKeepsFixed(After(ss, nows), ss, elig);
  }

  ghost predicate Rested(ss: seq<Server>, elig: seq<bool>)
    requires |elig| == |ss|
  {
    && (forall i :: 0 <= i < |ss| && elig[i] ==> ss[i].currentWeight == 0 && ss[i].effectiveWeight >= 0)
    && Sum(Weights(ss, elig)) > 0
  }

  // From rest every pick takes part and no participant ever owes a full round.
  lemma {:induction false} RunFromRest(ss: seq<Server>, elig: seq<bool>, nows: seq<nat>)
    requires |ss| > 0 && FixedDuring(ss, elig, nows) && Rested(ss, elig)
    ensures Sum(Currents(After(ss, nows), elig)) == 0
    ensures forall i :: 0 <= i < |ss| && elig[i] ==> After(ss, nows)[i].currentWeight > -Sum(Weights(ss, elig))
    ensures forall k :: 0 <= k < |nows| ==> PickAt(ss, nows, k) < |ss| && elig[PickAt(ss, nows, k)]
  {
    hide RoundRobinStep, Skipped, ProbeDue, Elapsed, Fixed;
    if nows == [] {
      SumOfZeros(Currents(ss, elig));
    } else {
      var last := |nows| - 1;
      var prev := After(ss, nows[..last]);
      RunFromRest(ss, elig, nows[..last]);
      ClosedForm(ss, elig, nows[..last]);
      assert Fixed(ss, elig, nows[last]);
      FixedStep(prev, elig, nows[last]);
      FixedPick(prev, elig, nows[last]);
      PicksOfPrefix(ss, nows);
      assert PickAt(ss, nows, last) == RoundRobinStep(prev, nows[last]).1;
    }
  }

  lemma PicksOfPrefix(ss: seq<Server>, nows: seq<nat>)
    requires |ss| > 0 && nows != []
    ensures forall k :: 0 <= k < |nows| - 1 ==> PickAt(ss, nows, k) == PickAt(ss, nows[..|nows|-1], k)
  {
    hide RoundRobinStep, After;
    forall k | 0 <= k < |nows| - 1 ensures PickAt(ss, nows, k) == PickAt(ss, nows[..|nows|-1], k) {
      assert nows[..|nows|-1][..k] == nows[..k];
    }
  }

  function Counts(ss: seq<Server>, nows: seq<nat>): seq<int>
    requires |ss| > 0
  {
    seq(|ss|, i requires 0 <= i < |ss| => PickCount(ss, nows, i))
  }

  // Every call picks one server; only those in elig are ever picked.
  lemma {:induction false} PicksAddUp(ss: seq<Server>, elig: seq<bool>, nows: seq<nat>)
    requires |ss| > 0 && |elig| == |ss|
    requires forall k :: 0 <= k < |nows| ==> PickAt(ss, nows, k) < |ss| && elig[PickAt(ss, nows, k)]
    ensures Sum(Counts(ss, nows)) == |nows|
    ensures forall i :: 0 <= i < |ss| && !elig[i] ==> PickCount(ss, nows, i) == 0
  {
    hide RoundRobinStep;
    if nows == [] {
      SumOfZeros(Counts(ss, nows));
    } else {
      var last := |nows| - 1;
      forall k | 0 <= k < last ensures PickAt(ss, nows[..last], k) == PickAt(ss, nows, k) {
        assert nows[..last][..k] == nows[..k];
      }
      PicksAddUp(ss, elig, nows[..last]);
      var best := PickAt(ss, nows, last);
      var before := Counts(ss, nows[..last]);
      SumOfUpdate(before, best, before[best] + 1);
      assert Counts(ss, nows) == before[best := before[best] + 1];
    }
  }

  /** Fairness: after any k calls, server i has been picked fewer than k*w(i)/W + 1 times. */
  lemma Fairness(ss: seq<Server>, elig: seq<bool>, nows: seq<nat>, i: nat)
    requires |ss| > 0 && FixedDuring(ss, elig, nows) && Rested(ss, elig)
    requires i < |ss| && elig[i]
    ensures Sum(Weights(ss, elig)) * PickCount(ss, nows, i)
            < |nows| * ss[i].effectiveWeight + Sum(Weights(ss, elig))
  {
    hide RoundRobinStep;
    RunFromRest(ss, elig, nows);
    ClosedForm(ss, elig, nows);
  }

  /** Exactness: a round of W calls picks server i exactly w(i) times and restores the table. */
  lemma ExactRound(ss: seq<Server>, elig: seq<bool>, nows: seq<nat>)
    requires |ss| > 0 && FixedDuring(ss, elig, nows) && Rested(ss, elig)
    requires |nows| == Sum(Weights(ss, elig))
    ensures forall i :: 0 <= i < |ss| ==> PickCount(ss, nows, i) == if elig[i] then ss[i].effectiveWeight else 0
    ensures After(ss, nows) == ss
  {
    hide RoundRobinStep, Fixed, After, PickCount, Sum;
    var w := Weights(ss, elig);
    var t := Sum(w);
    var counts := Counts(ss, nows);
    RunFromRest(ss, elig, nows);
    PicksAddUp(ss, elig, nows);
    forall i | 0 <= i < |ss| ensures counts[i] <= w[i] {
      if elig[i] {
        Fairness(ss, elig, nows, i);
        CancelFactor(t, counts[i], w[i]);
      }
    }
    SqueezedSum(counts, w);
    ClosedForm(ss, elig, nows);
    forall i | 0 <= i < |ss| ensures After(ss, nows)[i] == ss[i] {
      assert counts[i] == w[i];
      assert Balance(ss, elig, nows, i) == 0;
    }
  }

  lemma CancelFactor(t: int, a: int, b: int)
    requires t > 0 && t * a < t * b + t
    ensures a <= b
  {
    var d := a - b;
    assert t * a == t * b + t * d;
    if d >= 1 {
      AtLeastOne(t, d);
      assert false;
    }
  }

  lemma {:induction false} RunsCompose(ss: seq<Server>, a: seq<nat>, b: seq<nat>)
    requires |ss| > 0
    ensures After(ss, a + b) == After(After(ss, a), b)
    ensures forall i: nat :: PickCount(ss, a + b, i) == PickCount(ss, a, i) + PickCount(After(ss, a), b, i)
  {
    hide RoundRobinStep;
    if b == [] {
      assert a + b == a;
    } else {
      var k := |b| - 1;
      assert (a + b)[..|a| + k] == a + b[..k];
      RunsCompose(ss, a, b[..k]);
    }
  }

  /** Periodicity: q rounds pick server i exactly q*w(i) times and restore the table. */
  lemma {:induction false} Periodic(ss: seq<Server>, elig: seq<bool>, nows: seq<nat>, q: nat)
    requires |ss| > 0 && FixedDuring(ss, elig, nows) && Rested(ss, elig)
    requires |nows| == q * Sum(Weights(ss, elig))
    ensures After(ss, nows) == ss
    ensures forall i :: 0 <= i < |ss| ==> PickCount(ss, nows, i) == if elig[i] then q * ss[i].effectiveWeight else 0
    decreases q
  {
    hide RoundRobinStep;
    var t := Sum(Weights(ss, elig));
    if q == 0 {
      assert nows == [];
    } else {
      assert q * t == (q - 1) * t + t;
      Multiples(q - 1, t);
      var cut := (q - 1) * t;
      assert nows == nows[..cut] + nows[cut..];
      Periodic(ss, elig, nows[..cut], q - 1);
      ExactRound(ss, elig, nows[cut..]);
      RunsCompose(ss, nows[..cut], nows[cut..]);
      forall i | 0 <= i < |ss|
        ensures PickCount(ss, nows, i) == if elig[i] then q * ss[i].effectiveWeight else 0
      {
        var w := ss[i].effectiveWeight;
        assert (q - 1) * w + w == q * w;
      }
    }
  }

  lemma AtLeastOne(t: int, d: int)
    requires t > 0 && d >= 1
    ensures t * d >= t
  {
    Multiples(d - 1, t);
    assert t * d == t * (d - 1) + t;
  }

  lemma Multiples(q: int, t: int)
    requires q >= 0 && t >= 0
    ensures q * t >= 0
  {
  }

  // The calls of a run that return a server which takes no part.
  function Fallbacks(ss: seq<Server>, elig: seq<bool>, nows: seq<nat>): nat
    requires |ss| > 0
  {
    if nows == [] then 0
    else
      var k := |nows| - 1;
      var p := PickAt(ss, nows, k);
      Fallbacks(ss, elig, nows[..k]) + (if p < |elig| && !elig[p] then 1 else 0)
  }

  /**
   While the participants and their weights stay fixed, at most floor(max(0, -S) / T) calls
   fall back to a skipped server, where S is the sum of the participants' current
   weights at the start and T their total weight.
   */
  lemma {:induction false} FallbackBound(ss: seq<Server>, elig: seq<bool>, nows: seq<nat>)
    requires |ss| > 0 && FixedDuring(ss, elig, nows)
    requires Sum(Weights(ss, elig)) > 0
    ensures var s := Sum(Currents(ss, elig));
            var t := Sum(Weights(ss, elig));
            Fallbacks(ss, elig, nows) <= (if s < 0 then -s else 0) / t
  {
    hide RoundRobinStep;
    FallbackLedger(ss, elig, nows);
    var f := Fallbacks(ss, elig, nows);
    if f > 0 {
      QuotientBound(f, -Sum(Currents(ss, elig)), Sum(Weights(ss, elig)));
    }
  }

  lemma FallbackIsToFirst(ss: seq<Server>, elig: seq<bool>, nows: seq<nat>, k: nat)
    requires |ss| > 0 && FixedDuring(ss, elig, nows) && k < |nows|
    ensures var p := PickAt(ss, nows, k); p < |ss| && (!elig[p] ==> p == 0)
  {
    hide RoundRobinStep, Skipped, ProbeDue, Elapsed;
    ClosedForm(ss, elig, nows[..k]);
    assert Fixed(ss, elig, nows[k]);
    FixedPick(After(ss, nows[..k]), elig, nows[k]);
  }

  lemma QuotientBound(f: int, d: int, t: int)
    requires t > 0 && t * f <= d
    ensures f <= d / t
  {
    if f > d / t {
      var q := d / t;
      assert t * f == t * (q + 1) + t * (f - q - 1);
      Multiples(f - q - 1, t);
      assert false;
    }
  }

  // Every fallback moves the participants' sum up by T, and happens only while it is at most -T.
  lemma {:induction false} FallbackLedger(ss: seq<Server>, elig: seq<bool>, nows: seq<nat>)
    requires |ss| > 0 && FixedDuring(ss, elig, nows)
    requires Sum(Weights(ss, elig)) > 0
    ensures var t := Sum(Weights(ss, elig));
            var f := Fallbacks(ss, elig, nows);
            && Sum(Currents(After(ss, nows), elig)) == Sum(Currents(ss, elig)) + t * f
            && (f > 0 ==> Sum(Currents(ss, elig)) + t * f <= 0)
  {
    hide RoundRobinStep, Sum, Currents, Weights, Skipped, ProbeDue, Elapsed, Probe, Balance;
    if nows != [] {
      var k := |nows| - 1;
      var prev := After(ss, nows[..k]);
      FallbackLedger(ss, elig, nows[..k]);
      ClosedForm(ss, elig, nows[..k]);
      assert Fixed(ss, elig, nows[k]);
      FixedStep(prev, elig, nows[k]);
      FixedPick(prev, elig, nows[k]);
      var t := Sum(Weights(ss, elig));
      var f := Fallbacks(ss, elig, nows[..k]);
      assert t * (f + 1) == t * f + t;
    }
  }
}
