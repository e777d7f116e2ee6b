/**
 Runs of the whole scheduler: any interleaving of round robin calls, random
 calls, connect results and active checks, over a table of servers.
 */
module Health {
  import opened Upstream
  import opened Sums
  import RoundRobin

  datatype Event =
    | Get(now: nat)
    | RandomCall(now: nat)
    | ConnectOk(i: nat)
    | ConnectBad(i: nat, now: nat)
    | Check(i: nat, passed: bool)

  predicate ValidEvent(e: Event, n: nat) {
    match e
    case Get(_) => true
    case RandomCall(_) => true
    case ConnectOk(i) => i < n
    case ConnectBad(i, _) => i < n
    case Check(i, _) => i < n
  }

  // The effect of one event on the table; these are the contracts of class UpstreamTable.  A random
  // call that divides by zero (RandomCallDividesByZero) changes the table like any other; no event
  // follows it in the C code, here any may.
  function Step(ss: seq<Server>, e: Event): (r: seq<Server>)
    requires |ss| > 0 && ValidEvent(e, |ss|)
    ensures |r| == |ss|
  {
    match e
    case Get(now) => RoundRobinStep(ss, now).0
    case RandomCall(now) => Probes(ss, now)
    case ConnectOk(i) => ss[i := Connected(ss[i])]
    case ConnectBad(i, now) => ss[i := ConnectFailed(ss[i], now)]
    case Check(i, passed) => ss[i := if passed then CheckPassed(ss[i]) else CheckMissed(ss[i])]
  }

  function Run(ss: seq<Server>, es: seq<Event>): (r: seq<Server>)
    requires |ss| > 0 && forall e :: e in es ==> ValidEvent(e, |ss|)
    ensures |r| == |ss|
  {
    if es == [] then ss else Step(Run(ss, es[..|es|-1]), es[|es|-1])
  }

  predicate Healthy(s: Server) {
    && 0 <= s.effectiveWeight <= (if s.weight > 2 then s.weight else 2)
    && (s.isDown ==> s.effectiveWeight <= 1)
  }

  predicate SameSettings(a: Server, b: Server) {
    a.weight == b.weight && a.maxFails == b.maxFails && a.failTimeout == b.failTimeout &&
    a.isFallback == b.isFallback && a.checkFall == b.checkFall && a.checkRise == b.checkRise
  }

  lemma DropIsBounded(w: nat, m: nat)
    requires m > 0
    ensures 0 <= w / m <= w
  {
    if w / m > w {
      RoundRobin.AtLeastOne(w / m, m);
      assert false;
    }
  }

  lemma StepKeepsHealth(ss: seq<Server>, e: Event)
    requires |ss| > 0 && ValidEvent(e, |ss|)
    requires forall i :: 0 <= i < |ss| ==> Healthy(ss[i])
    ensures forall i :: 0 <= i < |ss| ==> Healthy(Step(ss, e)[i]) && SameSettings(Step(ss, e)[i], ss[i])
  {
    match e {
      case Get(now) =>
        RoundRobin.StepParts(ss, now);
      case RandomCall(now) =>
      case ConnectOk(i) =>
      case ConnectBad(i, now) =>
        if ss[i].maxFails != 0 {
          DropIsBounded(ss[i].weight, ss[i].maxFails);
        }
      case Check(i, passed) =>
    }
  }

  /** Over every run from a fresh table, the weights stay in range and a down server has weight at most 1. */
  lemma {:induction false} HealthInvariant(ss: seq<Server>, es: seq<Event>)
    requires |ss| > 0 && forall e :: e in es ==> ValidEvent(e, |ss|)
    requires forall i :: 0 <= i < |ss| ==> Healthy(ss[i])
    ensures forall i :: 0 <= i < |ss| ==> Healthy(Run(ss, es)[i]) && SameSettings(Run(ss, es)[i], ss[i])
  {
    if es != [] {
      HealthInvariant(ss, es[..|es|-1]);
      hide Step, Healthy;
      StepKeepsHealth(Run(ss, es[..|es|-1]), es[|es|-1]);
    }
  }

  /** Over every run the current weights of all servers keep their sum (0 for a fresh table). */
  lemma {:induction false} CurrentWeightsBalance(ss: seq<Server>, es: seq<Event>)
    requires |ss| > 0 && forall e :: e in es ==> ValidEvent(e, |ss|)
    ensures Sum(RoundRobin.Currents(Run(ss, es), RoundRobin.Everyone(|ss|)))
         == Sum(RoundRobin.Currents(ss, RoundRobin.Everyone(|ss|)))
  {
    if es != [] {
      var prev := Run(ss, es[..|es|-1]);
      CurrentWeightsBalance(ss, es[..|es|-1]);
      StepBalances(prev, es[|es|-1]);
    }
  }

  lemma StepBalances(ss: seq<Server>, e: Event)
    requires |ss| > 0 && ValidEvent(e, |ss|)
    ensures Sum(RoundRobin.Currents(Step(ss, e), RoundRobin.Everyone(|ss|)))
         == Sum(RoundRobin.Currents(ss, RoundRobin.Everyone(|ss|)))
  {
    var all := RoundRobin.Everyone(|ss|);
    if e.Get? {
      RoundRobin.CurrentSumKept(ss, e.now);
    } else {
      assert RoundRobin.Currents(Step(ss, e), all) == RoundRobin.Currents(ss, all);
    }
  }

  /**
   A run after which a call returns server 0 although it is skipped and another one takes part: that
   one has been picked at full weight, has failed and recovered, and still owes its pick.
   */
  lemma SkippedServerIsReturned()
    ensures var ss := Run([NewServer(1, 1, 10, true, 3, 2), NewServer(5, 1, 10, true, 3, 2)],
                          [Get(99), ConnectBad(1, 100), ConnectOk(1), ConnectBad(0, 100)]);
            && RoundRobinStep(ss, 101).1 == 0 && Skipped(ss[0], 101)
            && !Skipped(ss[1], 101) && ss[1].effectiveWeight == 1
  {
    var a, b := NewServer(1, 1, 10, true, 3, 2), NewServer(5, 1, 10, true, 3, 2);
    var a1, b1 := a.(currentWeight := 1), b.(currentWeight := -1);
    var b2 := ConnectFailed(b1, 100);
    var e1, e2 := [Get(99)], [Get(99), ConnectBad(1, 100)];
    var e3 := [Get(99), ConnectBad(1, 100), ConnectOk(1)];
    hide RoundRobinStep, ConnectFailed, Connected;
    FirstPick(a, b);
    assert [Get(99)][..0] == [];
    assert Run([a, b], e1) == [a1, b1];
    RunSnoc([a, b], e1, e2);
    assert Run([a, b], e2) == [a1, b2];
    RunSnoc([a, b], e2, e3);
    assert Run([a, b], e3) == [a1, Connected(b2)];
    RunSnoc([a, b], e3, [Get(99), ConnectBad(1, 100), ConnectOk(1), ConnectBad(0, 100)]);
    var ss := [ConnectFailed(a1, 100), Connected(b2)];
    assert [a1, Connected(b2)][0 := ConnectFailed(a1, 100)] == ss;
    StillOwes(a1, b1);
  }

  lemma StillOwes(a: Server, b: Server)
    requires a == NewServer(1, 1, 10, true, 3, 2).(currentWeight := 1)
    requires b == NewServer(5, 1, 10, true, 3, 2).(currentWeight := -1)
    ensures var ss := [ConnectFailed(a, 100), Connected(ConnectFailed(b, 100))];
            && RoundRobinStep(ss, 101).1 == 0 && Skipped(ss[0], 101)
            && !Skipped(ss[1], 101) && ss[1].effectiveWeight == 1
  {
    hide RoundRobinStep;
    RoundRobin.SkippedPickExactly([ConnectFailed(a, 100), Connected(ConnectFailed(b, 100))], 101);
  }

  lemma RunSnoc(ss: seq<Server>, es: seq<Event>, more: seq<Event>)
    requires |ss| > 0 && forall e :: e in more ==> ValidEvent(e, |ss|)
    requires more != [] && more[..|more|-1] == es
    ensures forall e :: e in es ==> ValidEvent(e, |ss|)
    ensures Run(ss, more) == Step(Run(ss, es), more[|more|-1])
  {
    forall e | e in es ensures ValidEvent(e, |ss|) {
      assert e in more[..|more|-1];
    }
  }

  lemma FirstPick(a: Server, b: Server)
    requires a == NewServer(1, 1, 10, true, 3, 2) && b == NewServer(5, 1, 10, true, 3, 2)
    ensures RoundRobinStep([a, b], 99) == ([a.(currentWeight := 1), b.(currentWeight := -1)], 1)
  {
    var ss := [a, b];
    var adv := Advances(ss, 99);
    assert adv == [a.(currentWeight := 1), b.(currentWeight := 5)];
    assert Total([a], 99) == 1 by {
      assert [a][..0] == [];
    }
    assert Total(ss, 99) == 6 by {
      assert ss[..1] == [a];
    }
    assert Candidate(adv[1], 99) && Candidate(adv[0], 99);
    assert Best(adv, 99) == 1;
    assert adv[1 := adv[1].(currentWeight := 5 - 6)] == [a.(currentWeight := 1), b.(currentWeight := -1)];
  }

  // ----- when connect failures take a server down -----

  // The failures of one server, one after the other.
  function FailRun(s: Server, times: seq<nat>): Server {
    if times == [] then s else ConnectFailed(FailRun(s, times[..|times|-1]), times[|times|-1])
  }

  ghost predicate Monotone(times: seq<nat>) {
    (forall i, j :: 0 <= i < j < |times| ==> times[i] <= times[j]) &&
    (forall i :: 0 <= i < |times| ==> times[i] < U64)
  }

  // The windows of a run of failures: one is opened by a failure and holds all later ones that come
  // at most timeout after it.  The first one was opened at time since, with count failures in it.
  // Opening is the failure that opened the window of the last one, -1 for the first window.
  function Opening(since: nat, times: seq<nat>, timeout: nat): (k: int)
    ensures -1 <= k < |times|
  {
    if times == [] then -1
    else
      var last := |times| - 1;
      var k := Opening(since, times[..last], timeout);
      if times[last] > OpenedAt(since, times, k) + timeout then last else k
  }

  function OpenedAt(since: nat, times: seq<nat>, k: int): nat
    requires -1 <= k < |times|
  {
    if k < 0 then since else times[k]
  }

  // How many failures the window of the last one holds.
  function InWindow(since: nat, count: nat, times: seq<nat>, timeout: nat): nat {
    var k := Opening(since, times, timeout);
    if k < 0 then count + |times| else |times| - k
  }

  // What Opening means: the window holds the last failure, and the one before it was over when it
  // was opened.
  lemma {:induction false} OpeningIsWindowStart(since: nat, times: seq<nat>, timeout: nat)
    requires Monotone(times) && (times != [] ==> since <= times[0])
    ensures var k := Opening(since, times, timeout);
            && (forall j :: 0 <= j < |times| && k <= j ==> times[j] <= OpenedAt(since, times, k) + timeout)
            && (k >= 0 ==> times[k] > OpenedAt(since, times[..k], Opening(since, times[..k], timeout)) + timeout)
  {
    if times != [] {
      var last := |times| - 1;
      OpeningIsWindowStart(since, times[..last], timeout);
      var k := Opening(since, times[..last], timeout);
      if k >= 0 {
        assert times[..last][..k] == times[..k];
      }
    }
  }

  // A failure seen without the weights; now is not before the last failure.
  lemma FailureEffect(s: Server, now: nat)
    requires s.lastFailTime <= now < U64 && s.fails + 1 < U64
    ensures var r := ConnectFailed(s, now);
            var expired := now > s.lastFailTime + s.failTimeout;
            var count := if expired then 1 else s.fails + 1;
            && r.fails == count
            && r.isDown == (s.isDown || count >= s.maxFails)
            && r.lastFailTime == (if expired || count >= s.maxFails then now else s.lastFailTime)
            && SameSettings(r, s)
  {
    ElapsedIsDifference(now, s.lastFailTime);
    ElapsedIsDifference(now, now);
    hide Elapsed;
  }

  /**
   With a clock that never goes back, connect failures bring an up server down at exactly the
   first failure whose window holds max(1, max_fails) of them: not earlier, not later.  The
   server may start inside a window, with failures in it or none.
   */
  lemma {:induction false} DownAtMaxFails(s: Server, times: seq<nat>)
    requires times != [] && Monotone(times) && s.fails + |times| < U64
    requires !s.isDown && s.lastFailTime <= times[0]
    requires forall n :: 0 < n < |times| ==> InWindow(s.lastFailTime, s.fails, times[..n], s.failTimeout) < s.maxFails
    ensures var r := FailRun(s, times);
            var count := InWindow(s.lastFailTime, s.fails, times, s.failTimeout);
            && (r.isDown <==> count >= s.maxFails)
            && (!r.isDown ==> r.lastFailTime == OpenedAt(s.lastFailTime, times, Opening(s.lastFailTime, times, s.failTimeout)))
            && r.fails == count
            && SameSettings(r, s)
  {
    hide ConnectFailed;
    var last := |times| - 1;
    var now := times[last];
    var init := times[..last];
    if last > 0 {
      forall n | 0 < n < |init| ensures InWindow(s.lastFailTime, s.fails, init[..n], s.failTimeout) < s.maxFails {
        assert init[..n] == times[..n];
      }
      DownAtMaxFails(s, init);
      OpenedBefore(s.lastFailTime, init, s.failTimeout, now);
      FailureEffect(FailRun(s, init), now);
    } else {
      assert init == [] && FailRun(s, init) == s;
      FailureEffect(s, now);
    }
  }

  lemma OpenedBefore(since: nat, times: seq<nat>, timeout: nat, now: nat)
    requires times != [] && Monotone(times) && since <= times[0]
    requires times[|times|-1] <= now
    ensures OpenedAt(since, times, Opening(since, times, timeout)) <= now
  {
  }

  lemma ElapsedIsDifference(now: nat, since: nat)
    requires since <= now < U64
    ensures Elapsed(now, since) == now - since
  {
  }

  // The times at which connecting to server i failed during a run.
  function FailTimes(es: seq<Event>, i: nat): seq<nat> {
    if es == [] then []
    else
      var e := es[|es|-1];
      FailTimes(es[..|es|-1], i) + (if e.ConnectBad? && e.i == i then [e.now] else [])
  }

  predicate SameHealth(a: Server, b: Server) {
    SameSettings(a, b) && a.isDown == b.isDown && a.fails == b.fails && a.lastFailTime == b.lastFailTime
  }

  /**
   In a whole run the failures of a server alone decide when it goes down: gets, random calls,
   connect successes and everything that happens to other servers make no difference, as long
   as it has been up so far and is not actively checked.
   */
  lemma {:induction false} FailuresDecide(ss: seq<Server>, es: seq<Event>, i: nat)
    requires |ss| > 0 && i < |ss| && forall e :: e in es ==> ValidEvent(e, |ss|)
    requires forall e :: e in es ==> !(e.Check? && e.i == i)
    requires forall n :: 0 <= n < |es| ==> !Run(ss, es[..n])[i].isDown
    ensures SameHealth(Run(ss, es)[i], FailRun(ss[i], FailTimes(es, i)))
  {
    if es != [] {
      var last := |es| - 1;
      forall n | 0 <= n < last ensures !Run(ss, es[..last][..n])[i].isDown {
        assert es[..last][..n] == es[..n];
      }
      FailuresDecide(ss, es[..last], i);
      var e := es[last];
      assert !Run(ss, es[..last])[i].isDown;
      StepHealth(Run(ss, es[..last]), e, i);
      if e.ConnectBad? && e.i == i {
        var times := FailTimes(es[..last], i);
        assert (times + [e.now])[..|times|] == times;
        SameFailure(Run(ss, es[..last])[i], FailRun(ss[i], times), e.now);
      } else {
        assert FailTimes(es, i) == FailTimes(es[..last], i);
      }
    }
  }

  lemma StepHealth(ss: seq<Server>, e: Event, i: nat)
    requires |ss| > 0 && i < |ss| && ValidEvent(e, |ss|)
    requires !(e.Check? && e.i == i) && !ss[i].isDown
    ensures if e.ConnectBad? && e.i == i then Step(ss, e)[i] == ConnectFailed(ss[i], e.now)
            else SameHealth(Step(ss, e)[i], ss[i])
  {
    if e.Get? {
      RoundRobin.StepParts(ss, e.now);
    }
  }

  lemma SameFailure(a: Server, b: Server, now: nat)
    requires SameHealth(a, b)
    ensures SameHealth(ConnectFailed(a, now), ConnectFailed(b, now))
  {
  }

  // A single failure of an up server, in any state and with any clock: the third test of the
  // C code never decides anything.
  lemma DownExactlyAtCount(s: Server, now: nat)
    requires !s.isDown
    ensures var count := if Elapsed(now, s.lastFailTime) > s.failTimeout then 1 else (s.fails + 1) % U64;
            ConnectFailed(s, now).isDown <==> count != 0 && count >= s.maxFails
  {
    assert Elapsed(now, now) == 0;
  }

  /**
   The windows do not slide: three failures within eight seconds, with max_fails 3 and
   fail_timeout 10, leave the server up when an earlier failure opened a window that splits them.
   */
  lemma WindowsDoNotSlide()
    ensures var s := NewServer(10, 3, 10, true, 3, 2);
            var times := [100, 108, 112, 116];
            && times[3] - times[1] <= s.failTimeout
            && !FailRun(s, times).isDown
  {
    var s := NewServer(10, 3, 10, true, 3, 2);
    var times := [100, 108, 112, 116];
    assert times[..3] == [100, 108, 112] && times[..3][..2] == [100, 108] && times[..2][..1] == [100];
    var a := FailRun(s, [100]);
    assert [100][..0] == [];
    assert a == ConnectFailed(s, 100) && !a.isDown && a.fails == 1 && a.lastFailTime == 100;
    var b := FailRun(s, [100, 108]);
    assert [100, 108][..1] == [100];
    assert b == ConnectFailed(a, 108) && !b.isDown && b.fails == 2 && b.lastFailTime == 100;
    var c := FailRun(s, [100, 108, 112]);
    assert [100, 108, 112][..2] == [100, 108];
    assert c == ConnectFailed(b, 112) && !c.isDown && c.fails == 1 && c.lastFailTime == 112;
    assert FailRun(s, times) == ConnectFailed(c, 116);
  }

  // ----- the random choice is proportional -----

  lemma {:induction false} WeightBeforeIsTotal(ss: seq<Server>, now: nat, n: nat)
    requires n <= |ss|
    requires forall i :: 0 <= i < |ss| ==> !(!Skipped(ss[i], now) && ProbeDue(ss[i], now))
    ensures WeightBefore(ss, now, n) == Total(ss[..n], now)
  {
    if n > 0 {
      WeightBeforeIsTotal(ss, now, n - 1);
      assert ss[..n][..n-1] == ss[..n-1];
    }
  }

  lemma {:induction false} WeightBeforeGrows(ss: seq<Server>, now: nat, i: nat, j: nat)
    requires i <= j <= |ss|
    requires forall k :: 0 <= k < |ss| ==> ss[k].effectiveWeight >= 0
    ensures WeightBefore(ss, now, i) <= WeightBefore(ss, now, j)
    decreases j
  {
    if i < j {
      WeightBeforeGrows(ss, now, i, j - 1);
    }
  }

  /**
   Every ticket below the total has exactly one owner, and server i owns exactly
   effective_weight(i) of them (none when it is skipped): the choice is proportional.
   */
  lemma TicketsAreProportional(ss: seq<Server>, now: nat, ticket: nat)
    requires forall i :: 0 <= i < |ss| ==> Healthy(ss[i])
    requires ticket < WeightBefore(ss, now, |ss|)
    ensures exists i :: 0 <= i < |ss| && OwnsTicket(ss, now, ticket, i)
    ensures forall i, j :: 0 <= i < |ss| && 0 <= j < |ss| && OwnsTicket(ss, now, ticket, i) && OwnsTicket(ss, now, ticket, j) ==> i == j
    ensures forall i :: 0 <= i < |ss| ==>
              WeightBefore(ss, now, i + 1) - WeightBefore(ss, now, i) == if Skipped(ss[i], now) then 0 else ss[i].effectiveWeight
  {
    var _ := FindOwner(ss, now, ticket, |ss|);
    forall i, j | 0 <= i < |ss| && 0 <= j < |ss| && OwnsTicket(ss, now, ticket, i) && OwnsTicket(ss, now, ticket, j)
      ensures i == j
    {
      if i < j {
        WeightBeforeGrows(ss, now, i + 1, j);
      } else if j < i {
        WeightBeforeGrows(ss, now, j + 1, i);
      }
    }
  }

  // When nobody has a ticket: for healthy servers the total is 0 exactly when each of them is
  // skipped, or has no weight and is not to be probed yet.
  lemma {:induction false} NobodyHasWeight(ss: seq<Server>, now: nat)
    requires forall i :: 0 <= i < |ss| ==> Healthy(ss[i])
    ensures Total(ss, now) >= 0
    ensures Total(ss, now) == 0 <==>
            forall i :: 0 <= i < |ss| ==> Skipped(ss[i], now) || (ss[i].effectiveWeight == 0 && !ProbeDue(ss[i], now))
  {
    if ss != [] {
      var last := |ss| - 1;
      NobodyHasWeight(ss[..last], now);
      assert forall i :: 0 <= i < last ==> ss[..last][i] == ss[i];
      hide Skipped, ProbeDue;
      var s := ss[last];
      assert Total(ss, now) == Total(ss[..last], now) + (if Skipped(s, now) then 0 else Probe(s, now).effectiveWeight);
    }
  }

  /**
   One failed connect is enough: with a single server, the next random call divides by zero.
   */
  lemma RandomCallDividesByZero()
    ensures Total(Run([NewServer(1, 1, 10, true, 3, 2)], [ConnectBad(0, 100)]), 101) == 0
  {
    var s := NewServer(1, 1, 10, true, 3, 2);
    assert [ConnectBad(0, 100)][..0] == [];
    assert Run([s], [ConnectBad(0, 100)]) == [ConnectFailed(s, 100)];
    NobodyHasWeight([ConnectFailed(s, 100)], 101);
  }

  lemma {:induction false} FindOwner(ss: seq<Server>, now: nat, ticket: nat, n: nat) returns (i: nat)
    requires n <= |ss| && ticket < WeightBefore(ss, now, n)
    ensures i < n && OwnsTicket(ss, now, ticket, i)
  {
    if ticket < WeightBefore(ss, now, n - 1) {
      i := FindOwner(ss, now, ticket, n - 1);
    } else {
      i := n - 1;
    }
  }
}
