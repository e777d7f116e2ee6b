/**
 What the scheduler does to its records, in the fields of the records and plain differences of
 times: who takes part in a call, how the weight of a server goes down and comes back, and how a
 server returns after its pause.
 */
module Accounting {
  import opened Upstream
  import opened Health
  import opened Sums
  import RoundRobin

  // ----- who takes part -----

  // A server is passed over while it is down, is a fallback, and its pause is not over.
  predicate TakesPart(s: Server, now: nat) {
    !s.isDown || !s.isFallback || now - s.lastFailTime >= s.failTimeout
  }

  // The weight it takes part with: a down server that has none is tried with 1 after its pause.
  function TrialWeight(s: Server, now: nat): int {
    if s.isDown && s.effectiveWeight == 0 && now - s.lastFailTime > s.failTimeout then 1 else s.effectiveWeight
  }

  function Shares(ss: seq<Server>, now: nat): (r: seq<int>) {
    seq(|ss|, i requires 0 <= i < |ss| => if TakesPart(ss[i], now) then TrialWeight(ss[i], now) else 0)
  }

  ghost predicate ClockIsAhead(ss: seq<Server>, now: nat) {
    now < U64 && forall i :: 0 <= i < |ss| ==> ss[i].lastFailTime <= now
  }

  lemma SkippedInFields(s: Server, now: nat)
    requires s.lastFailTime <= now < U64
    ensures Skipped(s, now) <==> !TakesPart(s, now)
    ensures Probe(s, now) == if TakesPart(s, now) then s.(effectiveWeight := TrialWeight(s, now)) else s
    ensures RoundRobin.Gain(s, now) == if TakesPart(s, now) then TrialWeight(s, now) else 0
  {
    ElapsedIsDifference(now, s.lastFailTime);
    hide Elapsed;
  }

  /**
   One round robin call: those that take part gain their weight, the others are left alone, and the
   pick pays for all.  The pick is the first participant that comes out highest, above 0, and server
   0 if nobody does.
   */
  lemma GetInFields(ss: seq<Server>, now: nat)
    requires |ss| > 0 && ClockIsAhead(ss, now)
    ensures var (r, best) := RoundRobinStep(ss, now);
            && |r| == |ss| && best < |ss|
            && (forall i :: 0 <= i < |ss| ==>
                 var s, w := ss[i], TrialWeight(ss[i], now);
                 var paid := if i == best then Sum(Shares(ss, now)) else 0;
                 r[i] == if TakesPart(s, now) then s.(effectiveWeight := w, currentWeight := s.currentWeight + w - paid)
                         else s.(currentWeight := s.currentWeight - paid))
            && (forall i :: 0 <= i < |ss| && TakesPart(ss[i], now) && ss[i].currentWeight + TrialWeight(ss[i], now) > 0 ==>
                 && TakesPart(ss[best], now)
                 && ss[i].currentWeight + TrialWeight(ss[i], now) <= ss[best].currentWeight + TrialWeight(ss[best], now)
                 && (i < best ==> ss[i].currentWeight + TrialWeight(ss[i], now) < ss[best].currentWeight + TrialWeight(ss[best], now)))
            && (best != 0 ==> TakesPart(ss[best], now) && ss[best].currentWeight + TrialWeight(ss[best], now) > 0)
  {
    RoundRobin.StepParts(ss, now);
    var adv := Advances(ss, now);
    forall i | 0 <= i < |ss|
      ensures Skipped(ss[i], now) <==> !TakesPart(ss[i], now)
      ensures Probe(ss[i], now) == if TakesPart(ss[i], now) then ss[i].(effectiveWeight := TrialWeight(ss[i], now)) else ss[i]
      ensures RoundRobin.Gain(ss[i], now) == Shares(ss, now)[i]
      ensures Candidate(adv[i], now) <==> TakesPart(ss[i], now) && ss[i].currentWeight + TrialWeight(ss[i], now) > 0
      ensures TakesPart(ss[i], now) ==> adv[i].currentWeight == ss[i].currentWeight + TrialWeight(ss[i], now)
    {
      SkippedInFields(ss[i], now);
      SkippedInFields(adv[i], now);
    }
    assert RoundRobin.Gains(ss, now) == Shares(ss, now);
    hide TakesPart, TrialWeight, Skipped, Probe, RoundRobin.Gain, Advanced, Candidate, Shares, Sum, RoundRobinStep;
  }

  /**
   The random choice: the trial weights are given to those that take part, and they are the total
   that the ticket is drawn from.
   */
  lemma RandomInFields(ss: seq<Server>, now: nat)
    requires |ss| > 0 && ClockIsAhead(ss, now)
    ensures forall i :: 0 <= i < |ss| ==>
              Step(ss, RandomCall(now))[i]
              == if TakesPart(ss[i], now) then ss[i].(effectiveWeight := TrialWeight(ss[i], now)) else ss[i]
    ensures Total(ss, now) == Sum(Shares(ss, now))
  {
    forall i | 0 <= i < |ss|
      ensures Probe(ss[i], now) == if TakesPart(ss[i], now) then ss[i].(effectiveWeight := TrialWeight(ss[i], now)) else ss[i]
      ensures RoundRobin.Gain(ss[i], now) == Shares(ss, now)[i]
    {
      SkippedInFields(ss[i], now);
    }
    RoundRobin.TotalIsSumOfGains(ss, now);
    assert RoundRobin.Gains(ss, now) == Shares(ss, now);
  }

  // The weights that the tickets are counted against.
  function Tickets(ss: seq<Server>, now: nat): (r: seq<int>) {
    seq(|ss|, i requires 0 <= i < |ss| => if TakesPart(ss[i], now) then ss[i].effectiveWeight else 0)
  }

  // A server owns the tickets from the weights before it on, as many as its weight says.
  lemma OwnersInFields(ss: seq<Server>, now: nat, ticket: int, i: nat)
    requires i < |ss| && ClockIsAhead(ss, now)
    ensures OwnsTicket(ss, now, ticket, i) <==>
            && TakesPart(ss[i], now)
            && Sum(Tickets(ss, now)[..i]) <= ticket < Sum(Tickets(ss, now)[..i]) + ss[i].effectiveWeight
  {
    TicketsBefore(ss, now, i);
    SkippedInFields(ss[i], now);
  }

  lemma {:induction false} TicketsBefore(ss: seq<Server>, now: nat, i: nat)
    requires i <= |ss| && ClockIsAhead(ss, now)
    ensures WeightBefore(ss, now, i) == Sum(Tickets(ss, now)[..i])
  {
    if i > 0 {
      TicketsBefore(ss, now, i - 1);
      SkippedInFields(ss[i-1], now);
      assert Tickets(ss, now)[..i][..i-1] == Tickets(ss, now)[..i-1];
    }
  }

  // ----- single events -----

  function Max0(n: int): (m: nat)
    ensures m == n || (m == 0 && n < 0)
  {
    if n < 0 then 0 else n
  }

  // A weight after k failures.
  function Lowered(w: nat, k: nat, penalty: nat): nat { Max0(w - k * penalty) }

  // What one failure costs.
  function Penalty(s: Server): nat {
    if s.maxFails == 0 then 0 else s.weight / s.maxFails
  }

  // A failed connect.
  lemma FailureInFields(ss: seq<Server>, i: nat, now: nat)
    requires i < |ss| && ss[i].lastFailTime <= now < U64 && ss[i].fails + 1 < U64
    ensures var s := ss[i];
            var expired := now - s.lastFailTime > s.failTimeout;
            var count := if expired then 1 else s.fails + 1;
            var full := count >= s.maxFails;
            Step(ss, ConnectBad(i, now)) == ss[i := s.(
              effectiveWeight := if full then 0 else Max0(s.effectiveWeight - s.weight / s.maxFails),
              fails := count,
              isDown := s.isDown || full,
              lastFailTime := if expired || full then now else s.lastFailTime)]
  {
    ElapsedIsDifference(now, ss[i].lastFailTime);
    ElapsedIsDifference(now, now);
    hide Elapsed;
  }

  // A successful connect: a down server is up again with a clean count, and a weight that was
  // lowered recovers by 1.
  lemma SuccessInFields(ss: seq<Server>, i: nat)
    requires i < |ss|
    ensures var s := ss[i];
            Step(ss, ConnectOk(i)) == ss[i := s.(
              isDown := false,
              fails := if s.isDown then 0 else s.fails,
              effectiveWeight := s.effectiveWeight + (if s.effectiveWeight < s.weight then 1 else 0),
              connections := s.connections + 1)]
  {
  }

  // A passed check brings a down server up with one more unit of weight and a clean count, if it is
  // the rise-th; a failed one takes an up server down with no weight and one failure, if it is the
  // fall-th.
  lemma CheckInFields(ss: seq<Server>, i: nat, passed: bool)
    requires i < |ss|
    ensures var s := ss[i];
            Step(ss, Check(i, passed)) == ss[i :=
              if passed && s.isDown && s.checkSuccesses + 1 >= s.checkRise then
                s.(isDown := false, effectiveWeight := s.effectiveWeight + 1, fails := 0, checkFails := 0, checkSuccesses := 0)
              else if !passed && !s.isDown && s.checkFails + 1 >= s.checkFall then
                s.(isDown := true, effectiveWeight := 0, fails := 1, checkFails := 0, checkSuccesses := 0)
              else if passed then s.(checkSuccesses := s.checkSuccesses + 1)
              else s.(checkFails := s.checkFails + 1)]
  {
  }

  // ----- weights over runs -----

  // The event is a connect to server i or a check of it.
  predicate Concerns(e: Event, i: nat) {
    (e.ConnectOk? || e.ConnectBad? || e.Check?) && e.i == i
  }

  // Nothing else changes more of an up server than its current weight.
  lemma OthersLeaveUp(ss: seq<Server>, e: Event, i: nat)
    requires |ss| > 0 && i < |ss| && ValidEvent(e, |ss|) && !Concerns(e, i) && !ss[i].isDown
    ensures Step(ss, e)[i] == ss[i].(currentWeight := Step(ss, e)[i].currentWeight)
  {
    if e.Get? {
      RoundRobin.StepParts(ss, e.now);
    }
  }

  lemma FailureOfUp(ss: seq<Server>, i: nat, now: nat)
    requires i < |ss| && !ss[i].isDown
    ensures var s, r := ss[i], Step(ss, ConnectBad(i, now))[i];
            && r.effectiveWeight == (if r.isDown then 0 else Max0(s.effectiveWeight - Penalty(s)))
            && (r.isDown ==> r.lastFailTime == now)
            && SameSettings(r, s)
  {
  }

  /**
   In a run in which server i is up all the time before and its connects only fail, k failures
   leave it with its weight less k times weight / max_fails, but no less than 0, or with nothing at
   all if the last of them takes it down.
   */
  lemma {:induction false} WeightAfterFailures(ss: seq<Server>, es: seq<Event>, i: nat)
    requires |ss| > 0 && i < |ss| && forall e :: e in es ==> ValidEvent(e, |ss|)
    requires forall e :: e in es && Concerns(e, i) ==> e.ConnectBad?
    requires ss[i].effectiveWeight >= 0 && !ss[i].isDown
    requires forall n :: 0 <= n < |es| ==> !Run(ss, es[..n])[i].isDown
    ensures var r := Run(ss, es)[i];
            && r.effectiveWeight == (if r.isDown then 0 else Lowered(ss[i].effectiveWeight, |FailTimes(es, i)|, Penalty(ss[i])))
            && SameSettings(r, ss[i])
  {
    hide Step, FailTimes, Penalty, Concerns, Max0, Lowered;
    if es != [] {
      var last := |es| - 1;
      var init, e := es[..last], es[last];
      forall n | 0 <= n < last ensures !Run(ss, init[..n])[i].isDown {
        assert init[..n] == es[..n];
      }
      WeightAfterFailures(ss, init, i);
      assert !Run(ss, init)[i].isDown && es[..last] == init;
      var before := Run(ss, init)[i];
      assert Run(ss, es) == Step(Run(ss, init), e);
      FailureOrOther(Run(ss, init), e, i);
      SamePenalty(before, ss[i]);
      CountFailures(es, i);
      LoweredAgain(ss[i].effectiveWeight, |FailTimes(init, i)|, Penalty(ss[i]));
    } else {
      NoFailures(i);
      LoweredAgain(ss[i].effectiveWeight, 0, Penalty(ss[i]));
    }
  }

  lemma NoFailures(i: nat)
    ensures FailTimes([], i) == []
  {
  }

  lemma FailureOrOther(ss: seq<Server>, e: Event, i: nat)
    requires |ss| > 0 && i < |ss| && ValidEvent(e, |ss|) && !ss[i].isDown && (Concerns(e, i) ==> e.ConnectBad?)
    ensures var s, r := ss[i], Step(ss, e)[i];
            && r.effectiveWeight == (if !Concerns(e, i) then s.effectiveWeight
                                     else if r.isDown then 0 else Max0(s.effectiveWeight - Penalty(s)))
            && (!Concerns(e, i) ==> !r.isDown)
            && SameSettings(r, s)
  {
    if Concerns(e, i) {
      FailureOfUp(ss, i, e.now);
    } else {
      OthersLeaveUp(ss, e, i);
    }
  }

  lemma SamePenalty(a: Server, b: Server)
    requires SameSettings(a, b)
    ensures Penalty(a) == Penalty(b)
  {
  }

  lemma LoweredAgain(w: nat, k: nat, penalty: nat)
    ensures Lowered(w, 0, penalty) == w
    ensures Max0(Lowered(w, k, penalty) - penalty) == Lowered(w, k + 1, penalty)
  {
    assert (k + 1) * penalty == k * penalty + penalty;
  }

  lemma CountFailures(es: seq<Event>, i: nat)
    requires es != [] && (Concerns(es[|es|-1], i) ==> es[|es|-1].ConnectBad?)
    ensures |FailTimes(es, i)| == |FailTimes(es[..|es|-1], i)| + (if Concerns(es[|es|-1], i) then 1 else 0)
  {
  }

  // How many connects to server i succeed in a run.
  function Successes(es: seq<Event>, i: nat): nat {
    if es == [] then 0 else Successes(es[..|es|-1], i) + (if es[|es|-1] == ConnectOk(i) then 1 else 0)
  }

  /**
   In a run in which its connects only succeed, an up server has after m of them recovered m units
   of weight, but no more than its configured weight.
   */
  lemma {:induction false} WeightAfterSuccesses(ss: seq<Server>, es: seq<Event>, i: nat)
    requires |ss| > 0 && i < |ss| && forall e :: e in es ==> ValidEvent(e, |ss|)
    requires forall e :: e in es && Concerns(e, i) ==> e.ConnectOk?
    requires !ss[i].isDown && ss[i].effectiveWeight <= ss[i].weight
    ensures var r, m := Run(ss, es)[i], Successes(es, i);
            && r.effectiveWeight == (if ss[i].effectiveWeight + m <= ss[i].weight then ss[i].effectiveWeight + m else ss[i].weight)
            && !r.isDown && r.fails == ss[i].fails && r.connections == ss[i].connections + m && SameSettings(r, ss[i])
  {
    if es != [] {
      var last := |es| - 1;
      var init, e := es[..last], es[last];
      WeightAfterSuccesses(ss, init, i);
      hide Step;
      if Concerns(e, i) {
        SuccessInFields(Run(ss, init), i);
      } else {
        OthersLeaveUp(Run(ss, init), e, i);
      }
    }
  }

  // ----- the way back -----

  // A call after time t.
  predicate IsCallAfter(e: Event, t: nat) {
    (e.Get? || e.RandomCall?) && e.now > t
  }

  ghost predicate HasCallAfter(es: seq<Event>, t: nat) {
    exists e :: e in es && IsCallAfter(e, t)
  }

  lemma CallsOf(es: seq<Event>, t: nat)
    ensures HasCallAfter(es, t) <==> es != [] && (HasCallAfter(es[..|es|-1], t) || IsCallAfter(es[|es|-1], t))
  {
    hide IsCallAfter;
    if e :| e in es && IsCallAfter(e, t) {
      assert e in es[..|es|-1] || e == es[|es|-1];
    }
  }

  lemma CallOnDown(ss: seq<Server>, e: Event, i: nat)
    requires |ss| > 0 && i < |ss| && ValidEvent(e, |ss|) && !Concerns(e, i)
    requires ss[i].isDown && ((e.Get? || e.RandomCall?) ==> ss[i].lastFailTime <= e.now < U64)
    ensures var s, r := ss[i], Step(ss, e)[i];
            && r == s.(currentWeight := r.currentWeight, effectiveWeight := r.effectiveWeight)
            && r.effectiveWeight == (if s.effectiveWeight == 0 && IsCallAfter(e, s.lastFailTime + s.failTimeout) then 1
                                     else s.effectiveWeight)
  {
    if e.Get? {
      RoundRobin.StepParts(ss, e.now);
      SkippedInFields(ss[i], e.now);
    } else if e.RandomCall? {
      SkippedInFields(ss[i], e.now);
    }
  }

  // A down server without weight stays as it is until the first call after its pause, and has weight
  // 1 from then on, as long as nobody connects to it or checks it.
  lemma {:induction false} DownOverRun(ss: seq<Server>, es: seq<Event>, i: nat)
    requires |ss| > 0 && i < |ss| && forall e :: e in es ==> ValidEvent(e, |ss|) && !Concerns(e, i)
    requires ss[i].isDown && ss[i].effectiveWeight == 0
    requires forall e :: e in es && (e.Get? || e.RandomCall?) ==> ss[i].lastFailTime <= e.now < U64
    ensures var s, r := ss[i], Run(ss, es)[i];
            && r == s.(currentWeight := r.currentWeight, effectiveWeight := r.effectiveWeight)
            && r.effectiveWeight == (if HasCallAfter(es, s.lastFailTime + s.failTimeout) then 1 else 0)
  {
    if es != [] {
      var last := |es| - 1;
      var init, e := es[..last], es[last];
      DownOverRun(ss, init, i);
      hide Step, IsCallAfter, Concerns;
      assert Run(ss, es) == Step(Run(ss, init), e);
      CallOnDown(Run(ss, init), e, i);
      CallsOf(es, ss[i].lastFailTime + ss[i].failTimeout);
    }
  }

  /**
   A failed connect at time t takes server i down.  Whatever happens to the others: a call at a later
   time now leaves a fallback out as long as its pause of fail_timeout is not over, and once the pause
   is over every call lets the server gain 1.
   */
  lemma ReturnsAfterPause(ss: seq<Server>, i: nat, t: nat, es: seq<Event>, now: nat)
    requires |ss| > 0 && i < |ss| && !ss[i].isDown && Step(ss, ConnectBad(i, t))[i].isDown
    requires forall e :: e in es ==> ValidEvent(e, |ss|) && !Concerns(e, i)
    requires forall e :: e in es && (e.Get? || e.RandomCall?) ==> t <= e.now < U64
    requires t <= now < U64
    ensures var before := Run(Step(ss, ConnectBad(i, t)), es);
            var (after, best) := RoundRobinStep(before, now);
            && before[i].isDown && before[i].lastFailTime == t
            && (ss[i].isFallback && now - t < ss[i].failTimeout && i != best ==> after[i] == before[i])
            && (now - t > ss[i].failTimeout ==> after[i].isDown && after[i].effectiveWeight == 1)
            && (now - t > ss[i].failTimeout && i != best ==> after[i].currentWeight == before[i].currentWeight + 1)
            && (now - t > ss[i].failTimeout && i == best ==>
                 after[i].currentWeight == before[i].currentWeight + 1 - Total(before, now))
  {
    FailureOfUp(ss, i, t);
    var down := Step(ss, ConnectBad(i, t));
    DownOverRun(down, es, i);
    var before := Run(down, es);
    RoundRobin.StepParts(before, now);
    RoundRobin.TotalIsSumOfGains(before, now);
    SkippedInFields(before[i], now);
    hide Step, Run, RoundRobinStep, RoundRobin.Gains, Sum, Total, Skipped, Probe, RoundRobin.Gain;
  }
}
