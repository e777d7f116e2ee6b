/**
 The upstream scheduler: smooth weighted round robin, the weighted random
 choice and the health state of each server (src/uct_upstream.c, src/uct_check.c).

 The server table is an array of records that every operation updates in place.
 Each operation is one atomic step.  Specification functions on sequences of
 records say what a step does; the theorems about runs of steps are in
 module RoundRobin and module Health.
 */
module Upstream {

  // The width of time_t and uct_uint_t, in which elapsed time is computed.
  const U64: nat := 0x1_0000_0000_0000_0000

  datatype Server = Server(
    weight: nat,
    currentWeight: int,
    effectiveWeight: int,
    connections: nat,
    fails: nat,
    maxFails: nat,
    failTimeout: nat,
    lastFailTime: nat,
    isDown: bool,
    isFallback: bool,
    checkFall: nat,
    checkRise: nat,
    checkFails: nat,
    checkSuccesses: nat)

  // A server as the configuration loader leaves it.
  function NewServer(weight: nat, maxFails: nat, failTimeout: nat, isFallback: bool, checkFall: nat, checkRise: nat): Server {
    Server(weight, 0, weight, 0, 0, maxFails, failTimeout, 0, false, isFallback, checkFall, checkRise, 0, 0)
  }

  // The unsigned difference the C code computes: it wraps when the clock is behind.
  function Elapsed(now: nat, since: nat): nat {
    (now - since) % U64
  }

  predicate Skipped(s: Server, now: nat) {
    s.isDown && s.isFallback && Elapsed(now, s.lastFailTime) < s.failTimeout
  }

  // A down server whose pause is over is given weight 1 so that it is tried again.
  predicate ProbeDue(s: Server, now: nat) {
    Elapsed(now, s.lastFailTime) > s.failTimeout && s.isDown && s.effectiveWeight == 0
  }

  function Probe(s: Server, now: nat): Server {
    if !Skipped(s, now) && ProbeDue(s, now) then s.(effectiveWeight := 1) else s
  }

  function Advanced(s: Server, now: nat): Server {
    if Skipped(s, now) then s
    else var p := Probe(s, now); p.(currentWeight := p.currentWeight + p.effectiveWeight)
  }

  function Probes(ss: seq<Server>, now: nat): seq<Server> {
    seq(|ss|, i requires 0 <= i < |ss| => Probe(ss[i], now))
  }

  function Advances(ss: seq<Server>, now: nat): seq<Server> {
    seq(|ss|, i requires 0 <= i < |ss| => Advanced(ss[i], now))
  }

  // The weight of the servers that take part at time now.
  function Total(ss: seq<Server>, now: nat): int {
    if ss == [] then 0
    else Total(ss[..|ss|-1], now) +
         (if Skipped(ss[|ss|-1], now) then 0 else Probe(ss[|ss|-1], now).effectiveWeight)
  }

  predicate Candidate(s: Server, now: nat) {
    !Skipped(s, now) && s.currentWeight > 0
  }

  // The first server with the largest positive current weight, or server 0 when there is none.
  ghost predicate IsBest(ss: seq<Server>, now: nat, best: nat) {
    if exists i :: 0 <= i < |ss| && Candidate(ss[i], now) then
      && best < |ss|
      && Candidate(ss[best], now)
      && (forall i :: 0 <= i < |ss| && Candidate(ss[i], now) ==> ss[i].currentWeight <= ss[best].currentWeight)
      && (forall i :: 0 <= i < best && Candidate(ss[i], now) ==> ss[i].currentWeight < ss[best].currentWeight)
    else
      best == 0
  }

  function Best(ss: seq<Server>, now: nat): (best: nat)
    ensures IsBest(ss, now, best)
  {
    if ss == [] then 0
    else
      var last := |ss| - 1;
      var b := Best(ss[..last], now);
      assert forall i :: 0 <= i < last ==> ss[..last][i] == ss[i];
      if Candidate(ss[last], now) &&
         (b < last && Candidate(ss[b], now) ==> ss[last].currentWeight > ss[b].currentWeight)
      then last else b
  }

  lemma BestIsUnique(ss: seq<Server>, now: nat, a: nat, b: nat)
    requires IsBest(ss, now, a) && IsBest(ss, now, b)
    ensures a == b
  {
  }

  // What one call of uct_upstream_round_robin_get does to the table.
  function RoundRobinStep(ss: seq<Server>, now: nat): (r: (seq<Server>, nat))
    requires |ss| > 0
  {
    var adv := Advances(ss, now);
    var best := Best(adv, now);
    (adv[best := adv[best].(currentWeight := adv[best].currentWeight - Total(ss, now))], best)
  }

  // A failed connect: lower the weight, count the failure in its window, maybe take the server down.
  function ConnectFailed(s: Server, now: nat): Server {
    var w := if s.maxFails != 0 then s.effectiveWeight - s.weight / s.maxFails else s.effectiveWeight;
    var a := s.(effectiveWeight := if w < 0 then 0 else w);
    var b := if Elapsed(now, a.lastFailTime) > a.failTimeout
             then a.(lastFailTime := now, fails := 1)
             else a.(fails := (a.fails + 1) % U64);
    if b.fails != 0 && b.fails >= b.maxFails && Elapsed(now, b.lastFailTime) <= b.failTimeout
    then b.(isDown := true, effectiveWeight := 0, lastFailTime := now)
    else b
  }

  function Connected(s: Server): Server {
    var a := if s.isDown then s.(isDown := false, fails := 0) else s;
    var b := if a.effectiveWeight < a.weight then a.(effectiveWeight := a.effectiveWeight + 1) else a;
    b.(connections := b.connections + 1)
  }

  // A successful active check.
  function CheckPassed(s: Server): Server {
    var a := s.(checkSuccesses := s.checkSuccesses + 1);
    if a.isDown && a.checkSuccesses >= a.checkRise
    then a.(effectiveWeight := a.effectiveWeight + 1, isDown := false, fails := 0, checkSuccesses := 0, checkFails := 0)
    else a
  }

  // A failed active check.
  function CheckMissed(s: Server): Server {
    var a := s.(checkFails := s.checkFails + 1);
    if !a.isDown && a.checkFails >= a.checkFall
    then a.(effectiveWeight := 0, isDown := true, fails := 1, checkSuccesses := 0, checkFails := 0)
    else a
  }

  // The weights of the servers before i that are not skipped.
  function WeightBefore(ss: seq<Server>, now: nat, i: nat): int
    requires i <= |ss|
  {
    if i == 0 then 0
    else WeightBefore(ss, now, i - 1) + (if Skipped(ss[i-1], now) then 0 else ss[i-1].effectiveWeight)
  }

  // Server i owns the numbers from the weight before it up to, not including, the weight after it.
  ghost predicate OwnsTicket(ss: seq<Server>, now: nat, ticket: int, i: nat)
    requires i < |ss|
  {
    && !Skipped(ss[i], now)
    && WeightBefore(ss, now, i) <= ticket < WeightBefore(ss, now, i + 1)
  }

  class UpstreamTable {
    const srvs: array<Server>

    constructor (srvs: array<Server>)
      ensures this.srvs == srvs
    {
      this.srvs := srvs;
    }

    // The first pass of uct_upstream_round_robin_get.
    method AddWeights(now: nat) returns (total: int)
      modifies srvs
      ensures srvs[..] == Advances(old(srvs[..]), now)
      ensures total == Total(old(srvs[..]), now)
    {
      ghost var before := srvs[..];
      var n := srvs.Length;
      total := 0;
      var i := 0;
      while i < n
        invariant 0 <= i <= n
        invariant forall j :: 0 <= j < i ==> srvs[j] == Advanced(before[j], now)
        invariant forall j :: i <= j < n ==> srvs[j] == before[j]
        invariant total == Total(before[..i], now)
      {
        assert before[..i+1][..i] == before[..i];
        if srvs[i].isDown && srvs[i].isFallback && Elapsed(now, srvs[i].lastFailTime) < srvs[i].failTimeout {
          i := i + 1;
          continue;
        }
        if Elapsed(now, srvs[i].lastFailTime) > srvs[i].failTimeout && srvs[i].isDown && srvs[i].effectiveWeight == 0 {
          srvs[i] := srvs[i].(effectiveWeight := srvs[i].effectiveWeight + 1);
        }
        total := total + srvs[i].effectiveWeight;
        srvs[i] := srvs[i].(currentWeight := srvs[i].currentWeight + srvs[i].effectiveWeight);
        i := i + 1;
      }
      assert before[..n] == before;
    }

    // The second pass: the first server with the largest positive current weight.
    method SelectBest(now: nat) returns (best: nat)
      ensures IsBest(srvs[..], now, best)
    {
      best := 0;
      var max := 0;
      var i := 0;
      while i < srvs.Length
        invariant 0 <= i <= srvs.Length
        invariant 0 <= max && (max == 0 ==> best == 0)
        invariant max > 0 ==> best < i && Candidate(srvs[best], now) && srvs[best].currentWeight == max
        invariant forall j :: 0 <= j < i && Candidate(srvs[j], now) ==> srvs[j].currentWeight <= max
        invariant forall j :: 0 <= j < best && Candidate(srvs[j], now) ==> srvs[j].currentWeight < max
      {
        if srvs[i].isDown && srvs[i].isFallback && Elapsed(now, srvs[i].lastFailTime) < srvs[i].failTimeout {
          i := i + 1;
          continue;
        }
        if srvs[i].currentWeight > max {
          max := srvs[i].currentWeight;
          best := i;
        }
        i := i + 1;
      }
    }

    method RoundRobinGet(now: nat) returns (best: nat)
      requires srvs.Length > 0
      modifies srvs
      ensures (srvs[..], best) == RoundRobinStep(old(srvs[..]), now)
    {
      ghost var before := srvs[..];
      var total := AddWeights(now);
      best := SelectBest(now);
      BestIsUnique(srvs[..], now, best, Best(srvs[..], now));
      srvs[best] := srvs[best].(currentWeight := srvs[best].currentWeight - total);
    }

    // The accounting part of uct_upstream_connect, after the attempt failed.
    method ConnectFailure(i: nat, now: nat)
      requires i < srvs.Length
      modifies srvs
      ensures srvs[..] == old(srvs[..])[i := ConnectFailed(old(srvs[i]), now)]
    {
      if srvs[i].maxFails != 0 {
        srvs[i] := srvs[i].(effectiveWeight := srvs[i].effectiveWeight - srvs[i].weight / srvs[i].maxFails);
      }
      if srvs[i].effectiveWeight < 0 {
        srvs[i] := srvs[i].(effectiveWeight := 0);
      }
      if Elapsed(now, srvs[i].lastFailTime) > srvs[i].failTimeout {
        srvs[i] := srvs[i].(lastFailTime := now);
        srvs[i] := srvs[i].(fails := 1);
      } else {
        srvs[i] := srvs[i].(fails := (srvs[i].fails + 1) % U64);
      }
      if srvs[i].fails != 0 && srvs[i].fails >= srvs[i].maxFails && Elapsed(now, srvs[i].lastFailTime) <= srvs[i].failTimeout {
        srvs[i] := srvs[i].(isDown := true);
        srvs[i] := srvs[i].(effectiveWeight := 0);
        srvs[i] := srvs[i].(lastFailTime := now);
      }
    }

    // The accounting part of uct_upstream_connect, after the attempt succeeded.
    method ConnectSuccess(i: nat)
      requires i < srvs.Length
      modifies srvs
      ensures srvs[..] == old(srvs[..])[i := Connected(old(srvs[i]))]
    {
      if srvs[i].isDown {
        srvs[i] := srvs[i].(isDown := false);
        srvs[i] := srvs[i].(fails := 0);
      }
      if srvs[i].effectiveWeight < srvs[i].weight {
        srvs[i] := srvs[i].(effectiveWeight := srvs[i].effectiveWeight + 1);
      }
      srvs[i] := srvs[i].(connections := srvs[i].connections + 1);
    }

    // One completed active check of server i (uct_check_tcp_cycle, both event kinds).
    method ActiveCheck(i: nat, passed: bool)
      requires i < srvs.Length
      modifies srvs
      ensures srvs[..] == old(srvs[..])[i := if passed then CheckPassed(old(srvs[i])) else CheckMissed(old(srvs[i]))]
    {
      if passed {
        srvs[i] := srvs[i].(checkSuccesses := srvs[i].checkSuccesses + 1);
        if srvs[i].isDown && srvs[i].checkSuccesses >= srvs[i].checkRise {
          srvs[i] := srvs[i].(effectiveWeight := srvs[i].effectiveWeight + 1);
          srvs[i] := srvs[i].(isDown := false);
          srvs[i] := srvs[i].(fails := 0);
          srvs[i] := srvs[i].(checkSuccesses := 0);
          srvs[i] := srvs[i].(checkFails := 0);
        }
      } else {
        srvs[i] := srvs[i].(checkFails := srvs[i].checkFails + 1);
        if !srvs[i].isDown && srvs[i].checkFails >= srvs[i].checkFall {
          srvs[i] := srvs[i].(effectiveWeight := 0);
          srvs[i] := srvs[i].(isDown := true);
          srvs[i] := srvs[i].(fails := 1);
          srvs[i] := srvs[i].(checkFails := 0);
          srvs[i] := srvs[i].(checkSuccesses := 0);
        }
      }
    }

    // The weighted random choice.  The clock is read twice; rand is the value of rand().  Where
    // the C code divides by a total of zero, and so never returns, ok is false.
    method RandomGet(now: nat, later: nat, rand: nat) returns (ok: bool, best: nat)
      modifies srvs
      ensures srvs[..] == Probes(old(srvs[..]), now)
      ensures ok <==> Total(old(srvs[..]), now) != 0
      ensures ok ==>
              var ticket := rand % Total(old(srvs[..]), now);
              && best < srvs.Length
              && if exists i :: 0 <= i < srvs.Length && OwnsTicket(srvs[..], later, ticket, i)
                 then OwnsTicket(srvs[..], later, ticket, best)
                 else best == 0
    {
      ghost var before := srvs[..];
      var n := srvs.Length;
      var total := 0;
      var i := 0;
      while i < n
        invariant 0 <= i <= n
        invariant forall j :: 0 <= j < i ==> srvs[j] == Probe(before[j], now)
        invariant forall j :: i <= j < n ==> srvs[j] == before[j]
        invariant total == Total(before[..i], now)
      {
        assert before[..i+1][..i] == before[..i];
        if srvs[i].isDown && srvs[i].isFallback && Elapsed(now, srvs[i].lastFailTime) < srvs[i].failTimeout {
          i := i + 1;
          continue;
        }
        if Elapsed(now, srvs[i].lastFailTime) > srvs[i].failTimeout && srvs[i].isDown && srvs[i].effectiveWeight == 0 {
          srvs[i] := srvs[i].(effectiveWeight := srvs[i].effectiveWeight + 1);
        }
        total := total + srvs[i].effectiveWeight;
        i := i + 1;
      }
      assert before[..n] == before;
      ghost var ss := Probes(before, now);
      assert srvs[..] == ss;

      best := 0;
      ok := total != 0;
      if !ok {
        return;
      }
      var ticket := rand % total;
      var left := ticket;
      i := 0;
      while i < n
        invariant 0 <= i <= n
        invariant forall j :: 0 <= j < n ==> srvs[j] == ss[j]
        invariant best == 0
        invariant 0 <= left == ticket - WeightBefore(ss, later, i)
        invariant forall j :: 0 <= j < i ==> !OwnsTicket(ss, later, ticket, j)
      {
        if srvs[i].isDown && srvs[i].isFallback && Elapsed(later, srvs[i].lastFailTime) < srvs[i].failTimeout {
          i := i + 1;
          continue;
        }
        if left < srvs[i].effectiveWeight {
          assert OwnsTicket(ss, later, ticket, i);
          best := i;
          break;
        }
        left := left - srvs[i].effectiveWeight;
        i := i + 1;
      }
    }
  }
}
