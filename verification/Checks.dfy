/**
 The active checks (src/uct_check.c): which check of a run takes a server down or brings it up,
 when nothing else touches the server, and in runs with every other event in between.
 */
module Checks {
  import opened Health
  import opened Upstream
  import RoundRobin

  // A run of checks with their results.
  function CheckRun(s: Server, results: seq<bool>): Server {
    if results == [] then s
    else
      var prev := CheckRun(s, results[..|results|-1]);
      if results[|results|-1] then CheckPassed(prev) else CheckMissed(prev)
  }

  // How many results are the given one.
  function Count(results: seq<bool>, result: bool): nat {
    if results == [] then 0
    else Count(results[..|results|-1], result) + (if results[|results|-1] == result then 1 else 0)
  }

  function AtLeastOne(n: nat): (m: nat)
    ensures m >= 1 && m >= n && (m == n || m == 1)
  {
    if n == 0 then 1 else n
  }

  // The number of checks up to the last one that changed whether the server is down.
  function LastTransition(s: Server, results: seq<bool>): (t: nat)
    ensures t <= |results|
  {
    if results == [] then 0
    else
      var init := results[..|results|-1];
      if CheckRun(s, results).isDown != CheckRun(s, init).isDown then |results| else LastTransition(s, init)
  }

  // What that means: nothing changed after it, and the check it names changed the state.
  lemma {:induction false} LastTransitionIsLast(s: Server, results: seq<bool>)
    ensures var t := LastTransition(s, results);
            && (forall n :: t <= n <= |results| ==> CheckRun(s, results[..n]).isDown == CheckRun(s, results).isDown)
            && (t > 0 ==> CheckRun(s, results[..t-1]).isDown != CheckRun(s, results[..t]).isDown)
  {
    hide CheckPassed, CheckMissed;
    assert results[..|results|] == results;
    if results != [] {
      var init := results[..|results|-1];
      LastTransitionIsLast(s, init);
      var t := LastTransition(s, results);
      if t == |results| {
        assert results[..t-1] == init;
      } else {
        forall n | t <= n <= |init| ensures CheckRun(s, results[..n]).isDown == CheckRun(s, results).isDown {
          assert init[..n] == results[..n];
        }
        if t > 0 {
          assert init[..t-1] == results[..t-1] && init[..t] == results[..t];
        }
      }
    }
  }

  // The counters hold what came since the last transition, and have not reached their limits.
  lemma {:induction false} CountersSinceTransition(s: Server, results: seq<bool>)
    requires s.checkFails == 0 && s.checkSuccesses == 0
    ensures var r := CheckRun(s, results);
            var since := results[LastTransition(s, results)..];
            && r.checkFails == Count(since, false) && r.checkSuccesses == Count(since, true)
            && r.checkFall == s.checkFall && r.checkRise == s.checkRise
            && (!r.isDown ==> r.checkFails < AtLeastOne(s.checkFall))
            && (r.isDown ==> r.checkSuccesses < AtLeastOne(s.checkRise))
  {
    if results != [] {
      var last := |results| - 1;
      var init := results[..last];
      CountersSinceTransition(s, init);
      var t := LastTransition(s, init);
      assert results[t..][..last-t] == init[t..];
      assert results[|results|..] == [];
    }
  }

  /**
   Over every run of checks: an up server goes down at exactly the check_fall-th failed check since
   the last transition, and a down one comes up at exactly the check_rise-th passed one, whatever
   lies between; with a limit of 0, as with 1, at the first such check.
   */
  lemma ChecksDecide(s: Server, results: seq<bool>)
    requires s.checkFails == 0 && s.checkSuccesses == 0 && results != []
    ensures var last := |results| - 1;
            var before, after := CheckRun(s, results[..last]), CheckRun(s, results);
            var since := results[LastTransition(s, results[..last])..];
            && (!before.isDown ==>
                (after.isDown <==> !results[last] && Count(since, false) == AtLeastOne(s.checkFall)))
            && (before.isDown ==>
                (!after.isDown <==> results[last] && Count(since, true) == AtLeastOne(s.checkRise)))
  {
    hide LastTransition;
    var last := |results| - 1;
    var init := results[..last];
    CountersSinceTransition(s, init);
    CountOneMore(results, LastTransition(s, init), true);
    CountOneMore(results, LastTransition(s, init), false);
    hide Count;
  }

  lemma CountOneMore(results: seq<bool>, t: nat, result: bool)
    requires t < |results|
    ensures var last := |results| - 1;
            Count(results[t..], result) == Count(results[..last][t..], result) + (if results[last] == result then 1 else 0)
  {
    assert results[t..][..|results|-1-t] == results[..|results|-1][t..];
  }

  // The failures need not be consecutive: with fall 2, a pass between two of them changes nothing.
  lemma PassesDoNotHelp()
    ensures CheckRun(NewServer(10, 3, 10, true, 2, 2), [false, true, false]).isDown
  {
    var s := NewServer(10, 3, 10, true, 2, 2);
    assert [false, true, false][..2] == [false, true] && [false, true][..1] == [false] && [false][..0] == [];
    assert CheckRun(s, [false]) == CheckMissed(s);
    assert CheckRun(s, [false, true]) == CheckPassed(CheckMissed(s));
  }

  // ----- Runs with all events -----

  // How many checks of server i in a run have the given result.
  function CountChecks(es: seq<Event>, i: nat, result: bool): nat {
    if es == [] then 0
    else CountChecks(es[..|es|-1], i, result) + (if es[|es|-1] == Check(i, result) then 1 else 0)
  }

  // The number of events up to the last check of server i that changed whether it is down.
  function LastChecked(ss: seq<Server>, es: seq<Event>, i: nat): (t: nat)
    requires |ss| > 0 && i < |ss| && forall e :: e in es ==> ValidEvent(e, |ss|)
    ensures t <= |es|
  {
    if es == [] then 0
    else
      var init, e := es[..|es|-1], es[|es|-1];
      if e.Check? && e.i == i && Run(ss, es)[i].isDown != Run(ss, init)[i].isDown then |es| else LastChecked(ss, init, i)
  }

  // Nothing but its own checks touches the counters of a server.
  lemma OthersKeepCounters(ss: seq<Server>, e: Event, i: nat)
    requires |ss| > 0 && i < |ss| && ValidEvent(e, |ss|) && !(e.Check? && e.i == i)
    ensures var s, r := ss[i], Step(ss, e)[i];
            && r.checkFails == s.checkFails && r.checkSuccesses == s.checkSuccesses
            && r.checkFall == s.checkFall && r.checkRise == s.checkRise
  {
    if e.Get? {
      RoundRobin.StepParts(ss, e.now);
    }
  }

  // The counters hold the checks since the last transition that a check made.
  lemma {:induction false} CountersInRuns(ss: seq<Server>, es: seq<Event>, i: nat)
    requires |ss| > 0 && i < |ss| && forall e :: e in es ==> ValidEvent(e, |ss|)
    requires ss[i].checkFails == 0 && ss[i].checkSuccesses == 0
    ensures var r := Run(ss, es)[i];
            var since := es[LastChecked(ss, es, i)..];
            && r.checkFails == CountChecks(since, i, false) && r.checkSuccesses == CountChecks(since, i, true)
            && r.checkFall == ss[i].checkFall && r.checkRise == ss[i].checkRise
  {
    if es != [] {
      var last := |es| - 1;
      var init, e := es[..last], es[last];
      CountersInRuns(ss, init, i);
      var t := LastChecked(ss, init, i);
      hide Step;
      CountMore(es, t, i, true);
      CountMore(es, t, i, false);
      assert es[|es|..] == [];
      if e.Check? && e.i == i {
        OwnCheck(Run(ss, init), i, e.passed);
      } else {
        OthersKeepCounters(Run(ss, init), e, i);
      }
    }
  }

  lemma CountMore(es: seq<Event>, t: nat, i: nat, result: bool)
    requires t < |es|
    ensures var last := |es| - 1;
            CountChecks(es[t..], i, result)
              == CountChecks(es[..last][t..], i, result) + (if es[last] == Check(i, result) then 1 else 0)
  {
    assert es[t..][..|es|-1-t] == es[..|es|-1][t..];
  }

  lemma OwnCheck(ss: seq<Server>, i: nat, passed: bool)
    requires |ss| > 0 && i < |ss|
    ensures Step(ss, Check(i, passed))[i] == if passed then CheckPassed(ss[i]) else CheckMissed(ss[i])
  {
  }

  /**
   Over every interleaving of gets, random calls, connect results and checks: a check takes an up
   server down exactly if it failed and, with it, check_fall checks have failed since the last
   transition that a check made, and brings a down one up likewise.  What connects did to the
   server in the meantime plays no part in the count.
   */
  lemma ChecksDecideInRuns(ss: seq<Server>, es: seq<Event>, i: nat, passed: bool)
    requires |ss| > 0 && i < |ss| && forall e :: e in es ==> ValidEvent(e, |ss|)
    requires ss[i].checkFails == 0 && ss[i].checkSuccesses == 0
    ensures var before, after := Run(ss, es)[i], Step(Run(ss, es), Check(i, passed))[i];
            var since := es[LastChecked(ss, es, i)..];
            && (!before.isDown ==> (after.isDown <==> !passed && CountChecks(since, i, false) + 1 >= ss[i].checkFall))
            && (before.isDown ==> (!after.isDown <==> passed && CountChecks(since, i, true) + 1 >= ss[i].checkRise))
  {
    hide Run, LastChecked, CountChecks, Step;
    CountersInRuns(ss, es, i);
    OwnCheck(Run(ss, es), i, passed);
  }

  /**
   A server that a connect took down comes up at the next passed check, if enough checks had
   passed before: no pass after the failure but one is needed.
   */
  lemma EarlierPassesCount()
    ensures var ss := [NewServer(1, 1, 10, true, 3, 2)];
            var es := [Check(0, true), ConnectBad(0, 100), Check(0, true)];
            Run(ss, es[..2])[0].isDown && !Run(ss, es)[0].isDown
  {
    var s := NewServer(1, 1, 10, true, 3, 2);
    var es := [Check(0, true), ConnectBad(0, 100), Check(0, true)];
    assert es[..2][..1] == [Check(0, true)] && es[..1] == [Check(0, true)] && es[..1][..0] == [];
    assert Run([s], es[..1]) == [CheckPassed(s)];
    assert Run([s], es[..2]) == [ConnectFailed(CheckPassed(s), 100)];
  }
}
