/**
 How long the search of the memory pool can get (src/uct_palloc.c), over every run of small
 requests, other changes of the fill levels and resets.
 */
module PoolSearch {
  import opened Pool

  datatype Chain = Chain(blocks: seq<Block>, current: nat)

  // Filled stands for whatever else moves the fill level of a block, such as growing an array.
  datatype Event = Small(size: nat, align: bool, base: nat) | Filled(i: nat, last: nat) | Reset

  // uct_create_pool.
  function Created(base: nat, psize: nat): (c: Chain)
    ensures c.current < |c.blocks|
  {
    Chain([Block(base, base + POOL_HEADER, base + psize, 0)], 0)
  }

  // The effect of one event; these are the contracts of MemoryPool.PallocSmall and MemoryPool.Reset.
  function Step(c: Chain, e: Event, psize: nat): (r: Chain)
    requires c.current < |c.blocks|
    ensures r.current < |r.blocks|
  {
    match e
    case Small(size, align, base) =>
      var k := FirstFit(c.blocks, c.current, size, align);
      if k < |c.blocks| then c.(blocks := c.blocks[k := c.blocks[k].(last := Place(c.blocks[k], align) + size)])
      else Chain(Missed(c.blocks, c.current) + [NewBlock(base, psize, size)],
                 NewCurrent(c.blocks, c.current, |c.blocks| - 1))
    case Filled(i, last) => if i < |c.blocks| then c.(blocks := c.blocks[i := c.blocks[i].(last := last)]) else c
    case Reset => Chain(seq(|c.blocks|, i requires 0 <= i < |c.blocks| => Emptied(c.blocks[i])), 0)
  }

  function Emptied(b: Block): Block {
    b.(last := b.base + POOL_HEADER, failed := 0)
  }

  function Run(c: Chain, es: seq<Event>, psize: nat): (r: Chain)
    requires c.current < |c.blocks|
    ensures r.current < |r.blocks|
  {
    if es == [] then c else Step(Run(c, es[..|es|-1], psize), es[|es|-1], psize)
  }

  // The number of blocks at the last reset, 1 for a pool that was never reset.
  function ResetSize(base: nat, psize: nat, es: seq<Event>): nat {
    if es == [] then 1
    else
      var init := es[..|es|-1];
      if es[|es|-1].Reset? then |Run(Created(base, psize), init, psize).blocks| else ResetSize(base, psize, init)
  }

  // ----- The bound -----

  // After n blocks were reset, the search starts at the first one until its count exceeds 4; the
  // counts of the old blocks but the last are equal, the others descend.
  ghost predicate Recovering(c: Chain, n: nat) {
    var m := |c.blocks|;
    && 1 <= n <= m <= n + 5 && c.current == 0
    && c.blocks[m-1].failed == 0
    && (forall i :: 0 <= i < n - 1 ==> c.blocks[i].failed == m - n)
    && (forall i :: n - 1 <= i < m - 1 ==> c.blocks[i].failed == m - 2 - i)
  }

  ghost predicate Bounded(c: Chain, n: nat) {
    Descending(c.blocks, c.current) || Recovering(c, n)
  }

  // A miss while recovering: at the sixth, current leaves the old blocks and the counts descend.
  lemma RecoveringMiss(c: Chain, n: nat, b: Block)
    requires Recovering(c, n) && b.failed == 0
    ensures Bounded(Chain(Missed(c.blocks, 0) + [b], NewCurrent(c.blocks, 0, |c.blocks| - 1)), n)
    ensures |c.blocks| < n + 5 ==> NewCurrent(c.blocks, 0, |c.blocks| - 1) == 0
  {
    var m := |c.blocks|;
    if m == n + 5 && n > 1 {
      assert c.blocks[n-2].failed == 5;
      NewCurrentIs(c.blocks, 0, m - 1, n - 1);
    } else {
      NewCurrentIs(c.blocks, 0, m - 1, 0);
    }
  }

  lemma StepKeepsBound(c: Chain, e: Event, psize: nat, n: nat)
    requires c.current < |c.blocks| && Bounded(c, n)
    ensures Bounded(Step(c, e, psize), if e.Reset? then |c.blocks| else n)
  {
    hide Descending, FirstFit, Place;
    match e
    case Small(size, align, base) =>
      var k := FirstFit(c.blocks, c.current, size, align);
      if k < |c.blocks| {
        FillKeepsBound(c, k, Place(c.blocks[k], align) + size, n);
      } else if Descending(c.blocks, c.current) {
        DescendingKept(c.blocks, c.current, NewBlock(base, psize, size));
      } else {
        RecoveringMiss(c, n, NewBlock(base, psize, size));
      }
    case Filled(i, last) =>
      if i < |c.blocks| {
        FillKeepsBound(c, i, last, n);
      }
    case Reset =>
  }

  lemma FillKeepsBound(c: Chain, i: nat, last: nat, n: nat)
    requires i < |c.blocks| && Bounded(c, n)
    ensures Bounded(c.(blocks := c.blocks[i := c.blocks[i].(last := last)]), n)
  {
  }

  lemma {:induction false} RunIsBounded(base: nat, psize: nat, es: seq<Event>)
    ensures Bounded(Run(Created(base, psize), es, psize), ResetSize(base, psize, es))
  {
    if es != [] {
      var init := es[..|es|-1];
      RunIsBounded(base, psize, init);
      StepKeepsBound(Run(Created(base, psize), init, psize), es[|es|-1], psize, ResetSize(base, psize, init));
    }
  }

  /**
   Over every run, with any number of resets: a search examines at most 7 blocks, or n + 5 if that
   is more, where n is the number of blocks at the last reset.
   */
  lemma SearchBound(base: nat, psize: nat, es: seq<Event>, size: nat, align: bool)
    ensures var c := Run(Created(base, psize), es, psize);
            var n := ResetSize(base, psize, es);
            Examined(c.blocks, c.current, size, align) <= (if n <= 2 then 7 else n + 5)
  {
    RunIsBounded(base, psize, es);
  }

  // ----- The bound is attained -----

  // Blocks of which one request of s bytes fills each; no second one fits.
  const BLOCK: nat := 160
  const REQUEST: nat := 80

  function Requests(k: nat, first: nat): (es: seq<Event>)
    ensures |es| == k
  {
    if k == 0 then [] else Requests(k - 1, first) + [Small(REQUEST, false, (first + k) * BLOCK)]
  }

  // The first k blocks are full, the others hold just one request more.
  ghost predicate Filling(c: Chain, k: nat) {
    && k <= |c.blocks| && c.current < |c.blocks|
    && (forall i :: 0 <= i < |c.blocks| ==> c.blocks[i].end == c.blocks[i].base + BLOCK)
    && (forall i :: 0 <= i < k ==> c.blocks[i].last <= c.blocks[i].end < c.blocks[i].last + REQUEST)
    && (forall i :: k <= i < |c.blocks| ==> c.blocks[i].end == c.blocks[i].last + REQUEST)
  }

  lemma {:induction false} FullBlocksAreSkipped(c: Chain, k: nat, i: nat)
    requires Filling(c, k) && i <= k
    ensures FirstFit(c.blocks, i, REQUEST, false) == k
    decreases k - i
  {
    if i < k {
      assert !Fits(c.blocks[i], REQUEST, false);
      FullBlocksAreSkipped(c, k, i + 1);
    } else if k < |c.blocks| {
      assert Fits(c.blocks[k], REQUEST, false);
    }
  }

  lemma AlignedBase(b: nat)
    ensures AlignUp(b * BLOCK + BLOCK_HEADER) == b * BLOCK + BLOCK_HEADER
  {
    assert b * BLOCK + BLOCK_HEADER == 8 * (20 * b + 4);
  }

  // A request is served by the first block that is not full, or by a new one.
  lemma RequestStep(c: Chain, k: nat, b: nat)
    requires Filling(c, k) && c.current <= k
    ensures var r := Step(c, Small(REQUEST, false, b * BLOCK), BLOCK);
            && Filling(r, k + 1)
            && if k < |c.blocks| then r == c.(blocks := c.blocks[k := c.blocks[k].(last := c.blocks[k].last + REQUEST)])
               else r == Chain(Missed(c.blocks, c.current) + [NewBlock(b * BLOCK, BLOCK, REQUEST)],
                               NewCurrent(c.blocks, c.current, |c.blocks| - 1))
  {
    FullBlocksAreSkipped(c, k, c.current);
    AlignedBase(b);
  }

  lemma RunSnoc(c: Chain, es: seq<Event>, e: Event)
    requires c.current < |c.blocks|
    ensures Run(c, es + [e], BLOCK) == Step(Run(c, es, BLOCK), e, BLOCK)
  {
    assert (es + [e])[..|es|] == es;
  }

  // From n blocks that are empty, n requests fill them all, and up to five more are misses.
  lemma {:induction false} RequestsFill(c: Chain, n: nat, k: nat, first: nat)
    requires n >= 1 && k <= n + 5 && |c.blocks| == n && c.current == 0 && Filling(c, 0)
    requires forall i :: 0 <= i < n ==> c.blocks[i].failed == 0
    ensures var r := Run(c, Requests(k, first), BLOCK);
            Filling(r, k) && |r.blocks| == (if k <= n then n else k) && Recovering(r, n)
    decreases k
  {
    hide Step, Filling, Recovering;
    if k == 0 {
      JustReset(c, n);
    } else {
      RequestsFill(c, n, k - 1, first);
      var r := Run(c, Requests(k - 1, first), BLOCK);
      RunSnoc(c, Requests(k - 1, first), Small(REQUEST, false, (first + k) * BLOCK));
      RequestRecovers(r, n, k - 1, first + k);
    }
  }

  lemma JustReset(c: Chain, n: nat)
    requires n >= 1 && |c.blocks| == n && c.current == 0 && forall i :: 0 <= i < n ==> c.blocks[i].failed == 0
    ensures Recovering(c, n)
  {
  }

  lemma RequestRecovers(c: Chain, n: nat, k: nat, b: nat)
    requires c.current < |c.blocks| && Filling(c, k) && Recovering(c, n)
    requires k < n + 5 && |c.blocks| == if k <= n then n else k
    ensures var r := Step(c, Small(REQUEST, false, b * BLOCK), BLOCK);
            Filling(r, k + 1) && |r.blocks| == (if k + 1 <= n then n else k + 1) && Recovering(r, n)
  {
    hide Step, Filling, Recovering, Missed;
    StartsAtFirst(c, n);
    RequestStep(c, k, b);
    if k < |c.blocks| {
      FillRecovers(c, n, k, c.blocks[k].last + REQUEST);
    } else {
      RecoveringMiss(c, n, NewBlock(b * BLOCK, BLOCK, REQUEST));
      MissRecovers(c, n, NewBlock(b * BLOCK, BLOCK, REQUEST));
    }
  }

  lemma FillRecovers(c: Chain, n: nat, i: nat, last: nat)
    requires i < |c.blocks| && Recovering(c, n)
    ensures Recovering(c.(blocks := c.blocks[i := c.blocks[i].(last := last)]), n)
  {
  }

  lemma MissRecovers(c: Chain, n: nat, b: Block)
    requires Recovering(c, n) && b.failed == 0 && |c.blocks| < n + 5
    ensures var r := Chain(Missed(c.blocks, 0) + [b], 0); Recovering(r, n) && |r.blocks| == |c.blocks| + 1
  {
  }

  lemma StartsAtFirst(c: Chain, n: nat)
    requires Recovering(c, n)
    ensures c.current == 0
  {
  }

  // From full blocks every request adds one.
  lemma {:induction false} RequestsGrow(c: Chain, k: nat, first: nat)
    requires c.current < |c.blocks| && Filling(c, |c.blocks|)
    ensures var r := Run(c, Requests(k, first), BLOCK); |r.blocks| == |c.blocks| + k && Filling(r, |r.blocks|)
    decreases k
  {
    hide Step, Filling;
    if k > 0 {
      RequestsGrow(c, k - 1, first);
      var r := Run(c, Requests(k - 1, first), BLOCK);
      RunSnoc(c, Requests(k - 1, first), Small(REQUEST, false, (first + k) * BLOCK));
      RequestStep(r, |r.blocks|, first + k);
    }
  }

  lemma {:induction false} RunConcat(c: Chain, a: seq<Event>, b: seq<Event>)
    requires c.current < |c.blocks|
    ensures Run(c, a + b, BLOCK) == Run(Run(c, a, BLOCK), b, BLOCK)
    decreases |b|
  {
    hide Step;
    if b == [] {
      assert a + b == a;
    } else {
      RunConcat(c, a, b[..|b|-1]);
      assert (a + b)[..|a + b| - 1] == a + b[..|b|-1];
    }
  }

  lemma {:induction false} RequestsKeepSize(base: nat, es: seq<Event>, k: nat, first: nat)
    ensures ResetSize(base, BLOCK, es + Requests(k, first)) == ResetSize(base, BLOCK, es)
    decreases k
  {
    hide Run;
    if k == 0 {
      assert es + Requests(k, first) == es;
    } else {
      RequestsKeepSize(base, es, k - 1, first);
      assert (es + Requests(k, first))[..|es| + k - 1] == es + Requests(k - 1, first);
    }
  }

  // n blocks filled one by one, a reset, and requests until five have missed.
  function Worst(n: nat): seq<Event>
    requires n >= 1
  {
    Requests(1, 0) + Requests(n - 1, 1) + [Reset] + Requests(n + 5, n)
  }

  /**
   The bound is attained: for every n there is a run whose last reset found n blocks and after
   which a request examines n + 5 of them.
   */
  lemma BoundIsAttained(n: nat)
    requires n >= 1
    ensures var c := Run(Created(BLOCK, BLOCK), Worst(n), BLOCK);
            && ResetSize(BLOCK, BLOCK, Worst(n)) == n
            && Examined(c.blocks, c.current, REQUEST, false) == n + 5
  {
    hide Step, Requests, Recovering;
    var c0 := Created(BLOCK, BLOCK);
    var grown := Requests(1, 0) + Requests(n - 1, 1);
    RequestsFill(c0, 1, 1, 0);
    RunConcat(c0, Requests(1, 0), Requests(n - 1, 1));
    RequestsGrow(Run(c0, Requests(1, 0), BLOCK), n - 1, 1);
    var c1 := Run(c0, grown, BLOCK);
    RunSnoc(c0, grown, Reset);
    var c2 := Run(c0, grown + [Reset], BLOCK);
    AfterReset(c1);
    RunConcat(c0, grown + [Reset], Requests(n + 5, n));
    RequestsFill(c2, n, n + 5, n);
    RequestsKeepSize(BLOCK, grown + [Reset], n + 5, n);
    assert (grown + [Reset])[..|grown|] == grown;
    var c3 := Run(c2, Requests(n + 5, n), BLOCK);
    StartsAtFirst(c3, n);
    FullBlocksAreSkipped(c3, n + 5, 0);
  }

  lemma AfterReset(c: Chain)
    requires Filling(c, |c.blocks|)
    ensures var r := Step(c, Reset, BLOCK);
            && Filling(r, 0) && |r.blocks| == |c.blocks| && r.current == 0
            && forall i :: 0 <= i < |r.blocks| ==> r.blocks[i].failed == 0
  {
  }

  // In a pool that was never reset seven blocks are examined after seven requests.
  lemma SevenAreExamined()
    ensures var c := Run(Created(BLOCK, BLOCK), Requests(7, 0), BLOCK);
            && ResetSize(BLOCK, BLOCK, Requests(7, 0)) == 1
            && Examined(c.blocks, c.current, REQUEST, false) == 7
  {
    hide Step;
    var c0 := Created(BLOCK, BLOCK);
    RequestsFill(c0, 1, 6, 0);
    var c := Run(c0, Requests(6, 0), BLOCK);
    RunSnoc(c0, Requests(6, 0), Small(REQUEST, false, 7 * BLOCK));
    assert Requests(7, 0) == Requests(6, 0) + [Small(REQUEST, false, 7 * BLOCK)];
    RequestStep(c, 6, 7);
    NewCurrentIs(c.blocks, 0, 5, 0);
    FullBlocksAreSkipped(Run(c0, Requests(7, 0), BLOCK), 7, 0);
    RequestsKeepSize(BLOCK, [], 7, 0);
    assert [] + Requests(7, 0) == Requests(7, 0);
  }

  // No search after a run whose last reset found n blocks examines more than 7.
  ghost predicate AtMostSeven(n: nat) {
    forall base, psize, es, size, align :: ResetSize(base, psize, es) == n ==>
      var c := Run(Created(base, psize), es, psize); Examined(c.blocks, c.current, size, align) <= 7
  }

  /**
   The search stays within 7 blocks if and only if no more than two blocks were there at the last
   reset.
   */
  lemma SevenExactly(n: nat)
    requires n >= 1
    ensures AtMostSeven(n) <==> n <= 2
  {
    hide Run, Created, Examined, ResetSize, Worst;
    if n <= 2 {
      forall base, psize, es, size, align | ResetSize(base, psize, es) == n
        ensures var c := Run(Created(base, psize), es, psize); Examined(c.blocks, c.current, size, align) <= 7
      {
        SearchBound(base, psize, es, size, align);
      }
    } else {
      BoundIsAttained(n);
    }
  }
}
