/**
 The memory pool (src/uct_palloc.c): a bump allocator over a chain of blocks,
 with separate allocations for large requests.

 Addresses are numbers.  What posix_memalign and malloc return is an input of the
 operation that calls them; the only thing assumed of it is what the C library promises,
 that it does not overlap memory in use and is aligned.
 */
module Pool {

  const U64: nat := 0x1_0000_0000_0000_0000

  const POOL_HEADER: nat := 80    // sizeof(uct_pool_t)
  const BLOCK_HEADER: nat := 32   // sizeof(uct_pool_data_t)
  const LARGE_HEADER: nat := 16   // sizeof(uct_pool_large_t)
  const ALIGNMENT: nat := 8       // UCT_ALIGNMENT
  const POOL_ALIGNMENT: nat := 16

  datatype Option<T> = None | Some(value: T)

  datatype Block = Block(base: nat, last: nat, end: nat, failed: nat)

  // A stretch of memory handed out to a caller.
  datatype Region = Region(start: nat, len: nat) {
    function End(): nat { start + len }
  }

  predicate Disjoint(a: Region, b: Region) {
    a.End() <= b.start || b.End() <= a.start
  }

  datatype Large = Large(header: nat, alloc: Option<Region>)

  // uct_align_ptr(p, UCT_ALIGNMENT)
  function AlignUp(p: nat): (q: nat)
    ensures p <= q < p + ALIGNMENT && q % ALIGNMENT == 0
  {
    (p + (ALIGNMENT - 1)) / ALIGNMENT * ALIGNMENT
  }

  // Where the next allocation in a block would start.
  function Place(b: Block, align: bool): (m: nat)
    ensures b.last <= m
  {
    if align then AlignUp(b.last) else b.last
  }

  // The test of uct_palloc_small: the difference is taken as an unsigned 64-bit number.
  predicate Fits(b: Block, size: nat, align: bool) {
    (b.end - Place(b, align)) % U64 >= size
  }

  function Whole(b: Block): Region
    requires b.base <= b.end
  {
    Region(b.base, b.end - b.base)
  }

  function HeaderSize(i: nat): nat {
    if i == 0 then POOL_HEADER else BLOCK_HEADER
  }

  ghost predicate GoodBlock(b: Block, i: nat) {
    && b.base + HeaderSize(i) <= b.last <= b.end < U64
    && b.base % POOL_ALIGNMENT == 0 && b.end % ALIGNMENT == 0
  }

  // The region lies in the used part of block i.
  ghost predicate InBlock(r: Region, b: Block, i: nat) {
    b.base + HeaderSize(i) <= r.start && r.End() <= b.last
  }

  ghost predicate Sheltered(r: Region, blocks: seq<Block>, large: seq<Large>) {
    || (exists i :: 0 <= i < |blocks| && InBlock(r, blocks[i], i))
    || (exists j :: 0 <= j < |large| && large[j].alloc == Some(r))
  }

  ghost predicate BlocksApart(blocks: seq<Block>)
    requires forall i :: 0 <= i < |blocks| ==> blocks[i].base <= blocks[i].end
  {
    forall i, j :: 0 <= i < j < |blocks| ==> Disjoint(Whole(blocks[i]), Whole(blocks[j]))
  }

  ghost predicate LargeApart(blocks: seq<Block>, large: seq<Large>)
    requires forall i :: 0 <= i < |blocks| ==> blocks[i].base <= blocks[i].end
  {
    && (forall i, j :: 0 <= i < |blocks| && 0 <= j < |large| && large[j].alloc.Some? ==>
          Disjoint(Whole(blocks[i]), large[j].alloc.value))
    && (forall j, k :: 0 <= j < k < |large| && large[j].alloc.Some? && large[k].alloc.Some? ==>
          Disjoint(large[j].alloc.value, large[k].alloc.value))
    && (forall j :: 0 <= j < |large| && large[j].alloc.Some? ==> large[j].alloc.value.len > 0)
  }

  // r overlaps nothing the pool owns.
  ghost predicate Unused(r: Region, blocks: seq<Block>, large: seq<Large>)
    requires forall i :: 0 <= i < |blocks| ==> blocks[i].base <= blocks[i].end
  {
    && (forall i :: 0 <= i < |blocks| ==> Disjoint(Whole(blocks[i]), r))
    && (forall j :: 0 <= j < |large| && large[j].alloc.Some? ==> Disjoint(large[j].alloc.value, r))
  }

  // Every region handed out is in a block's used part or is a large allocation, and no two overlap.
  ghost predicate SafeMemory(blocks: seq<Block>, large: seq<Large>, live: set<Region>) {
    && (forall i :: 0 <= i < |blocks| ==> GoodBlock(blocks[i], i))
    && BlocksApart(blocks) && LargeApart(blocks, large)
    && (forall r :: r in live ==> r.len > 0 && Sheltered(r, blocks, large))
    && (forall r, s :: r in live && s in live && r != s ==> Disjoint(r, s))
  }

  // The failed counts from current on: m-2, ..., 1, 0 and a final 0, for at most 7 blocks.
  ghost predicate Descending(blocks: seq<Block>, current: nat) {
    && current < |blocks|
    && |blocks| - current <= 7
    && blocks[|blocks|-1].failed == 0
    && forall i :: current <= i < |blocks| - 1 ==> blocks[i].failed == |blocks| - 2 - i
  }

  // The first block from i on that has room.
  function FirstFit(blocks: seq<Block>, i: nat, size: nat, align: bool): (k: nat)
    requires i <= |blocks|
    ensures i <= k <= |blocks|
    ensures k < |blocks| ==> Fits(blocks[k], size, align)
    ensures forall j :: i <= j < k ==> !Fits(blocks[j], size, align)
    decreases |blocks| - i
  {
    if i == |blocks| || Fits(blocks[i], size, align) then i else FirstFit(blocks, i + 1, size, align)
  }

  // How many blocks a search looks at: up to the one with room, or all from current on.
  function Examined(blocks: seq<Block>, current: nat, size: nat, align: bool): (n: nat)
    requires current <= |blocks|
    ensures n <= |blocks| - current
  {
    var k := FirstFit(blocks, current, size, align);
    (if k < |blocks| then k + 1 else k) - current
  }

  // The chain after a miss: every block from current on but the last has failed once more.
  function Missed(blocks: seq<Block>, current: nat): seq<Block> {
    seq(|blocks|, i requires 0 <= i < |blocks| =>
      if current <= i < |blocks| - 1 then blocks[i].(failed := blocks[i].failed + 1) else blocks[i])
  }

  // current after a miss: behind the last block that had failed more than 4 times.
  function NewCurrent(blocks: seq<Block>, current: nat, n: nat): (c: nat)
    requires n <= |blocks|
    ensures current <= c && (c == current || c <= n)
  {
    if n <= current then current
    else if blocks[n-1].failed > 4 then n
    else NewCurrent(blocks, current, n - 1)
  }

  function NewBlock(base: nat, psize: nat, size: nat): Block {
    Block(base, AlignUp(base + BLOCK_HEADER) + size, base + psize, 0)
  }

  // Unaligned memory starts right at the fill level, aligned memory at the next multiple of 8.
  lemma PlaceInWords(b: Block)
    ensures Place(b, false) == b.last
    ensures Place(b, true) % 8 == 0 && forall q :: q >= b.last && q % 8 == 0 ==> Place(b, true) <= q
  {
  }

  // Current moves behind the last block searched that had failed five times or more, if there is one.
  lemma {:induction false} CurrentInWords(blocks: seq<Block>, current: nat, n: nat)
    requires current <= n <= |blocks|
    ensures var c := NewCurrent(blocks, current, n);
            && current <= c <= n && (c > current ==> blocks[c-1].failed >= 5)
            && forall i :: c <= i < n ==> blocks[i].failed < 5
  {
    if n > current && blocks[n-1].failed <= 4 {
      CurrentInWords(blocks, current, n - 1);
    }
  }

  // In a block whose end is aligned the unsigned test is a real one.
  lemma FitsMeansRoom(b: Block, size: nat, align: bool)
    requires b.last <= b.end < U64 && b.end % ALIGNMENT == 0
    ensures Place(b, align) <= b.end
    ensures Fits(b, size, align) <==> Place(b, align) + size <= b.end
  {
  }

  /**
   Why the block size must be a multiple of the alignment: aligned allocation never leaves the
   block, for every fill level, exactly when the block's end is aligned.
   */
  lemma EndMustBeAligned(end: nat)
    ensures (forall last :: 0 <= last <= end ==> AlignUp(last) <= end) <==> end % ALIGNMENT == 0
  {
    if end % ALIGNMENT == 0 {
      forall last | 0 <= last <= end ensures AlignUp(last) <= end {
      }
    } else {
      assert AlignUp(end) > end;
    }
  }

  // In any block the test lets a request run over the end exactly when aligning alone has left the
  // block, as the difference then wraps.
  lemma OverrunsExactly(b: Block, size: nat, align: bool)
    requires b.last <= b.end < U64 && size <= U64 - ALIGNMENT
    ensures Fits(b, size, align) && Place(b, align) + size > b.end <==> Place(b, align) > b.end
  {
    var m := Place(b, align);
    if m > b.end {
      assert (b.end - m) % U64 == U64 - (m - b.end);
    }
  }

  /**
   How that happens: a pool of 100 bytes takes requests of up to 20 bytes. One unaligned request of
   20 fills its block to the unaligned end, and an aligned one of 16 is then placed behind the end.
   */
  lemma UnalignedBlockOverruns()
    ensures var created := Block(1600, 1600 + POOL_HEADER, 1600 + 100, 0);
            var full := created.(last := Place(created, false) + 20);
            && 20 <= 100 - POOL_HEADER
            && Fits(created, 20, false) && full.last <= full.end
            && Fits(full, 16, true) && Place(full, true) > full.end
  {
    OverrunsExactly(Block(1600, 1700, 1700, 0), 16, true);
  }

  // ----- how the invariant survives -----

  // A region in use stays in use, and is apart from [m, m+size) behind the used part of block k.
  lemma KeptApart(blocks: seq<Block>, large: seq<Large>, k: nat, m: nat, size: nat, r: Region)
    requires forall i :: 0 <= i < |blocks| ==> GoodBlock(blocks[i], i) && blocks[i].base <= blocks[i].end
    requires BlocksApart(blocks) && LargeApart(blocks, large) && Sheltered(r, blocks, large)
    requires k < |blocks| && blocks[k].last <= m && m + size <= blocks[k].end
    ensures Sheltered(r, blocks[k := blocks[k].(last := m + size)], large)
    ensures Disjoint(r, Region(m, size))
  {
    var bs := blocks[k := blocks[k].(last := m + size)];
    if j :| 0 <= j < |large| && large[j].alloc == Some(r) {
      assert Disjoint(Whole(blocks[k]), r);
    } else {
      var i :| 0 <= i < |blocks| && InBlock(r, blocks[i], i);
      assert InBlock(r, bs[i], i);
      if i < k {
        assert Disjoint(Whole(blocks[i]), Whole(blocks[k]));
      } else if k < i {
        assert Disjoint(Whole(blocks[k]), Whole(blocks[i]));
      }
    }
  }

  // Handing out [m, m+size) behind the used part of block k.
  lemma Bumped(blocks: seq<Block>, large: seq<Large>, live: set<Region>, k: nat, m: nat, size: nat)
    requires SafeMemory(blocks, large, live) && k < |blocks|
    requires blocks[k].last <= m && m + size <= blocks[k].end
    ensures SafeMemory(blocks[k := blocks[k].(last := m + size)], large, live + (if size > 0 then {Region(m, size)} else {}))
    ensures forall r :: r in live ==> Disjoint(r, Region(m, size))
  {
    var bs := blocks[k := blocks[k].(last := m + size)];
    forall r | r in live
      ensures Sheltered(r, bs, large) && Disjoint(r, Region(m, size))
    {
      KeptApart(blocks, large, k, m, size, r);
    }
    assert InBlock(Region(m, size), bs[k], k);
    SameWholes(blocks, bs, large);
  }

  // Fill levels and failed counts have no part in what blocks are apart from.
  lemma SameWholes(blocks: seq<Block>, bs: seq<Block>, large: seq<Large>)
    requires |bs| == |blocks|
    requires forall i :: 0 <= i < |blocks| ==> blocks[i].base <= blocks[i].end
    requires forall i :: 0 <= i < |bs| ==> bs[i].base == blocks[i].base && bs[i].end == blocks[i].end
    requires BlocksApart(blocks) && LargeApart(blocks, large)
    ensures BlocksApart(bs) && LargeApart(bs, large)
  {
    hide Disjoint;
    assert forall i :: 0 <= i < |bs| ==> Whole(bs[i]) == Whole(blocks[i]);
  }

  // Adding an empty block to the chain and changing failed counts.
  lemma Chained(blocks: seq<Block>, bs: seq<Block>, large: seq<Large>, live: set<Region>, b: Block)
    requires SafeMemory(blocks, large, live)
    requires |bs| == |blocks| > 0 && forall i :: 0 <= i < |bs| ==> bs[i] == blocks[i].(failed := bs[i].failed)
    requires GoodBlock(b, |bs|) && Unused(Whole(b), blocks, large)
    ensures SafeMemory(bs + [b], large, live)
  {
    var cs := bs + [b];
    forall r | r in live ensures Sheltered(r, cs, large) {
      if i :| 0 <= i < |blocks| && InBlock(r, blocks[i], i) {
        assert InBlock(r, cs[i], i);
      }
    }
  }

  lemma AlignedStart(base: nat, psize: nat)
    requires base % POOL_ALIGNMENT == 0 && psize % ALIGNMENT == 0
    ensures AlignUp(base + BLOCK_HEADER) == base + BLOCK_HEADER
    ensures (base + psize) % ALIGNMENT == 0
  {
    var q, p := base / POOL_ALIGNMENT, psize / ALIGNMENT;
    Multiple8(2 * q + 4);
    Multiple8(2 * q + p);
    assert base == 16 * q && psize == 8 * p;
  }

  lemma Multiple8(t: nat)
    ensures (8 * t + 7) / 8 == t && 8 * t % 8 == 0
  {
  }

  // A block is added after a miss, and [m, m+size) is handed out from it.
  lemma Extended(blocks: seq<Block>, current: nat, large: seq<Large>, live: set<Region>, base: nat, psize: nat, size: nat)
    requires SafeMemory(blocks, large, live) && blocks != []
    requires base % POOL_ALIGNMENT == 0 && psize % ALIGNMENT == 0 && base + psize < U64
    requires BLOCK_HEADER + size <= psize && Unused(Region(base, psize), blocks, large)
    ensures var m := AlignUp(base + BLOCK_HEADER);
            && SafeMemory(Missed(blocks, current) + [NewBlock(base, psize, size)], large, live + (if size > 0 then {Region(m, size)} else {}))
            && forall r :: r in live ==> Disjoint(r, Region(m, size))
  {
    hide SafeMemory, Unused;
    var m := AlignUp(base + BLOCK_HEADER);
    AlignedStart(base, psize);
    hide AlignUp;
    var missed := Missed(blocks, current);
    var empty := NewBlock(base, psize, 0);
    Chained(blocks, missed, large, live, empty);
    Bumped(missed + [empty], large, live, |blocks|, m, size);
    assert (missed + [empty])[|blocks| := empty.(last := m + size)] == missed + [NewBlock(base, psize, size)];
  }

  // Recording a large allocation in slot j, or in a new slot at the front when j is -1.
  function Recorded(large: seq<Large>, j: int, header: nat, r: Region): seq<Large>
    requires j < |large|
  {
    if j >= 0 then large[j := large[j].(alloc := Some(r))] else [Large(header, Some(r))] + large
  }

  lemma RecordedAt(large: seq<Large>, j: int, header: nat, r: Region, k: nat)
    requires j < |large| && k < |Recorded(large, j, header, r)|
    ensures var l := Recorded(large, j, header, r)[k];
            l.alloc == Some(r) || (l in large && if j >= 0 then k < |large| && l == large[k] else 0 < k && l == large[k-1])
  {
  }

  lemma RecordedApart(blocks: seq<Block>, large: seq<Large>, j: int, header: nat, r: Region)
    requires forall i :: 0 <= i < |blocks| ==> blocks[i].base <= blocks[i].end
    requires LargeApart(blocks, large) && Unused(r, blocks, large) && r.len > 0
    requires j < |large| && (j >= 0 ==> large[j].alloc == None)
    ensures LargeApart(blocks, Recorded(large, j, header, r))
  {
    var after := Recorded(large, j, header, r);
    forall i, k | 0 <= i < k < |after| && after[i].alloc.Some? && after[k].alloc.Some?
      ensures Disjoint(after[i].alloc.value, after[k].alloc.value)
    {
      RecordedAt(large, j, header, r, i);
      RecordedAt(large, j, header, r, k);
    }
    forall k | 0 <= k < |after| && after[k].alloc.Some?
      ensures after[k].alloc.value.len > 0 && forall i :: 0 <= i < |blocks| ==> Disjoint(Whole(blocks[i]), after[k].alloc.value)
    {
      RecordedAt(large, j, header, r, k);
    }
  }

  lemma LargeAdded(blocks: seq<Block>, large: seq<Large>, live: set<Region>, j: int, header: nat, r: Region)
    requires SafeMemory(blocks, large, live) && Unused(r, blocks, large) && r.len > 0
    requires j < |large| && (j >= 0 ==> large[j].alloc == None)
    ensures SafeMemory(blocks, Recorded(large, j, header, r), live + {r})
    ensures forall s :: s in live ==> Disjoint(s, r)
  {
    RecordedApart(blocks, large, j, header, r);
    forall s | s in live ensures Sheltered(s, blocks, Recorded(large, j, header, r)) && Disjoint(s, r) {
      KeepsShelter(blocks, large, j, header, r, s);
    }
    hide LargeApart, BlocksApart, GoodBlock, Recorded, Disjoint, Unused;
    NewlySheltered(blocks, large, j, header, r);
    DisjointIsSymmetric();
  }

  lemma DisjointIsSymmetric()
    ensures forall a, b :: Disjoint(a, b) <==> Disjoint(b, a)
  {
  }

  lemma NewlySheltered(blocks: seq<Block>, large: seq<Large>, j: int, header: nat, r: Region)
    requires j < |large|
    ensures Sheltered(r, blocks, Recorded(large, j, header, r))
  {
    assert Recorded(large, j, header, r)[if j >= 0 then j else 0].alloc == Some(r);
  }

  lemma KeepsShelter(blocks: seq<Block>, large: seq<Large>, j: int, header: nat, r: Region, s: Region)
    requires forall i :: 0 <= i < |blocks| ==> GoodBlock(blocks[i], i) && blocks[i].base <= blocks[i].end
    requires Unused(r, blocks, large) && j < |large| && (j >= 0 ==> large[j].alloc == None)
    requires Sheltered(s, blocks, large)
    ensures Sheltered(s, blocks, Recorded(large, j, header, r)) && Disjoint(s, r)
  {
    var d := if j >= 0 then 0 else 1;
    if k :| 0 <= k < |large| && large[k].alloc == Some(s) {
      assert Recorded(large, j, header, r)[k+d] == large[k];
    } else {
      var i :| 0 <= i < |blocks| && InBlock(s, blocks[i], i);
      assert Disjoint(Whole(blocks[i]), r);
    }
  }

  lemma LargeDropped(blocks: seq<Block>, large: seq<Large>, live: set<Region>, j: nat)
    requires SafeMemory(blocks, large, live) && j < |large| && large[j].alloc.Some?
    ensures SafeMemory(blocks, large[j := large[j].(alloc := None)], live - {large[j].alloc.value})
  {
    var after := large[j := large[j].(alloc := None)];
    forall s | s in live - {large[j].alloc.value} ensures Sheltered(s, blocks, after) {
      if k :| 0 <= k < |large| && large[k].alloc == Some(s) {
        assert after[k].alloc == Some(s);
      }
    }
  }

  lemma DescendingKept(blocks: seq<Block>, current: nat, b: Block)
    requires Descending(blocks, current) && b.failed == 0
    ensures Descending(Missed(blocks, current) + [b], NewCurrent(blocks, current, |blocks| - 1))
  {
    var n := |blocks|;
    if n - current == 7 {
      assert blocks[current].failed == 5;
      NewCurrentIs(blocks, current, n - 1, current + 1);
    } else {
      NewCurrentIs(blocks, current, n - 1, current);
    }
  }

  lemma {:induction false} NewCurrentIs(blocks: seq<Block>, current: nat, n: nat, c: nat)
    requires n <= |blocks| && current <= c && (c <= n || c == current)
    requires forall i :: c <= i < n ==> blocks[i].failed <= 4
    requires c > current ==> blocks[c-1].failed > 4
    ensures NewCurrent(blocks, current, n) == c
  {
    if n > c {
      NewCurrentIs(blocks, current, n - 1, c);
    }
  }

  lemma GoodSizes(blocks: seq<Block>, large: seq<Large>, live: set<Region>)
    requires SafeMemory(blocks, large, live)
    ensures forall i :: 0 <= i < |blocks| ==> GoodBlock(blocks[i], i) && (blocks[i].end - blocks[i].base) % ALIGNMENT == 0
  {
    forall i | 0 <= i < |blocks| ensures (blocks[i].end - blocks[i].base) % ALIGNMENT == 0 {
      assert GoodBlock(blocks[i], i);
    }
  }

  // The slot that a large allocation reuses: the first free one among the first five, or -1.
  function FreeSlot(large: seq<Large>, j: nat): (k: int)
    ensures k == -1 || (j <= k < |large| && large[k].alloc == None)
    decreases 5 - j
  {
    if j >= |large| || j >= 5 then -1 else if large[j].alloc == None then j else FreeSlot(large, j + 1)
  }

  // The fifth slot is still looked at.
  lemma FifthSlotIsReused(large: seq<Large>)
    requires |large| >= 5 && large[4].alloc == None && forall k :: 0 <= k < 4 ==> large[k].alloc != None
    ensures FreeSlot(large, 0) == 4
  {
    assert FreeSlot(large, 4) == 4 && FreeSlot(large, 3) == 4 && FreeSlot(large, 2) == 4;
  }

  // Just the first five slots are looked at.
  lemma {:induction false} SlotExactly(large: seq<Large>)
    ensures var k := FreeSlot(large, 0);
            && (k >= 0 ==> k < 5 && large[k].alloc == None && forall j :: 0 <= j < k ==> large[j].alloc != None)
            && (k == -1 ==> forall j :: 0 <= j < |large| && j < 5 ==> large[j].alloc != None)
  {
    SlotFrom(large, 0);
  }

  lemma {:induction false} SlotFrom(large: seq<Large>, i: nat)
    requires i <= 5
    ensures var k := FreeSlot(large, i);
            && (k >= 0 ==> k < 5 && forall j :: i <= j < k ==> large[j].alloc != None)
            && (k == -1 ==> forall j :: i <= j < |large| && j < 5 ==> large[j].alloc != None)
    decreases 5 - i
  {
    if i < |large| && i < 5 {
      SlotFrom(large, i + 1);
    }
  }

  // The pointer kept in a slot; a freed slot holds the null pointer.
  function AllocPointer(l: Large): nat {
    match l.alloc
    case None => 0
    case Some(r) => r.start
  }

  // Blocks with the same limits and only a header in use are safe when nothing is live.
  lemma Emptied(before: seq<Block>, blocks: seq<Block>, large: seq<Large>, live: set<Region>)
    requires SafeMemory(before, large, live) && |blocks| == |before|
    requires forall i :: 0 <= i < |blocks| ==>
               blocks[i] == Block(before[i].base, before[i].base + POOL_HEADER, before[i].end, 0) && before[i].base + POOL_HEADER <= before[i].end
    ensures SafeMemory(blocks, [], {})
  {
    forall i, j | 0 <= i < j < |blocks| ensures Disjoint(Whole(blocks[i]), Whole(blocks[j])) {
      assert Whole(blocks[i]) == Whole(before[i]) && Whole(blocks[j]) == Whole(before[j]);
    }
  }

  // The blocks keep their place and lose no used memory; a block may have been added.
  ghost predicate Grew(before: seq<Block>, blocks: seq<Block>, base: nat, psize: nat) {
    && |before| <= |blocks|
    && (forall i :: 0 <= i < |before| ==>
          blocks[i].base == before[i].base && blocks[i].end == before[i].end && blocks[i].last >= before[i].last)
    && (forall i :: |before| <= i < |blocks| ==> blocks[i].base == base && blocks[i].end == base + psize)
  }

  // The same for any number of added blocks.
  ghost predicate KeepsBlocks(before: seq<Block>, blocks: seq<Block>) {
    && |before| <= |blocks|
    && (forall i :: 0 <= i < |before| ==>
          blocks[i].base == before[i].base && blocks[i].end == before[i].end && blocks[i].last >= before[i].last)
  }

  lemma GrewKeepsBlocks(before: seq<Block>, blocks: seq<Block>, base: nat, psize: nat)
    requires Grew(before, blocks, base, psize)
    ensures KeepsBlocks(before, blocks)
  {
  }

  // r overlaps none of the given memory.
  ghost predicate Apart(given: set<Region>, r: Region) {
    forall g :: g in given ==> Disjoint(g, r)
  }

  lemma StillUnused(
      before: seq<Block>, blocks: seq<Block>, large: seq<Large>, live: set<Region>, live': set<Region>, r: Region,
      base: nat, psize: nat)
    requires SafeMemory(before, large, live) && SafeMemory(blocks, large, live')
    requires Unused(r, before, large) && Disjoint(r, Region(base, psize))
    requires Grew(before, blocks, base, psize)
    ensures Unused(r, blocks, large)
  {
    forall i | 0 <= i < |blocks| ensures Disjoint(Whole(blocks[i]), r) {
      if i < |before| {
        assert Whole(blocks[i]) == Whole(before[i]);
      }
    }
  }

  // Memory that overlaps neither what the pool owned nor what an allocation got stays unused.
  lemma UnusedAfterLarge(
      before: seq<Block>, blocks: seq<Block>, large: seq<Large>, large': seq<Large>, live: set<Region>, live': set<Region>,
      j: int, header: nat, given: Region, r: Region, base: nat, psize: nat)
    requires SafeMemory(before, large, live) && SafeMemory(blocks, large', live')
    requires -1 <= j < |large| && large' == Recorded(large, j, header, given)
    requires Unused(r, before, large) && Disjoint(r, Region(base, psize)) && Disjoint(given, r)
    requires Grew(before, blocks, base, psize)
    ensures Unused(r, blocks, large')
  {
    forall i | 0 <= i < |blocks| ensures Disjoint(Whole(blocks[i]), r) {
      if i < |before| {
        assert Whole(blocks[i]) == Whole(before[i]);
      }
    }
    forall k | 0 <= k < |large'| && large'[k].alloc.Some? ensures Disjoint(large'[k].alloc.value, r) {
      RecordedAt(large, j, header, given, k);
    }
  }

  lemma NewPoolIsSafe(base: nat, size: nat)
    requires base % POOL_ALIGNMENT == 0 && base + size < U64
    requires size >= POOL_HEADER && size % ALIGNMENT == 0
    ensures var blocks := [Block(base, base + POOL_HEADER, base + size, 0)];
            SafeMemory(blocks, [], {}) && Descending(blocks, 0)
  {
  }

  class MemoryPool {
    var blocks: seq<Block>
    var current: nat
    var max: nat
    var large: seq<Large>    // newest first, as on the chain
    ghost var live: set<Region>

    ghost function BlockSize(): nat
      reads this
      requires |blocks| > 0 && blocks[0].base <= blocks[0].end
    {
      blocks[0].end - blocks[0].base
    }

    ghost predicate Safe()
      reads this
    {
      && |blocks| > 0 && current < |blocks|
      && SafeMemory(blocks, large, live)
      && POOL_HEADER + max <= BlockSize()
      && (forall i :: 0 <= i < |blocks| ==> blocks[i].end - blocks[i].base == BlockSize())
    }

    // The address is one posix_memalign may return for a block of this pool.
    ghost predicate Available(base: nat)
      reads this
      requires Safe()
    {
      && base % POOL_ALIGNMENT == 0 && base + BlockSize() < U64
      && Unused(Region(base, BlockSize()), blocks, large)
    }

    // uct_create_pool
    constructor (base: nat, size: nat, pageSize: nat)
      requires base % POOL_ALIGNMENT == 0 && base + size < U64
      requires size >= POOL_HEADER && size % ALIGNMENT == 0 && pageSize > 0
      ensures Safe() && Descending(blocks, current) && live == {}
      ensures blocks == [Block(base, base + POOL_HEADER, base + size, 0)] && current == 0 && large == []
      ensures max == if size - POOL_HEADER < pageSize - 1 then size - POOL_HEADER else pageSize - 1
    {
      hide SafeMemory, Descending;
      NewPoolIsSafe(base, size);
      blocks := [Block(base, base + POOL_HEADER, base + size, 0)];
      max := if size - POOL_HEADER < pageSize - 1 then size - POOL_HEADER else pageSize - 1;
      current := 0;
      large := [];
      live := {};
    }

    // uct_palloc_small.  examined counts the blocks looked at.
    method PallocSmall(size: nat, align: bool, base: nat) returns (m: nat, examined: nat)
      requires Safe() && Available(base) && BLOCK_HEADER + size <= BlockSize()
      modifies this
      ensures Safe() && max == old(max) && large == old(large) && BlockSize() == old(BlockSize())
      ensures var k := FirstFit(old(blocks), old(current), size, align);
              if k < |old(blocks)| then
                && m == Place(old(blocks)[k], align) && current == old(current)
                && blocks == old(blocks)[k := old(blocks)[k].(last := m + size)]
              else
                && m == AlignUp(base + BLOCK_HEADER)
                && blocks == Missed(old(blocks), old(current)) + [NewBlock(base, old(BlockSize()), size)]
                && current == NewCurrent(old(blocks), old(current), |old(blocks)| - 1)
      ensures live == old(live) + (if size > 0 then {Region(m, size)} else {})
      ensures forall r :: r in old(live) ==> Disjoint(r, Region(m, size))
      ensures align ==> m % ALIGNMENT == 0
      ensures Grew(old(blocks), blocks, base, BlockSize())
      ensures examined == Examined(old(blocks), old(current), size, align)
      ensures old(Descending(blocks, current)) ==> Descending(blocks, current) && examined <= 7
    {
      hide SafeMemory, Unused, AlignUp, Fits, Place, Disjoint;
      var p := FindRoom(size, align);
      examined := p - current;
      if p < |blocks| {
        examined := examined + 1;
        m := Bump(p, size, align);
      } else {
        m := PallocBlock(size, base);
      }
    }

    // The allocation step of uct_palloc_small in a block that has room.
    method Bump(p: nat, size: nat, align: bool) returns (m: nat)
      requires Safe() && p < |blocks| && Fits(blocks[p], size, align)
      modifies this
      ensures Safe() && max == old(max) && large == old(large) && BlockSize() == old(BlockSize()) && current == old(current)
      ensures m == Place(old(blocks)[p], align)
      ensures blocks == old(blocks)[p := old(blocks)[p].(last := m + size)]
      ensures m >= old(blocks)[p].last
      ensures live == old(live) + (if size > 0 then {Region(m, size)} else {})
      ensures forall r :: r in old(live) ==> Disjoint(r, Region(m, size))
      ensures align ==> m % ALIGNMENT == 0
    {
      hide SafeMemory, AlignUp;
      GoodSizes(blocks, large, live);
      m := Place(blocks[p], align);
      FitsMeansRoom(blocks[p], size, align);
      Bumped(blocks, large, live, p, m, size);
      blocks := blocks[p := blocks[p].(last := m + size)];
      live := live + (if size > 0 then {Region(m, size)} else {});
    }

    // The search loop of uct_palloc_small.
    method FindRoom(size: nat, align: bool) returns (p: nat)
      requires current < |blocks|
      ensures p == FirstFit(blocks, current, size, align)
    {
      p := current;
      while p < |blocks|
        invariant current <= p <= |blocks|
        invariant FirstFit(blocks, p, size, align) == FirstFit(blocks, current, size, align)
      {
        var m := blocks[p].last;
        if align {
          m := AlignUp(m);
        }
        if (blocks[p].end - m) % U64 >= size {
          return;
        }
        p := p + 1;
      }
    }

    // uct_palloc_block
    method PallocBlock(size: nat, base: nat) returns (m: nat)
      requires Safe() && Available(base) && BLOCK_HEADER + size <= BlockSize()
      modifies this
      ensures Safe() && max == old(max) && large == old(large) && BlockSize() == old(BlockSize())
      ensures m == AlignUp(base + BLOCK_HEADER) && m % ALIGNMENT == 0
      ensures blocks == Missed(old(blocks), old(current)) + [NewBlock(base, old(BlockSize()), size)]
      ensures current == NewCurrent(old(blocks), old(current), |old(blocks)| - 1)
      ensures live == old(live) + (if size > 0 then {Region(m, size)} else {})
      ensures forall r :: r in old(live) ==> Disjoint(r, Region(m, size))
      ensures old(Descending(blocks, current)) ==> Descending(blocks, current)
    {
      hide SafeMemory, Unused, Descending, AlignUp, NewCurrent;
      GoodSizes(blocks, large, live);
      ghost var before, c0 := blocks, current;
      var psize := blocks[0].end - blocks[0].base;
      m := AlignUp(base + BLOCK_HEADER);
      var added := NewBlock(base, psize, size);
      Extended(before, c0, large, live, base, psize, size);
      CountMisses();
      blocks := blocks + [added];
      live := live + (if size > 0 then {Region(m, size)} else {});
      if Descending(before, c0) {
        DescendingKept(before, c0, added);
      }
    }

    // The loop of uct_palloc_block: every block searched but the last has failed once more.
    method CountMisses()
      requires current < |blocks|
      modifies this`blocks, this`current
      ensures blocks == Missed(old(blocks), old(current))
      ensures |blocks| == |old(blocks)| && forall i :: 0 <= i < |blocks| ==>
                var b := old(blocks)[i];
                blocks[i] == b.(failed := b.failed + (if old(current) <= i < |blocks| - 1 then 1 else 0))
      ensures current == NewCurrent(old(blocks), old(current), |old(blocks)| - 1)
    {
      ghost var before, c0 := blocks, current;
      var p := current;
      while p < |blocks| - 1
        invariant c0 <= p <= |blocks| - 1 && |blocks| == |before|
        invariant forall i :: 0 <= i < |blocks| ==>
          blocks[i] == if c0 <= i < p then before[i].(failed := before[i].failed + 1) else before[i]
        invariant current == NewCurrent(before, c0, p) && current <= p
      {
        var failed := blocks[p].failed;
        blocks := blocks[p := blocks[p].(failed := failed + 1)];
        if failed > 4 {
          current := p + 1;
        }
        p := p + 1;
      }
    }

    // The memory that an allocation of size bytes may be given.
    ghost function Given(size: nat, base: nat, mem: nat): set<Region>
      requires Safe()
      reads this
    {
      {Region(base, BlockSize())} + (if size > max then {Region(mem, size)} else {})
    }

    // What a caller can go on with: the limits stay, blocks keep their place and lose no used
    // memory, and what is unused stays unused, but for the memory that was given.
    twostate predicate Continues(given: set<Region>)
      requires old(Safe()) && Safe()
      reads this
    {
      && max == old(max) && BlockSize() == old(BlockSize())
      && KeepsBlocks(old(blocks), blocks)
      && forall r :: old(Unused(r, blocks, large)) && Apart(given, r) ==> Unused(r, blocks, large)
    }

    // uct_palloc (align) and uct_pnalloc (!align); mem is what malloc returns for a large request.
    method Alloc(size: nat, align: bool, base: nat, mem: nat) returns (p: nat)
      requires Safe() && Available(base)
      requires size > max ==> MallocGives(mem, size, base)
      modifies this
      ensures Safe() && max == old(max) && BlockSize() == old(BlockSize())
      ensures size > max ==> p == mem
      ensures size > 0 ==> Region(p, size) in live
      ensures old(live) <= live
      ensures forall r :: r in old(live) ==> Disjoint(r, Region(p, size))
      ensures size <= max && align ==> p % ALIGNMENT == 0
      ensures old(Descending(blocks, current)) ==> Descending(blocks, current)
      ensures Grew(old(blocks), blocks, base, BlockSize())
      ensures Continues(old(Given(size, base, mem)))
    {
      hide SafeMemory, Unused, Descending, Disjoint, Grew;
      ghost var given := Given(size, base, mem);
      if size <= max {
        var examined;
        p, examined := PallocSmall(size, align, base);
        forall r | old(Unused(r, blocks, large)) && Apart(given, r) ensures Unused(r, blocks, large) {
          DisjointIsSymmetric();
          StillUnused(old(blocks), blocks, large, old(live), live, r, base, BlockSize());
        }
      } else {
        p := PallocLarge(size, base, mem);
        forall r | old(Unused(r, blocks, large)) && Apart(given, r) ensures Unused(r, blocks, large) {
          DisjointIsSymmetric();
          UnusedAfterLarge(old(blocks), blocks, old(large), large, old(live), live, FreeSlot(old(large), 0),
                           large[0].header, Region(mem, size), r, base, BlockSize());
        }
      }
      GrewKeepsBlocks(old(blocks), blocks, base, BlockSize());
    }

    ghost predicate MallocGives(mem: nat, size: nat, base: nat)
      reads this
      requires Safe()
    {
      && Unused(Region(mem, size), blocks, large)
      && Disjoint(Region(mem, size), Region(base, BlockSize()))
    }

    // uct_palloc_large
    method PallocLarge(size: nat, base: nat, mem: nat) returns (p: nat)
      requires Safe() && Available(base) && size > 0 && MallocGives(mem, size, base)
      modifies this
      ensures Safe() && max == old(max) && BlockSize() == old(BlockSize()) && p == mem
      ensures var j := FreeSlot(old(large), 0);
              && large != []
              && large == Recorded(old(large), j, large[0].header, Region(mem, size))
              && live == old(live) + {Region(mem, size)} + (if j < 0 then {Region(large[0].header, LARGE_HEADER)} else {})
      ensures forall r :: r in old(live) ==> Disjoint(r, Region(mem, size))
      ensures old(Descending(blocks, current)) ==> Descending(blocks, current)
      ensures Grew(old(blocks), blocks, base, BlockSize())
    {
      hide SafeMemory, AlignUp, LargeApart, FirstFit, Missed, NewBlock, NewCurrent, Unused, Descending, Disjoint;
      p := mem;
      var j := FindSlot();
      if j >= 0 {
        LargeAdded(blocks, large, live, j, 0, Region(mem, size));
        large := large[j := large[j].(alloc := Some(Region(mem, size)))];
        live := live + {Region(mem, size)};
        return;
      }
      var header, examined := PallocSmall(LARGE_HEADER, true, base);
      StillUnused(old(blocks), blocks, large, old(live), live, Region(mem, size), base, BlockSize());
      LargeAdded(blocks, large, live, -1, header, Region(mem, size));
      large := [Large(header, Some(Region(mem, size)))] + large;
      live := live + {Region(mem, size)};
    }

    // The slot search of uct_palloc_large.
    method FindSlot() returns (slot: int)
      ensures slot == FreeSlot(large, 0)
    {
      var n := 0;
      var j := 0;
      while j < |large|
        invariant 0 <= j <= |large| && n == j <= 5
        invariant j < 5 || j == |large|
        invariant FreeSlot(large, j) == FreeSlot(large, 0)
      {
        if large[j].alloc == None {
          return j;
        }
        var over := n > 3;
        n := n + 1;
        if over {
          return -1;
        }
        j := j + 1;
      }
      return -1;
    }

    // uct_pfree
    method Pfree(p: nat) returns (ok: bool)
      requires Safe()
      modifies this`large, this`live
      ensures Safe()
      ensures ok <==> exists j :: 0 <= j < |old(large)| && AllocPointer(old(large)[j]) == p
      ensures !ok ==> large == old(large) && live == old(live)
      ensures ok ==> exists j :: 0 <= j < |old(large)| && AllocPointer(old(large)[j]) == p
                       && (forall i :: 0 <= i < j ==> AllocPointer(old(large)[i]) != p)
                       && large == old(large)[j := old(large)[j].(alloc := None)]
                       && live == old(live) - (if old(large)[j].alloc.Some? then {old(large)[j].alloc.value} else {})
    {
      hide SafeMemory;
      var j := 0;
      while j < |large|
        invariant unchanged(this) && 0 <= j <= |large|
        invariant forall i :: 0 <= i < j ==> AllocPointer(large[i]) != p
      {
        if AllocPointer(large[j]) == p {
          if large[j].alloc.Some? {
            LargeDropped(blocks, large, live, j);
            live := live - {large[j].alloc.value};
          } else {
            assert large[j := large[j].(alloc := None)] == large;
          }
          large := large[j := large[j].(alloc := None)];
          return true;
        }
        j := j + 1;
      }
      return false;
    }

    // uct_reset_pool: everything handed out is taken back.  The failed counts keep their shape only
    // for a chain of at most two blocks; what that means for the search is in module PoolSearch.
    method Reset()
      requires Safe()
      modifies this
      ensures Safe() && live == {} && large == [] && current == 0 && max == old(max)
      ensures |blocks| == |old(blocks)|
      ensures forall i :: 0 <= i < |blocks| ==>
        blocks[i] == Block(old(blocks)[i].base, old(blocks)[i].base + POOL_HEADER, old(blocks)[i].end, 0)
      ensures Descending(blocks, current) <==> |blocks| <= 2
    {
      ghost var before := blocks;
      var p := 0;
      while p < |blocks|
        invariant 0 <= p <= |blocks| == |before| && current == old(current) && max == old(max)
        invariant forall i :: 0 <= i < |blocks| ==>
          blocks[i] == if i < p then Block(before[i].base, before[i].base + POOL_HEADER, before[i].end, 0) else before[i]
      {
        blocks := blocks[p := blocks[p].(last := blocks[p].base + POOL_HEADER, failed := 0)];
        p := p + 1;
      }
      current := 0;
      large := [];
      live := {};
      Emptied(before, blocks, old(large), old(live));
      assert |blocks| > 2 ==> blocks[0].failed != |blocks| - 2;
    }
  }
}
