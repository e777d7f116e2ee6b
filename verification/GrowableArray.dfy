/**
 The growable array (src/uct_array.c) in a memory pool: when it is full it
 grows in place if it is the last thing in the pool's first block, and moves
 otherwise.  Its contents are bytes of a memory that it shares with every
 other region of the pool.
 */
module GrowableArray {
  import opened Pool

  type Byte = bv8

  const ARRAY_HEADER: nat := 40   // sizeof(uct_array_t)

  // The bytes of n elements.
  function Span(size: nat, n: nat): nat { size * n }

  lemma Spans(size: nat, n: nat, k: nat)
    ensures Span(size, n + k) == Span(size, n) + Span(size, k)
    ensures Span(size, 0) == 0 && Span(size, 1) == size
    ensures size > 0 && n > 0 ==> Span(size, n) > 0
  {
  }

  // Element i of n lies inside their span.
  lemma SpanInside(size: nat, i: nat, n: nat)
    requires i < n
    ensures Span(size, i) + size <= Span(size, n)
  {
    Spans(size, i, n - i);
    Spans(size, 1, n - i - 1);
  }

  // The byte at an address; memory that was never written reads as 0 here.
  function ByteAt(bytes: map<nat, Byte>, a: nat): Byte {
    if a in bytes then bytes[a] else 0
  }

  // Memory outside of n bytes at start is the same.
  ghost predicate Outside(before: map<nat, Byte>, bytes: map<nat, Byte>, start: nat, n: nat) {
    forall a: nat :: a < start || a >= start + n ==> ByteAt(bytes, a) == ByteAt(before, a)
  }

  function BytesAt(bytes: map<nat, Byte>, start: nat, n: nat): seq<Byte> {
    seq(n, k requires 0 <= k < n => ByteAt(bytes, start + k))
  }

  // A part of what was copied.
  lemma CopiedPart(before: map<nat, Byte>, bytes: map<nat, Byte>, from: nat, to: nat, n: nat, off: nat, size: nat)
    requires forall a :: to <= a < to + n ==> ByteAt(bytes, a) == ByteAt(before, a - to + from)
    requires off + size <= n
    ensures BytesAt(bytes, to + off, size) == BytesAt(before, from + off, size)
  {
  }

  lemma OutsideMore(before: map<nat, Byte>, bytes: map<nat, Byte>, start: nat, n: nat, m: nat)
    requires Outside(before, bytes, start, n) && n <= m
    ensures Outside(before, bytes, start, m)
  {
  }

  class Memory {
    var bytes: map<nat, Byte>

    constructor ()
      ensures bytes == map[]
    {
      bytes := map[];
    }

    // uct_memcpy between regions that do not overlap
    method Copy(to: nat, from: nat, n: nat)
      requires Disjoint(Region(to, n), Region(from, n))
      modifies this
      ensures Outside(old(bytes), bytes, to, n)
      ensures forall a :: to <= a < to + n ==> ByteAt(bytes, a) == ByteAt(old(bytes), a - to + from)
    {
      var before := bytes;
      var i := 0;
      while i < n
        invariant 0 <= i <= n
        invariant Outside(before, bytes, to, n)
        invariant forall a :: to <= a < to + i ==> ByteAt(bytes, a) == ByteAt(before, a - to + from)
      {
        ghost var prev := bytes;
        bytes := bytes[to + i := ByteAt(bytes, from + i)];
        forall a | to <= a < to + i + 1 ensures ByteAt(bytes, a) == ByteAt(before, a - to + from) {
          if a < to + i {
            assert ByteAt(bytes, a) == ByteAt(prev, a);
          } else {
            assert a == to + i;
          }
        }
        i := i + 1;
      }
    }

    // What the caller of uct_array_push does with the pointer it gets.
    method Store(to: nat, value: seq<Byte>)
      modifies this
      ensures Outside(old(bytes), bytes, to, |value|)
      ensures forall a :: to <= a < to + |value| ==> ByteAt(bytes, a) == value[a - to]
    {
      var before := bytes;
      var i := 0;
      while i < |value|
        invariant 0 <= i <= |value|
        invariant Outside(before, bytes, to, |value|)
        invariant forall a :: to <= a < to + i ==> ByteAt(bytes, a) == value[a - to]
      {
        ghost var prev := bytes;
        bytes := bytes[to + i := value[i]];
        forall a | to <= a < to + i + 1 ensures ByteAt(bytes, a) == value[a - to] {
          if a < to + i {
            assert ByteAt(bytes, a) == ByteAt(prev, a);
          } else {
            assert a == to + i;
          }
        }
        i := i + 1;
      }
    }
  }

  // A region outside of the first block does not end where that block is filled.
  lemma EndsElsewhere(blocks: seq<Block>, large: seq<Large>, live: set<Region>, r: Region)
    requires SafeMemory(blocks, large, live) && |blocks| > 0
    requires r in live && !InBlock(r, blocks[0], 0)
    ensures r.End() != blocks[0].last
  {
    assert GoodBlock(blocks[0], 0);
    if j :| 0 <= j < |large| && large[j].alloc == Some(r) {
      assert Disjoint(Whole(blocks[0]), r);
    } else {
      var i :| 0 <= i < |blocks| && InBlock(r, blocks[i], i);
      assert GoodBlock(blocks[i], i) && Disjoint(Whole(blocks[0]), Whole(blocks[i]));
    }
  }

  // A region that ends where the first block is filled lies in that block, behind all others.
  lemma TailOfFirst(blocks: seq<Block>, large: seq<Large>, live: set<Region>, r: Region)
    requires SafeMemory(blocks, large, live) && |blocks| > 0
    requires r in live && r.End() == blocks[0].last
    ensures InBlock(r, blocks[0], 0)
    ensures forall s :: s in live && s != r && InBlock(s, blocks[0], 0) ==> s.End() <= r.start
  {
    if !InBlock(r, blocks[0], 0) {
      EndsElsewhere(blocks, large, live, r);
    }
    assert forall s :: s in live && s != r ==> Disjoint(s, r) && s.len > 0;
  }

  // Moving the fill level of the first block while the tail region changes from r to t.
  lemma TailMoved(blocks: seq<Block>, large: seq<Large>, live: set<Region>, r: Region, last: nat, t: Region)
    requires SafeMemory(blocks, large, live) && |blocks| > 0
    requires r in live && r.End() == blocks[0].last && t.start == r.start && t.End() == last <= blocks[0].end
    ensures SafeMemory(blocks[0 := blocks[0].(last := last)], large, live - {r} + (if t.len > 0 then {t} else {}))
    ensures forall s :: s in live && s != r ==> Disjoint(s, t)
  {
    var bs := blocks[0 := blocks[0].(last := last)];
    TailOfFirst(blocks, large, live, r);
    forall s | s in live && s != r ensures Sheltered(s, bs, large) && Disjoint(s, t) {
      OthersStay(blocks, large, live, r, last, t, s);
    }
    assert t.len > 0 ==> InBlock(t, bs[0], 0);
    SameWholes(blocks, bs, large);
  }

  // Giving the tail region back.
  lemma TailDropped(blocks: seq<Block>, large: seq<Large>, live: set<Region>, r: Region)
    requires SafeMemory(blocks, large, live) && |blocks| > 0
    requires r in live && r.End() == blocks[0].last
    ensures SafeMemory(blocks[0 := blocks[0].(last := r.start)], large, live - {r})
  {
    TailMoved(blocks, large, live, r, r.start, Region(r.start, 0));
    assert live - {r} + {} == live - {r};
  }

  lemma OthersStay(blocks: seq<Block>, large: seq<Large>, live: set<Region>, r: Region, last: nat, t: Region, s: Region)
    requires SafeMemory(blocks, large, live) && |blocks| > 0
    requires r in live && r.End() == blocks[0].last && t.start == r.start && t.End() == last <= blocks[0].end
    requires s in live && s != r
    ensures Sheltered(s, blocks[0 := blocks[0].(last := last)], large) && Disjoint(s, t)
  {
    var bs := blocks[0 := blocks[0].(last := last)];
    TailOfFirst(blocks, large, live, r);
    if j :| 0 <= j < |large| && large[j].alloc == Some(s) {
      assert Disjoint(Whole(blocks[0]), s);
    } else {
      var i :| 0 <= i < |blocks| && InBlock(s, blocks[i], i);
      assert InBlock(s, bs[i], i);
      if i > 0 {
        assert Disjoint(Whole(blocks[0]), Whole(blocks[i]));
      }
    }
  }

  lemma LiveApart(blocks: seq<Block>, large: seq<Large>, live: set<Region>, r: Region)
    requires SafeMemory(blocks, large, live)
    ensures r in live ==> forall s :: s in live && s != r ==> Disjoint(s, r)
  {
  }

  class PoolArray {
    const pool: MemoryPool
    const memory: Memory
    const size: nat
    const addr: nat       // where the uct_array_t itself is
    var elts: nat
    var nelts: nat
    var nalloc: nat

    // uct_array_init, for a uct_array_t at addr
    constructor (pool: MemoryPool, memory: Memory, n: nat, size: nat, addr: nat, base: nat, mem: nat)
      requires pool.Safe() && size > 0
      requires pool.Available(base) && (Span(size, n) > pool.max ==> pool.MallocGives(mem, Span(size, n), base))
      modifies pool
      ensures Valid() && this.pool == pool && this.memory == memory && this.size == size && this.addr == addr
      ensures nelts == 0 && nalloc == n
      ensures old(pool.live) <= pool.live && forall r :: r in old(pool.live) ==> Disjoint(r, Extent())
      ensures pool.Continues(old(pool.Given(Span(size, n), base, mem)))
      ensures old(Descending(pool.blocks, pool.current)) ==> Descending(pool.blocks, pool.current)
    {
      Spans(size, 0, n);
      assert n > 0 ==> Span(size, n) > 0;
      hide SafeMemory, Span, Descending, Unused, Disjoint, Grew, MemoryPool.Continues, MemoryPool.Given;
      var data := pool.Alloc(Span(size, n), true, base, mem);
      this.pool := pool;
      this.memory := memory;
      this.size := size;
      this.addr := addr;
      nelts := 0;
      nalloc := n;
      elts := data;
    }

    /**
     uct_array_create: the uct_array_t comes from the pool as well.  base and mem are what the
     allocators would return for it, base' and mem' for the elements; memory that the first
     allocation was given is not given again.
     */
    static method Create(pool: MemoryPool, memory: Memory, n: nat, size: nat, base: nat, mem: nat, base': nat, mem': nat)
      returns (a: PoolArray)
      requires pool.Safe() && size > 0 && pool.Available(base) && pool.Available(base')
      requires ARRAY_HEADER > pool.max ==> pool.MallocGives(mem, ARRAY_HEADER, base)
      requires Span(size, n) > pool.max ==> pool.MallocGives(mem', Span(size, n), base')
      requires forall r :: r in pool.Given(Span(size, n), base', mem') ==> Apart(pool.Given(ARRAY_HEADER, base, mem), r)
      modifies pool
      ensures fresh(a) && a.Valid() && a.pool == pool && a.memory == memory && a.size == size
      ensures a.nelts == 0 && a.nalloc == n
      ensures Region(a.addr, ARRAY_HEADER) in pool.live && Region(a.addr, ARRAY_HEADER) != a.Extent()
      ensures old(pool.live) <= pool.live
      ensures forall r :: r in old(pool.live) ==> Disjoint(r, a.Extent()) && Disjoint(r, Region(a.addr, ARRAY_HEADER))
      ensures Disjoint(Region(a.addr, ARRAY_HEADER), a.Extent())
      ensures pool.Continues(old(pool.Given(ARRAY_HEADER, base, mem) + pool.Given(Span(size, n), base', mem')))
      ensures old(Descending(pool.blocks, pool.current)) ==> Descending(pool.blocks, pool.current)
    {
      hide SafeMemory, Unused, Descending, Grew;
      var addr := pool.Alloc(ARRAY_HEADER, true, base, mem);
      a := new PoolArray(pool, memory, n, size, addr, base', mem');
    }

    ghost function Extent(): Region
      reads this
    {
      Region(elts, Span(size, nalloc))
    }

    ghost predicate Valid()
      reads this, pool
    {
      pool.Safe() && size > 0 && nelts <= nalloc && (nalloc > 0 ==> Extent() in pool.live)
    }

    // Element i, as bytes in memory.
    ghost function Elem(i: nat): seq<Byte>
      reads this, memory
    {
      BytesAt(memory.bytes, elts + Span(size, i), size)
    }

    ghost predicate Holds(contents: seq<seq<Byte>>)
      reads this, memory
    {
      nelts == |contents| && forall i :: 0 <= i < nelts ==> Elem(i) == contents[i]
    }

    // The array is the last thing in the first block and extra more bytes fit behind it.
    ghost predicate CanGrowInPlace(extra: nat)
      reads this, pool
      requires |pool.blocks| > 0
    {
      Extent().End() == pool.blocks[0].last && pool.blocks[0].last + extra <= pool.blocks[0].end
    }

    // Room for the reallocation: what posix_memalign and malloc would return.
    ghost predicate AllocatorReady(n: nat, base: nat, mem: nat)
      reads pool
      requires pool.Safe()
    {
      pool.Available(base) && (n > pool.max ==> pool.MallocGives(mem, n, base))
    }

    // Memory outside of the array's extent is as it was, and so are the first n elements.
    twostate predicate OnlyGrew(n: nat)
      reads this, memory
    {
      && Outside(old(memory.bytes), memory.bytes, Extent().start, Extent().len)
      && (forall i :: 0 <= i < n ==> Elem(i) == old(Elem(i)))
    }

    // The in-place growth of uct_array_push and uct_array_push_n by k elements.
    method GrowInPlace(k: nat, ghost given: set<Region>)
      requires Valid() && CanGrowInPlace(Span(size, k))
      modifies this`nalloc, pool
      ensures Valid() && nalloc == old(nalloc) + k && pool.max == old(pool.max)
      ensures forall r :: r in old(pool.live) && r != old(Extent()) ==> r in pool.live && Disjoint(r, Extent())
      ensures pool.Continues(given)
      ensures old(Descending(pool.blocks, pool.current)) ==> Descending(pool.blocks, pool.current)
    {
      hide SafeMemory;
      Spans(size, nalloc, k);
      Spans(size, nalloc + k, 0);
      ghost var t := Region(elts, Span(size, nalloc + k));
      ghost var r := Extent();
      var last := pool.blocks[0].last + Span(size, k);
      if nalloc > 0 {
        TailMoved(pool.blocks, pool.large, pool.live, r, last, t);
        pool.live := pool.live - {r} + (if t.len > 0 then {t} else {});
      } else {
        Bumped(pool.blocks, pool.large, pool.live, 0, elts, Span(size, k));
        pool.live := pool.live + (if t.len > 0 then {t} else {});
      }
      pool.blocks := pool.blocks[0 := pool.blocks[0].(last := last)];
      nalloc := nalloc + k;
    }

    // No growth at all.
    ghost method Stay(given: set<Region>)
      requires pool.Safe()
      ensures pool.Continues(given)
    {
    }

    // The reallocation of uct_array_push and uct_array_push_n: room for n elements elsewhere.
    method Move(n: nat, base: nat, mem: nat)
      requires Valid() && n >= nalloc && AllocatorReady(Span(size, n), base, mem)
      modifies this`elts, this`nalloc, pool, memory
      ensures Valid() && nalloc == n && pool.max == old(pool.max)
      ensures forall r :: r in old(pool.live) ==> r in pool.live && Disjoint(r, Extent())
      ensures OnlyGrew(nelts)
      ensures pool.Continues(old(pool.Given(Span(size, n), base, mem)))
      ensures old(Descending(pool.blocks, pool.current)) ==> Descending(pool.blocks, pool.current)
    {
      hide SafeMemory, Disjoint, Span, Descending, Unused, Grew,
           MemoryPool.Continues, MemoryPool.Given, MemoryPool.Available, MemoryPool.MallocGives;
      Spans(size, nelts, nalloc - nelts);
      Spans(size, nalloc, n - nalloc);
      Spans(size, n, 0);
      Spans(size, nelts, n - nelts);
      assert Span(size, nelts) <= Span(size, n);
      ghost var from := Extent();
      var to := pool.Alloc(Span(size, n), true, base, mem);
      CopyApart(from, to, Span(size, n), Span(size, nelts), nalloc > 0);
      Relocate(to, n);
    }

    // The copy of the elements to their new place.
    method Relocate(to: nat, n: nat)
      requires nelts <= n && Disjoint(Region(to, Span(size, nelts)), Region(elts, Span(size, nelts)))
      modifies this`elts, this`nalloc, memory
      ensures elts == to && nalloc == n && OnlyGrew(nelts)
    {
      hide Span, Disjoint, Outside, ByteAt, BytesAt;
      ghost var before, from := memory.bytes, elts;
      Spans(size, nelts, n - nelts);
      memory.Copy(to, elts, Span(size, nelts));
      elts := to;
      nalloc := n;
      OutsideMore(before, memory.bytes, to, Span(size, nelts), Span(size, n));
      forall i | 0 <= i < nelts
        ensures Elem(i) == old(Elem(i))
      {
        SpanInside(size, i, nelts);
        CopiedPart(before, memory.bytes, from, to, Span(size, nelts), Span(size, i), size);
      }
    }

    lemma CopyApart(from: Region, to: nat, n: nat, k: nat, inUse: bool)
      requires inUse ==> Disjoint(from, Region(to, n))
      requires k <= n && k <= from.len && (!inUse ==> k == 0)
      ensures Disjoint(Region(to, k), Region(from.start, k))
    {
    }

    // What uct_array_push and uct_array_push_n do when k more elements do not fit: grow by k at the
    // end of the first block, or move to room for n elements.
    method MakeRoom(k: nat, n: nat, base: nat, mem: nat)
      requires Valid() && n >= nalloc && AllocatorReady(Span(size, n), base, mem)
      modifies this`elts, this`nalloc, pool, memory
      ensures Valid() && nalloc == old(if CanGrowInPlace(Span(size, k)) then nalloc + k else n)
      ensures forall r :: r in old(pool.live) && r != old(Extent()) ==> r in pool.live && Disjoint(r, Extent())
      ensures OnlyGrew(nelts)
      ensures pool.Continues(old(pool.Given(Span(size, n), base, mem)))
      ensures old(Descending(pool.blocks, pool.current)) ==> Descending(pool.blocks, pool.current)
    {
      hide SafeMemory, Disjoint, Span, Descending, Unused, Grew,
           MemoryPool.Continues, MemoryPool.Given, MemoryPool.Available, MemoryPool.MallocGives;
      Spans(size, nalloc, k);
      if elts + Span(size, nalloc) == pool.blocks[0].last && pool.blocks[0].last + Span(size, k) <= pool.blocks[0].end {
        GrowInPlace(k, pool.Given(Span(size, n), base, mem));
      } else {
        Move(n, base, mem);
      }
    }

    // uct_array_push returns the place of the new element.
    method Push(base: nat, mem: nat) returns (elt: nat)
      requires Valid() && AllocatorReady(2 * Span(size, nalloc), base, mem)
      modifies this, pool, memory
      ensures pool.Safe() && nelts == old(nelts) + 1 && elt == elts + Span(size, old(nelts))
      ensures Valid() <==> old(nelts < nalloc || nalloc > 0 || CanGrowInPlace(size))
      ensures nalloc == old(if nelts < nalloc then nalloc else if CanGrowInPlace(size) then nalloc + 1 else 2 * nalloc)
      ensures forall r :: r in old(pool.live) && r != old(Extent()) ==> r in pool.live && (Valid() ==> Disjoint(r, Extent()))
      ensures OnlyGrew(old(nelts))
      ensures pool.Continues(old(pool.Given(2 * Span(size, nalloc), base, mem)))
      ensures old(Descending(pool.blocks, pool.current)) ==> Descending(pool.blocks, pool.current)
      ensures Valid() ==> Extent().start <= elt && elt + size <= Extent().End()
    {
      hide SafeMemory, Disjoint, Span, Descending, Unused, Grew,
           MemoryPool.Continues, MemoryPool.Given, MemoryPool.Available, MemoryPool.MallocGives;
      ghost var given := pool.Given(2 * Span(size, nalloc), base, mem);
      Spans(size, nalloc, 1);
      Spans(size, nalloc, nalloc);
      Spans(size, nalloc, 0);
      LiveApart(pool.blocks, pool.large, pool.live, Extent());
      if nelts == nalloc {
        MakeRoom(1, 2 * nalloc, base, mem);
      } else {
        Stay(given);
      }
      elt := elts + Span(size, nelts);
      nelts := nelts + 1;
      if nelts <= nalloc {
        SpanInside(size, nelts - 1, nalloc);
      }
    }

    // uct_array_push_n returns the place of the first of n new elements.
    method PushN(n: nat, base: nat, mem: nat) returns (elt: nat)
      requires Valid() && AllocatorReady(Span(size, 2 * (if n >= nalloc then n else nalloc)), base, mem)
      modifies this, pool, memory
      ensures Valid() && nelts == old(nelts) + n && elt == elts + Span(size, old(nelts))
      ensures forall r :: r in old(pool.live) && r != old(Extent()) ==> r in pool.live && (nalloc > 0 ==> Disjoint(r, Extent()))
      ensures OnlyGrew(old(nelts))
      ensures pool.Continues(old(pool.Given(Span(size, 2 * (if n >= nalloc then n else nalloc)), base, mem)))
      ensures old(Descending(pool.blocks, pool.current)) ==> Descending(pool.blocks, pool.current)
      ensures Extent().start <= elt && elt + Span(size, n) <= Extent().End()
    {
      hide SafeMemory, Disjoint, Span, Descending, Unused, Grew,
           MemoryPool.Continues, MemoryPool.Given, MemoryPool.Available, MemoryPool.MallocGives;
      ghost var given := pool.Given(Span(size, 2 * (if n >= nalloc then n else nalloc)), base, mem);
      LiveApart(pool.blocks, pool.large, pool.live, Extent());
      if nelts + n > nalloc {
        MakeRoom(n, 2 * (if n >= nalloc then n else nalloc), base, mem);
      } else {
        Stay(given);
      }
      elt := elts + Span(size, nelts);
      Spans(size, nelts, n);
      Spans(size, nelts + n, nalloc - (nelts + n));
      nelts := nelts + n;
    }

    // uct_array_destroy gives back the elements, and then the uct_array_t itself, as far as each
    // is the last thing in the first block.
    method Destroy()
      requires Valid() && Region(addr, ARRAY_HEADER) in pool.live && Region(addr, ARRAY_HEADER) != Extent()
      modifies pool
      ensures pool.Safe() && pool.large == old(pool.large) && pool.max == old(pool.max)
      ensures var header := Region(addr, ARRAY_HEADER);
              var last := old(pool.blocks[0].last);
              var elementsLast := nalloc > 0 && Extent().End() == last;
              var headerLast := header.End() == if elementsLast then elts else last;
              && pool.live == old(pool.live) - (if elementsLast then {Extent()} else {}) - (if headerLast then {header} else {})
              && pool.blocks == old(pool.blocks)[0 := old(pool.blocks)[0].(
                   last := if headerLast then addr else if elementsLast then elts else last)]
    {
      hide SafeMemory;
      Spans(size, nalloc, 0);
      var first := pool.blocks[0];
      ghost var header := Region(addr, ARRAY_HEADER);
      LiveApart(pool.blocks, pool.large, pool.live, Extent());
      if elts + Span(size, nalloc) == first.last {
        if nalloc > 0 {
          TailDropped(pool.blocks, pool.large, pool.live, Extent());
          pool.live := pool.live - {Extent()};
        } else {
          assert pool.blocks[0 := first.(last := first.last - Span(size, nalloc))] == pool.blocks;
        }
        first := first.(last := first.last - Span(size, nalloc));
        pool.blocks := pool.blocks[0 := first];
      }
      if addr + ARRAY_HEADER == first.last {
        TailDropped(pool.blocks, pool.large, pool.live, header);
        pool.live := pool.live - {header};
        first := first.(last := addr);
        pool.blocks := pool.blocks[0 := first];
      }
    }

    /** Pushing and filling the new element appends it to the contents and leaves all other memory alone. */
    method Append(value: seq<Byte>, base: nat, mem: nat, ghost contents: seq<seq<Byte>>)
      requires Valid() && AllocatorReady(2 * Span(size, nalloc), base, mem)
      requires |value| == size && Holds(contents) && (nalloc > 0 || CanGrowInPlace(size))
      modifies this, pool, memory
      ensures Valid() && Holds(contents + [value])
      ensures nalloc == old(if nelts < nalloc then nalloc else if CanGrowInPlace(size) then nalloc + 1 else 2 * nalloc)
      ensures pool.Continues(old(pool.Given(2 * Span(size, nalloc), base, mem)))
      ensures forall r :: r in old(pool.live) && r != old(Extent()) ==>
                r in pool.live && forall a :: r.start <= a < r.End() ==> ByteAt(memory.bytes, a) == ByteAt(old(memory.bytes), a)
    {
      hide SafeMemory, Span, Descending, Unused, Elem, MemoryPool.Continues, MemoryPool.Given, MemoryPool.Available;
      var elt := Push(base, mem);
      Fill(elt, value);
    }

    // Writing the last element.
    method Fill(elt: nat, value: seq<Byte>)
      requires nelts > 0 && elt == elts + Span(size, nelts - 1) && |value| == size
      modifies memory
      ensures Elem(nelts - 1) == value && forall i :: 0 <= i < nelts - 1 ==> Elem(i) == old(Elem(i))
      ensures Outside(old(memory.bytes), memory.bytes, elt, size)
    {
      hide Span;
      memory.Store(elt, value);
      forall i | 0 <= i < nelts - 1 ensures Elem(i) == old(Elem(i)) {
        SpanInside(size, i, nelts - 1);
      }
    }
  }

  /**
   An array created for no elements has no capacity to double: in a pool of 160 bytes one for elements
   of 1000 bytes is no longer valid after the first push.
   */
  method PushWithoutCapacityFails() returns (a: PoolArray)
    ensures fresh(a) && a.nelts == 1 && a.nalloc == 0 && !a.Valid()
  {
    hide SafeMemory, Descending, Sheltered;
    var pool := new MemoryPool(1600, 160, 4096);
    var memory := new Memory();
    Spans(1000, 0, 0);
    assert Span(1000, 0) == 0 && ARRAY_HEADER <= pool.max == 80;
    assert pool.Available(3200) && pool.Available(4800) && Unused(Region(6400, 160), pool.blocks, pool.large);
    a := PoolArray.Create(pool, memory, 0, 1000, 3200, 0, 4800, 0);
    assert pool.Available(6400);
    assert !a.CanGrowInPlace(1000);
    var elt := a.Push(6400, 0);
  }
}
