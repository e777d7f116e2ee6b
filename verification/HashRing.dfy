/**
 The consistent-hash ring of the ip_hash policy (src/uct_upstream.c): points
 are generated for every server, bubble sorted by hash, and looked up by a
 binary search that wraps to the first point.

 The hash of a point is an arbitrary function of the server and the point's number,
 so collisions are covered.
 */
module HashRing {
  import opened StableOrder

  datatype RingServer = RingServer(id: nat, weight: nat)

  datatype Point = Point(hash: nat, srv: nat)

  const POINTS_PER_WEIGHT: nat := 160

  function HashOf(): Point -> nat {
    (p: Point) => p.hash
  }

  function AtMost(): (nat, nat) -> bool {
    (x: nat, y: nat) => x <= y
  }

  function ServerPoints(s: RingServer, pointHash: (RingServer, nat) -> nat, n: nat): seq<Point> {
    seq(n, j requires 0 <= j < n => Point(pointHash(s, j), s.id))
  }

  // The points in the order in which they are pushed.
  function AllPoints(servers: seq<RingServer>, pointHash: (RingServer, nat) -> nat): seq<Point> {
    if servers == [] then []
    else
      var last := servers[|servers|-1];
      AllPoints(servers[..|servers|-1], pointHash) + ServerPoints(last, pointHash, last.weight * POINTS_PER_WEIGHT)
  }

  // The reference: the first point whose hash is at least key, scanning from the start.
  function FirstAtLeast(ring: seq<Point>, key: nat): (k: nat)
    ensures k <= |ring|
    ensures forall i :: 0 <= i < k ==> ring[i].hash < key
    ensures k < |ring| ==> ring[k].hash >= key
  {
    if ring == [] then 0
    else if ring[0].hash >= key then 0
    else
      var k := FirstAtLeast(ring[1..], key);
      assert forall i :: 0 < i < |ring| ==> ring[i] == ring[1..][i-1];
      k + 1
  }

  // The owner of a key: the first point at or after it, or point 0 past the end.
  function Owner(ring: seq<Point>, key: nat): Point
    requires ring != []
  {
    var k := FirstAtLeast(ring, key);
    if k == |ring| then ring[0] else ring[k]
  }

  lemma SwapKeepsClasses(s: seq<Point>, j: nat)
    requires j + 1 < |s| && s[j].hash > s[j+1].hash
    ensures SameClasses(s, s[j := s[j+1]][j+1 := s[j]], HashOf(), AtMost())
  {
    assert s == s[..j] + [s[j]] + [s[j+1]] + s[j+2..];
    assert s[j := s[j+1]][j+1 := s[j]] == s[..j] + [s[j+1]] + [s[j]] + s[j+2..];
    MovePast(s[..j], s[j+1], [s[j]], s[j+2..], HashOf(), AtMost());
  }

  class Ring {
    var points: array<Point>

    constructor (servers: seq<RingServer>, pointHash: (RingServer, nat) -> nat)
      ensures fresh(points)
      ensures StableSortOf(AllPoints(servers, pointHash), points[..], HashOf(), AtMost())
    {
      var built: seq<Point> := [];
      var i := 0;
      while i < |servers|
        invariant 0 <= i <= |servers|
        invariant built == AllPoints(servers[..i], pointHash)
      {
        var npoints := servers[i].weight * POINTS_PER_WEIGHT;
        ghost var soFar := built;
        var j := 0;
        while j < npoints
          invariant 0 <= j <= npoints
          invariant built == soFar + ServerPoints(servers[i], pointHash, j)
        {
          built := built + [Point(pointHash(servers[i], j), servers[i].id)];
          j := j + 1;
        }
        assert servers[..i+1][..i] == servers[..i];
        i := i + 1;
      }
      assert servers[..i] == servers;
      points := new Point[|built|](k requires 0 <= k < |built| => built[k]);
      new;
      assert points[..] == built;
      BubbleSort(points);
    }

    // uct_upstream_get_hash_point.  Without points number - 1 wraps, and the first probe reads outside
    // of the ring; inside says that this does not happen.
    method GetHashPoint(hash: nat) returns (inside: bool, i: nat)
      requires Sorted(points[..], HashOf(), AtMost())
      ensures inside <==> points.Length > 0
      ensures inside ==> i < points.Length && points[i] == Owner(points[..], hash)
      ensures inside ==> i == var k := FirstAtLeast(points[..], hash); if k == points.Length then 0 else k
    {
      var number := points.Length;
      i := 0;
      inside := number > 0;
      if !inside {
        return;
      }
      var j := number - 1;
      while i < j
        invariant 0 <= i <= j < number
        invariant forall k :: 0 <= k < i ==> points[k].hash < hash
        invariant j < number - 1 ==> points[j].hash >= hash
      {
        var k := (i + j) / 2;
        if points[k].hash < hash {
          assert forall m :: 0 <= m < k ==> AtMost()(HashOf()(points[..][m]), HashOf()(points[..][k]));
          i := k + 1;
        } else {
          j := k;
        }
      }
      if (i == number - 1 && points[i].hash < hash) || i > number - 1 {
        i := 0;
      }
    }

    // uct_upstream_next_valid_point: from the first point with this hash to the end of the
    // ring, without wrapping.  valid(s) stands for "up and is_fallback".
    method NextValidPoint(point: Point, valid: nat -> bool) returns (r: int)
      requires points.Length > 0 && point in points[..]
      requires Sorted(points[..], HashOf(), AtMost())
      ensures r == -1 || 0 <= r < points.Length
      ensures r == -1 <==> forall k :: 0 <= k < points.Length && points[k].hash >= point.hash ==> !valid(points[k].srv)
      ensures r >= 0 ==> points[r].hash >= point.hash && valid(points[r].srv)
      ensures r >= 0 ==> forall k :: 0 <= k < r && points[k].hash >= point.hash ==> !valid(points[k].srv)
    {
      var number := points.Length;
      var i := 0;
      var j := number - 1;
      while i < j
        invariant 0 <= i <= j < number
        invariant forall k :: 0 <= k < i ==> points[k].hash < point.hash
        invariant j < number - 1 ==> points[j].hash >= point.hash
      {
        var k := (i + j) / 2;
        if points[k].hash < point.hash {
          assert forall m :: 0 <= m < k ==> AtMost()(HashOf()(points[..][m]), HashOf()(points[..][k]));
          i := k + 1;
        } else {
          j := k;
        }
      }
      assert forall m :: i < m < number ==> AtMost()(HashOf()(points[..][i]), HashOf()(points[..][m]));
      ghost var at :| 0 <= at < number && points[at] == point;
      var k := i;
      while k < number
        invariant i <= k <= number
        invariant forall m :: i <= m < k ==> !valid(points[m].srv)
      {
        if valid(points[k].srv) {
          return k;
        }
        k := k + 1;
      }
      return -1;
    }
  }

  // The bubble sort of uct_upstream_init_hash_ring.
  method BubbleSort(points: array<Point>)
    modifies points
    ensures StableSortOf(old(points[..]), points[..], HashOf(), AtMost())
  {
    var number := points.Length;
    var i := 0;
    while i < number
      invariant 0 <= i <= number
      invariant SameClasses(old(points[..]), points[..], HashOf(), AtMost())
      invariant forall a, b :: 0 <= a < b < number && b >= number - i ==> points[a].hash <= points[b].hash
    {
      var j := 0;
      while j < number - i - 1
        invariant 0 <= j <= number - i - 1
        invariant SameClasses(old(points[..]), points[..], HashOf(), AtMost())
        invariant forall a, b :: 0 <= a < b < number && b >= number - i ==> points[a].hash <= points[b].hash
        invariant forall a :: 0 <= a < j ==> points[a].hash <= points[j].hash
      {
        if points[j].hash > points[j+1].hash {
          ghost var before := points[..];
          var tmp := points[j];
          points[j] := points[j+1];
          points[j+1] := tmp;
          SwapKeepsClasses(before, j);
          assert points[..] == before[j := before[j+1]][j+1 := before[j]];
        }
        j := j + 1;
      }
      i := i + 1;
    }
  }

  // The ring is empty, and a lookup reads outside of it, exactly when no server has weight.
  lemma {:induction false} EmptyRing(servers: seq<RingServer>, pointHash: (RingServer, nat) -> nat)
    ensures AllPoints(servers, pointHash) == [] <==> forall i :: 0 <= i < |servers| ==> servers[i].weight == 0
  {
    if servers != [] {
      var last := |servers| - 1;
      EmptyRing(servers[..last], pointHash);
      assert forall i :: 0 <= i < last ==> servers[..last][i] == servers[i];
      var n := servers[last].weight * POINTS_PER_WEIGHT;
      assert |ServerPoints(servers[last], pointHash, n)| == n;
    }
  }

  // ----- removing a server -----

  function WithoutServer(servers: seq<RingServer>, id: nat): seq<RingServer> {
    if servers == [] then []
    else
      var last := servers[|servers|-1];
      WithoutServer(servers[..|servers|-1], id) + (if last.id == id then [] else [last])
  }

  function WithoutPoints(s: seq<Point>, id: nat): seq<Point> {
    if s == [] then []
    else (if s[0].srv == id then [] else [s[0]]) + WithoutPoints(s[1..], id)
  }

  lemma {:induction false} WithoutConcat(a: seq<Point>, b: seq<Point>, id: nat)
    ensures WithoutPoints(a + b, id) == WithoutPoints(a, id) + WithoutPoints(b, id)
  {
    if a == [] {
      assert a + b == b;
    } else {
      assert (a + b)[1..] == a[1..] + b;
      WithoutConcat(a[1..], b, id);
    }
  }

  lemma {:induction false} WithoutUniform(s: seq<Point>, owner: nat, id: nat)
    requires forall i :: 0 <= i < |s| ==> s[i].srv == owner
    ensures WithoutPoints(s, id) == if owner == id then [] else s
  {
    if s != [] {
      WithoutUniform(s[1..], owner, id);
    }
  }

  lemma {:induction false} PointsOfTheRest(servers: seq<RingServer>, pointHash: (RingServer, nat) -> nat, id: nat)
    ensures AllPoints(WithoutServer(servers, id), pointHash) == WithoutPoints(AllPoints(servers, pointHash), id)
  {
    if servers != [] {
      var last := servers[|servers|-1];
      var init := servers[..|servers|-1];
      PointsOfTheRest(init, pointHash, id);
      var own := ServerPoints(last, pointHash, last.weight * POINTS_PER_WEIGHT);
      WithoutConcat(AllPoints(init, pointHash), own, id);
      WithoutUniform(own, last.id, id);
      if last.id != id {
        assert (WithoutServer(init, id) + [last])[..|WithoutServer(init, id)|] == WithoutServer(init, id);
      } else {
        assert WithoutServer(servers, id) == WithoutServer(init, id);
      }
    }
  }

  lemma {:induction false} WithoutCommutes(s: seq<Point>, x: nat, id: nat)
    ensures ClassOf(WithoutPoints(s, id), x, HashOf(), AtMost()) == WithoutPoints(ClassOf(s, x, HashOf(), AtMost()), id)
  {
    if s != [] {
      WithoutCommutes(s[1..], x, id);
      ClassOfConcat(if s[0].srv == id then [] else [s[0]], WithoutPoints(s[1..], id), x, HashOf(), AtMost());
      WithoutConcat(if Alike(s[0].hash, x, AtMost()) then [s[0]] else [], ClassOf(s[1..], x, HashOf(), AtMost()), id);
      assert ClassOf([s[0]], x, HashOf(), AtMost()) == if Alike(s[0].hash, x, AtMost()) then [s[0]] else [];
      assert WithoutPoints([s[0]], id) == if s[0].srv == id then [] else [s[0]];
    }
  }

  lemma {:induction false} WithoutStaysSorted(s: seq<Point>, id: nat)
    requires Sorted(s, HashOf(), AtMost())
    ensures Sorted(WithoutPoints(s, id), HashOf(), AtMost())
    ensures forall p :: p in WithoutPoints(s, id) <==> p in s && p.srv != id
  {
    if s != [] {
      WithoutStaysSorted(s[1..], id);
      assert s == [s[0]] + s[1..];
      var rest := WithoutPoints(s[1..], id);
      forall i | 0 <= i < |rest| ensures s[0].hash <= rest[i].hash {
        assert rest[i] in s[1..];
        var k :| 0 <= k < |s[1..]| && s[1..][k] == rest[i];
        assert AtMost()(HashOf()(s[0]), HashOf()(s[k+1]));
      }
    }
  }

  // Removing points of another server does not change which point comes first after the key.
  lemma {:induction false} FirstSurvives(s: seq<Point>, key: nat, id: nat)
    ensures var k := FirstAtLeast(s, key);
            var t := WithoutPoints(s, id);
            var m := FirstAtLeast(t, key);
            && (k < |s| && s[k].srv != id ==> m < |t| && t[m] == s[k])
            && (k == |s| ==> m == |t|)
  {
    if s != [] {
      FirstSurvives(s[1..], key, id);
      var rest := WithoutPoints(s[1..], id);
      if s[0].srv != id {
        assert WithoutPoints(s, id) == [s[0]] + rest;
        assert ([s[0]] + rest)[1..] == rest;
      } else {
        assert WithoutPoints(s, id) == rest;
      }
    }
  }

  /**
   Consistency: let ring be built from all servers and rest from all but server id.  Every key
   whose owner is another server keeps exactly the same owning point.
   */
  lemma {:induction false} RemovalMovesOnlyItsOwnKeys(servers: seq<RingServer>, pointHash: (RingServer, nat) -> nat, id: nat,
                                   ring: seq<Point>, rest: seq<Point>, key: nat)
    requires StableSortOf(AllPoints(servers, pointHash), ring, HashOf(), AtMost())
    requires StableSortOf(AllPoints(WithoutServer(servers, id), pointHash), rest, HashOf(), AtMost())
    requires ring != [] && Owner(ring, key).srv != id
    ensures rest != [] && Owner(rest, key) == Owner(ring, key)
  {
    RestIsFiltered(servers, pointHash, id, ring, rest);
    FirstSurvives(ring, key, id);
    if FirstAtLeast(ring, key) == |ring| {
      assert rest[0] == ring[0];
    }
  }

  lemma {:induction false} RestIsFiltered(servers: seq<RingServer>, pointHash: (RingServer, nat) -> nat, id: nat,
                       ring: seq<Point>, rest: seq<Point>)
    requires StableSortOf(AllPoints(servers, pointHash), ring, HashOf(), AtMost())
    requires StableSortOf(AllPoints(WithoutServer(servers, id), pointHash), rest, HashOf(), AtMost())
    ensures rest == WithoutPoints(ring, id)
  {
    var all := AllPoints(servers, pointHash);
    var kept := WithoutPoints(ring, id);
    PointsOfTheRest(servers, pointHash, id);
    WithoutStaysSorted(ring, id);
    forall x ensures ClassOf(rest, x, HashOf(), AtMost()) == ClassOf(kept, x, HashOf(), AtMost()) {
      WithoutCommutes(all, x, id);
      WithoutCommutes(ring, x, id);
      assert ClassOf(all, x, HashOf(), AtMost()) == ClassOf(ring, x, HashOf(), AtMost());
    }
    StableSortIsUnique(rest, kept, HashOf(), AtMost());
  }

  // md5_hash assembles a signed 32-bit value and converts it to an unsigned 64-bit one, which
  // sign-extends it.
  function SignExtended(x: nat): nat
    requires x < 0x1_0000_0000
  {
    if x >= 0x8000_0000 then 0x1_0000_0000_0000_0000 - 0x1_0000_0000 + x else x
  }

  // Read as signed numbers of 32 and 64 bits, the two are the same.
  lemma SignExtensionKeepsValue(x: nat)
    requires x < 0x1_0000_0000
    ensures var y := SignExtended(x);
            && 0 <= y < 0x1_0000_0000_0000_0000
            && (if y < 0x8000_0000_0000_0000 then y else y - 0x1_0000_0000_0000_0000)
               == if x < 0x8000_0000 then x else x - 0x1_0000_0000
  {
  }

  // Sign extension keeps the unsigned order, so the ring is sorted by the 32-bit hashes.
  lemma SignExtensionKeepsOrder(x: nat, y: nat)
    requires x < 0x1_0000_0000 && y < 0x1_0000_0000
    ensures x < y <==> SignExtended(x) < SignExtended(y)
  {
  }
}
