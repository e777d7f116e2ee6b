/**
 What the hash ring holds and finds, in terms of the servers and the hashes of their points: server k
 of weight w has the points 0, 1, ... up to 160 * w.
 */
module RingPoints {
  import opened StableOrder
  import opened HashRing

  function TotalWeight(servers: seq<RingServer>): nat {
    if servers == [] then 0 else TotalWeight(servers[..|servers|-1]) + servers[|servers|-1].weight
  }

  lemma {:induction false} SomeWeight(servers: seq<RingServer>)
    ensures TotalWeight(servers) > 0 <==> exists i :: 0 <= i < |servers| && servers[i].weight > 0
  {
    if servers != [] {
      var last := |servers| - 1;
      SomeWeight(servers[..last]);
      assert forall i :: 0 <= i < last ==> servers[..last][i] == servers[i];
    }
  }

  // How many of the first n points of a server have a hash.
  function Hits(s: RingServer, pointHash: (RingServer, nat) -> nat, n: nat, hash: nat): nat {
    if n == 0 then 0 else Hits(s, pointHash, n - 1, hash) + (if pointHash(s, n - 1) == hash then 1 else 0)
  }

  // How many pairs of a server and a number give the point p.
  function Copies(servers: seq<RingServer>, pointHash: (RingServer, nat) -> nat, p: Point): nat {
    if servers == [] then 0
    else
      var last := servers[|servers|-1];
      Copies(servers[..|servers|-1], pointHash, p)
      + (if last.id == p.srv then Hits(last, pointHash, 160 * last.weight, p.hash) else 0)
  }

  // Point j of server k is p.
  ghost predicate IsPoint(servers: seq<RingServer>, pointHash: (RingServer, nat) -> nat, k: nat, j: nat, p: Point) {
    && k < |servers| && j < 160 * servers[k].weight
    && p == Point(pointHash(servers[k], j), servers[k].id)
  }

  // ----- what is generated -----

  lemma {:induction false} OwnPoints(s: RingServer, pointHash: (RingServer, nat) -> nat, n: nat, p: Point)
    ensures |ServerPoints(s, pointHash, n)| == n
    ensures multiset(ServerPoints(s, pointHash, n))[p] == if p.srv == s.id then Hits(s, pointHash, n, p.hash) else 0
  {
    if n > 0 {
      OwnPoints(s, pointHash, n - 1, p);
      assert ServerPoints(s, pointHash, n) == ServerPoints(s, pointHash, n - 1) + [Point(pointHash(s, n - 1), s.id)];
    }
  }

  lemma {:induction false} Generated(servers: seq<RingServer>, pointHash: (RingServer, nat) -> nat, p: Point)
    ensures |AllPoints(servers, pointHash)| == 160 * TotalWeight(servers)
    ensures multiset(AllPoints(servers, pointHash))[p] == Copies(servers, pointHash, p)
  {
    if servers != [] {
      hide ServerPoints, Hits;
      var last := servers[|servers|-1];
      var front, own := AllPoints(servers[..|servers|-1], pointHash), ServerPoints(last, pointHash, 160 * last.weight);
      Generated(servers[..|servers|-1], pointHash, p);
      OwnPoints(last, pointHash, 160 * last.weight, p);
      assert AllPoints(servers, pointHash) == front + own;
      assert multiset(front + own) == multiset(front) + multiset(own);
    }
  }

  // No point before server k has hash x.
  ghost predicate NoneBefore(servers: seq<RingServer>, pointHash: (RingServer, nat) -> nat, x: nat, k: nat) {
    forall k', j' :: 0 <= k' < k && k' < |servers| && 0 <= j' < 160 * servers[k'].weight ==> pointHash(servers[k'], j') != x
  }

  // The first point generated with hash x belongs to the first server that has one.
  lemma {:induction false} FirstGenerated(servers: seq<RingServer>, pointHash: (RingServer, nat) -> nat, x: nat)
    returns (k: nat, j: nat)
    ensures var same := ClassOf(AllPoints(servers, pointHash), x, HashOf(), AtMost());
            if same == [] then k == |servers|
            else IsPoint(servers, pointHash, k, j, same[0]) && same[0].hash == x
    ensures NoneBefore(servers, pointHash, x, k)
  {
    if servers == [] {
      return 0, 0;
    }
    hide ServerPoints, ClassOf, Alike;
    var n := |servers| - 1;
    var init, last := servers[..n], servers[n];
    k, j := FirstGenerated(init, pointHash, x);
    assert forall i :: 0 <= i < n ==> init[i] == servers[i];
    var front, own := AllPoints(init, pointHash), ServerPoints(last, pointHash, 160 * last.weight);
    assert AllPoints(servers, pointHash) == front + own;
    ClassOfConcat(front, own, x, HashOf(), AtMost());
    if ClassOf(front, x, HashOf(), AtMost()) == [] {
      var found;
      found, j := FirstOwn(last, pointHash, 160 * last.weight, x);
      if !found {
        k := n + 1;
      }
    }
  }

  lemma {:induction false} FirstOwn(s: RingServer, pointHash: (RingServer, nat) -> nat, n: nat, x: nat) returns (found: bool, j: nat)
    ensures var same := ClassOf(ServerPoints(s, pointHash, n), x, HashOf(), AtMost());
            && (found <==> same != [])
            && (found ==> j < n && pointHash(s, j) == x && same[0] == Point(x, s.id))
    ensures !found ==> forall j' :: 0 <= j' < n ==> pointHash(s, j') != x
  {
    var own := ServerPoints(s, pointHash, n);
    var same := ClassOf(own, x, HashOf(), AtMost());
    ClassMembers(own, x, HashOf(), AtMost());
    found, j := same != [], 0;
    if found {
      assert same[0] in own;
      j :| 0 <= j < |own| && own[j] == same[0];
    } else {
      forall j' | 0 <= j' < n ensures pointHash(s, j') != x {
        assert own[j'] in own;
      }
    }
  }

  // ----- what is found -----

  // The first point with its hash heads the class of that hash.
  lemma HeadOfClass(ring: seq<Point>, i: nat)
    requires i < |ring| && forall m :: 0 <= m < i ==> ring[m].hash != ring[i].hash
    ensures var same := ClassOf(ring, ring[i].hash, HashOf(), AtMost()); same != [] && same[0] == ring[i]
  {
    var x := ring[i].hash;
    assert ring == ring[..i] + ring[i..];
    ClassOfConcat(ring[..i], ring[i..], x, HashOf(), AtMost());
    NoneAlike(ring[..i], x, HashOf(), AtMost());
  }

  // The point looked up is the one with the least hash at or above the key, or with the least hash
  // of all if there is none.
  lemma OwnerIsNearest(ring: seq<Point>, key: nat)
    requires ring != [] && Sorted(ring, HashOf(), AtMost())
    ensures var p := Owner(ring, key);
            && p in ring
            && (forall q :: q in ring && q.hash >= key ==> key <= p.hash <= q.hash)
            && (forall q :: q in ring && p.hash < key ==> p.hash <= q.hash)
            && (var same := ClassOf(ring, p.hash, HashOf(), AtMost()); same != [] && same[0] == p)
  {
    var k := FirstAtLeast(ring, key);
    var at := if k == |ring| then 0 else k;
    forall q | q in ring ensures k < |ring| && q.hash >= key ==> ring[k].hash <= q.hash {
      var m :| 0 <= m < |ring| && ring[m] == q;
      if k < m {
        assert AtMost()(HashOf()(ring[k]), HashOf()(ring[m]));
      }
    }
    forall q | q in ring ensures ring[0].hash <= q.hash {
      var m :| 0 <= m < |ring| && ring[m] == q;
      if 0 < m {
        assert AtMost()(HashOf()(ring[0]), HashOf()(ring[m]));
      }
    }
    HeadOfClass(ring, at);
  }

  lemma {:induction false} EveryPointIsThere(servers: seq<RingServer>, pointHash: (RingServer, nat) -> nat, ring: seq<Point>, k: nat, j: nat)
    requires StableSortOf(AllPoints(servers, pointHash), ring, HashOf(), AtMost())
    requires k < |servers| && j < 160 * servers[k].weight
    ensures exists q :: q in ring && q.hash == pointHash(servers[k], j)
  {
    var x := pointHash(servers[k], j);
    var k0, j0 := FirstGenerated(servers, pointHash, x);
    var same := ClassOf(ring, x, HashOf(), AtMost());
    ClassMembers(ring, x, HashOf(), AtMost());
    assert same != [] by {
      assert same == ClassOf(AllPoints(servers, pointHash), x, HashOf(), AtMost());
    }
    assert same[0] in ring;
  }

  /**
   What a key finds in any ring built for the servers: a point of theirs whose hash is the least of
   all hashes at or above the key, or the least of all hashes if all are below it; where hashes
   collide, one of the first server that has that hash.
   */
  lemma {:induction false} KeyFindsNearest(servers: seq<RingServer>, pointHash: (RingServer, nat) -> nat, ring: seq<Point>, key: nat)
    returns (k: nat, j: nat)
    requires StableSortOf(AllPoints(servers, pointHash), ring, HashOf(), AtMost()) && ring != []
    ensures var p := Owner(ring, key);
            && IsPoint(servers, pointHash, k, j, p)
            && (forall k', j' :: 0 <= k' < |servers| && 0 <= j' < 160 * servers[k'].weight ==>
                 var h := pointHash(servers[k'], j');
                 && (h >= key ==> key <= p.hash <= h)
                 && (p.hash < key ==> p.hash <= h)
                 && (h == p.hash ==> k <= k'))
  {
    var p := Owner(ring, key);
    OwnerIsNearest(ring, key);
    k, j := FirstGenerated(servers, pointHash, p.hash);
    assert ClassOf(ring, p.hash, HashOf(), AtMost()) == ClassOf(AllPoints(servers, pointHash), p.hash, HashOf(), AtMost());
    forall k', j' | 0 <= k' < |servers| && 0 <= j' < 160 * servers[k'].weight
      ensures var h := pointHash(servers[k'], j');
              && (h >= key ==> key <= p.hash <= h)
              && (p.hash < key ==> p.hash <= h)
              && (h == p.hash ==> k <= k')
    {
      EveryPointIsThere(servers, pointHash, ring, k', j');
    }
  }

  // ----- both as they run -----

  // uct_upstream_init_hash_ring
  method BuildRing(servers: seq<RingServer>, pointHash: (RingServer, nat) -> nat) returns (ring: Ring)
    ensures fresh(ring) && fresh(ring.points)
    ensures ring.points.Length == 160 * TotalWeight(servers)
    ensures forall p :: multiset(ring.points[..])[p] == Copies(servers, pointHash, p)
    ensures forall a, b :: 0 <= a < b < ring.points.Length ==> ring.points[a].hash <= ring.points[b].hash
    ensures StableSortOf(AllPoints(servers, pointHash), ring.points[..], HashOf(), AtMost())
  {
    ring := new Ring(servers, pointHash);
    ghost var all, built := AllPoints(servers, pointHash), ring.points[..];
    SameClassesPermute(all, built, HashOf(), AtMost());
    forall p ensures multiset(built)[p] == Copies(servers, pointHash, p) {
      Generated(servers, pointHash, p);
    }
    Generated(servers, pointHash, Point(0, 0));
    assert |multiset(built)| == |multiset(all)|;
    forall a, b | 0 <= a < b < ring.points.Length ensures ring.points[a].hash <= ring.points[b].hash {
      assert AtMost()(HashOf()(built[a]), HashOf()(built[b]));
    }
  }

  /**
   Building the ring and looking up a key: inside is false, and the code reads outside of the ring,
   exactly if all weights are 0; otherwise the point found belongs to server k, and has the least
   hash at or above the key, or the least of all.
   */
  method Locate(servers: seq<RingServer>, pointHash: (RingServer, nat) -> nat, key: nat)
    returns (inside: bool, p: Point, ghost k: nat, ghost j: nat)
    ensures inside <==> exists i :: 0 <= i < |servers| && servers[i].weight > 0
    ensures inside ==> IsPoint(servers, pointHash, k, j, p)
    ensures inside ==>
              forall k', j' :: 0 <= k' < |servers| && 0 <= j' < 160 * servers[k'].weight ==>
                var h := pointHash(servers[k'], j');
                && (h >= key ==> key <= p.hash <= h)
                && (p.hash < key ==> p.hash <= h)
                && (h == p.hash ==> k <= k')
  {
    var ring := BuildRing(servers, pointHash);
    var i;
    inside, i := ring.GetHashPoint(key);
    p, k, j := Point(0, 0), 0, 0;
    assert inside <==> TotalWeight(servers) > 0;
    SomeWeight(servers);
    if inside {
      p := ring.points[i];
      k, j := KeyFindsNearest(servers, pointHash, ring.points[..], key);
    }
  }
}
