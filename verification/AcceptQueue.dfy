/**
 The accept queue (src/uct_connection.c): one master inserts accepted
 connections, any number of workers take them out.  A counting semaphore tells
 how many are there, a spinlock guards the links.

 The state machine interleaves the atomic sections of the C code in every possible way; class
 ListeningPool has one method for each of them, proved to do what the action does.
 */
module AcceptQueue {
  import opened Queue

  // A connection is known by its number.
  type Conn = nat

  function Conns(nodes: seq<Node<Conn>>): seq<Conn> {
    seq(|nodes|, i requires 0 <= i < |nodes| => nodes[i].data)
  }

  // ----- all interleavings -----

  datatype Worker = Idle | HasToken | HasConn(conn: Conn)

  datatype State = State(
    queue: seq<Conn>,              // newest first
    items: nat,                    // the semaphore
    unposted: bool,                // the master is between its insert and its post
    workers: seq<Worker>,
    accepted: seq<Conn>,           // every connection inserted so far, in order
    delivered: seq<(nat, Conn)>,   // who got what, in order
    tookSentinel: bool)

  datatype Action =
    | Insert(c: Conn)
    | InsertRefused        // the master fails to lock: the connection is dropped
    | Post
    | TryWait(w: nat)
    | LockRefused(w: nat)  // the worker fails to lock and posts its token back
    | Take(w: nat)
    | Done(w: nat)

  predicate Enabled(s: State, a: Action) {
    match a
    case Insert(_) => !s.unposted
    case InsertRefused => !s.unposted
    case Post => s.unposted
    case TryWait(w) => w < |s.workers| && s.workers[w].Idle?
    case LockRefused(w) => w < |s.workers| && s.workers[w].HasToken?
    case Take(w) => w < |s.workers| && s.workers[w].HasToken?
    case Done(w) => w < |s.workers| && s.workers[w].HasConn?
  }

  function Apply(s: State, a: Action): State
    requires Enabled(s, a)
  {
    match a
    case Insert(c) => s.(queue := [c] + s.queue, unposted := true, accepted := s.accepted + [c])
    case InsertRefused => s
    case Post => s.(items := s.items + 1, unposted := false)
    case TryWait(w) => if s.items > 0 then s.(items := s.items - 1, workers := s.workers[w := HasToken]) else s
    case LockRefused(w) => s.(items := s.items + 1, workers := s.workers[w := Idle])
    case Take(w) =>
      if s.queue == [] then s.(tookSentinel := true)
      else
        var last := |s.queue| - 1;
        s.(queue := s.queue[..last],
           workers := s.workers[w := HasConn(s.queue[last])],
           delivered := s.delivered + [(w, s.queue[last])])
    case Done(w) => s.(workers := s.workers[w := Idle])
  }

  function Initial(n: nat): State {
    State([], 0, false, seq(n, _ => Idle), [], [], false)
  }

  ghost predicate Possible(s: State, acts: seq<Action>)
    decreases |acts|, 0
  {
    if acts == [] then true
    else
      && Possible(s, acts[..|acts|-1])
      && Enabled(Run(s, acts[..|acts|-1]), acts[|acts|-1])
  }

  ghost function Run(s: State, acts: seq<Action>): State
    requires Possible(s, acts)
    decreases |acts|, 1
  {
    if acts == [] then s else Apply(Run(s, acts[..|acts|-1]), acts[|acts|-1])
  }

  function Tokens(ws: seq<Worker>): nat {
    if ws == [] then 0 else Tokens(ws[..|ws|-1]) + (if ws[|ws|-1].HasToken? then 1 else 0)
  }

  function Reversed(q: seq<Conn>): seq<Conn> {
    if q == [] then [] else [q[|q|-1]] + Reversed(q[..|q|-1])
  }

  function Given(d: seq<(nat, Conn)>): seq<Conn> {
    seq(|d|, i requires 0 <= i < |d| => d[i].1)
  }

  ghost predicate Inv(s: State) {
    && |s.queue| == s.items + Tokens(s.workers) + (if s.unposted then 1 else 0)
    && s.accepted == Given(s.delivered) + Reversed(s.queue)
    && !s.tookSentinel
    && (forall i :: 0 <= i < |s.delivered| ==> s.delivered[i].0 < |s.workers|)
  }

  lemma {:induction false} TokensUpdate(ws: seq<Worker>, w: nat, v: Worker)
    requires w < |ws|
    ensures Tokens(ws[w := v]) == Tokens(ws) - (if ws[w].HasToken? then 1 else 0) + (if v.HasToken? then 1 else 0)
  {
    var last := |ws| - 1;
    if w == last {
      assert ws[w := v][..last] == ws[..last];
    } else {
      assert ws[w := v][..last] == ws[..last][w := v];
      TokensUpdate(ws[..last], w, v);
    }
  }

  lemma {:induction false} TokensPositive(ws: seq<Worker>, w: nat)
    requires w < |ws| && ws[w].HasToken?
    ensures Tokens(ws) > 0
  {
    if w < |ws| - 1 {
      TokensPositive(ws[..|ws|-1], w);
    }
  }

  lemma {:induction false} NoTokens(ws: seq<Worker>)
    requires forall i :: 0 <= i < |ws| ==> !ws[i].HasToken?
    ensures Tokens(ws) == 0
  {
    if ws != [] {
      NoTokens(ws[..|ws|-1]);
    }
  }

  lemma {:induction false} ReversedPush(c: Conn, q: seq<Conn>)
    ensures Reversed([c] + q) == Reversed(q) + [c]
  {
    if q == [] {
      assert [c] + q == [c] && [c][..0] == [];
    } else {
      var rest, last := q[..|q|-1], q[|q|-1];
      ReversedPush(c, rest);
      assert ([c] + q)[..|q|] == [c] + rest;
      assert Reversed([c] + q) == [last] + Reversed([c] + rest);
      assert [last] + (Reversed(rest) + [c]) == ([last] + Reversed(rest)) + [c];
    }
  }

  lemma StepKeepsInv(s: State, a: Action)
    requires Inv(s) && Enabled(s, a)
    ensures Inv(Apply(s, a)) && |Apply(s, a).workers| == |s.workers|
  {
    match a {
      case Insert(c) =>
        ReversedPush(c, s.queue);
      case InsertRefused =>
      case Post =>
      case TryWait(w) =>
        TokensUpdate(s.workers, w, HasToken);
      case LockRefused(w) =>
        TokensUpdate(s.workers, w, Idle);
      case Take(w) =>
        TokensPositive(s.workers, w);
        var c := s.queue[|s.queue|-1];
        TokensUpdate(s.workers, w, HasConn(c));
        assert Given(s.delivered + [(w, c)]) == Given(s.delivered) + [c];
      case Done(w) =>
        TokensUpdate(s.workers, w, Idle);
    }
  }

  // ----- the sections as they run -----

  /**
   The shared state.  Each method is one atomic section, and does what the action of the same
   name says to every state s that the pool shows.
   */
  class ListeningPool {
    const listenQ: List<Conn>
    var items: nat

    ghost predicate Valid()
      reads this, listenQ, listenQ.Repr()
    {
      listenQ.Valid()
    }

    // The queue and the semaphore are those of s.
    ghost predicate Shows(s: State)
      reads this, listenQ, listenQ.Repr()
    {
      Valid() && Conns(listenQ.nodes) == s.queue && items == s.items
    }

    constructor (listenQ: List<Conn>, ghost n: nat)
      requires listenQ.Valid() && listenQ.nodes == []
      ensures Shows(Initial(n)) && this.listenQ == listenQ
    {
      this.listenQ := listenQ;
      items := 0;
    }

    // uct_listening_pool_add, the section under the spinlock.
    method Insert(conn: Node<Conn>, ghost s: State)
      requires Shows(s) && Enabled(s, Action.Insert(conn.data)) && conn !in listenQ.Ring()
      modifies listenQ, listenQ.Repr(), conn
      ensures Shows(Apply(s, Action.Insert(conn.data)))
    {
      listenQ.InsertAfter(listenQ.head, conn, 0);
      assert Conns(listenQ.nodes) == [conn.data] + s.queue;
    }

    // uct_listening_pool_add, the sem_post after the section; also what a worker does
    // when it cannot get the spinlock.
    method Post(ghost s: State)
      requires Shows(s)
      modifies this`items
      ensures s.unposted ==> Shows(Apply(s, Action.Post))
      ensures forall w :: Enabled(s, LockRefused(w)) ==> Shows(Apply(s, LockRefused(w)))
    {
      items := items + 1;
    }

    // uct_listening_pool_get, the sem_trywait.
    method TryWait(ghost s: State, ghost w: nat) returns (ok: bool)
      requires Shows(s) && Enabled(s, Action.TryWait(w))
      modifies this`items
      ensures Shows(Apply(s, Action.TryWait(w)))
      ensures ok <==> Apply(s, Action.TryWait(w)).workers[w].HasToken?
    {
      ok := items > 0;
      if ok {
        items := items - 1;
      }
    }

    // uct_listening_pool_get, the section under the spinlock.  It does not look whether the
    // queue is empty; the invariant says that it never is.
    method Take(ghost s: State, ghost w: nat) returns (conn: Node<Conn>)
      requires Shows(s) && Inv(s) && Enabled(s, Action.Take(w))
      modifies listenQ, listenQ.Repr()
      ensures Shows(Apply(s, Action.Take(w))) && Apply(s, Action.Take(w)).workers[w] == HasConn(conn.data)
      ensures conn in old(listenQ.nodes) && conn !in listenQ.nodes
    {
      TokensPositive(s.workers, w);
      ghost var n := |listenQ.nodes|;
      assert |Conns(listenQ.nodes)| == n > 0;
      assert listenQ.Ring()[n] == listenQ.nodes[n-1];
      Neighbours(listenQ.Ring(), 0);
      conn := listenQ.head.prev;
      listenQ.Remove(conn, n - 1);
      assert Conns(listenQ.nodes) == s.queue[..n-1];
    }
  }

  // ----- every run -----

  /** The invariant holds after every interleaving of one master and n workers. */
  lemma {:induction false} InvAlways(n: nat, acts: seq<Action>)
    requires Possible(Initial(n), acts)
    ensures Inv(Run(Initial(n), acts)) && |Run(Initial(n), acts).workers| == n
  {
    if acts == [] {
      NoTokens(Initial(n).workers);
    } else {
      var init := acts[..|acts|-1];
      InvAlways(n, init);
      StepKeepsInv(Run(Initial(n), init), acts[|acts|-1]);
    }
  }

  /** Whenever a worker enters the section of uct_listening_pool_get, the queue has an element. */
  lemma NeverTakesSentinel(n: nat, acts: seq<Action>, w: nat)
    requires Possible(Initial(n), acts)
    requires Enabled(Run(Initial(n), acts), Take(w))
    ensures Run(Initial(n), acts).queue != [] && !Run(Initial(n), acts).tookSentinel
  {
    InvAlways(n, acts);
    TokensPositive(Run(Initial(n), acts).workers, w);
  }

  /**
   Connections are delivered in acceptance order, each to one worker: what has been delivered
   is a prefix of what has been accepted, the rest is in the queue, and the k-th accepted
   connection is the k-th delivered one.
   */
  lemma {:induction false} DeliveredInOrder(n: nat, acts: seq<Action>)
    requires Possible(Initial(n), acts)
    ensures var s := Run(Initial(n), acts);
            && Given(s.delivered) <= s.accepted
            && s.accepted[|s.delivered|..] == Reversed(s.queue)
            && (forall k :: 0 <= k < |s.delivered| ==> s.delivered[k].0 < n && s.delivered[k].1 == s.accepted[k])
  {
    InvAlways(n, acts);
    var s := Run(Initial(n), acts);
    forall k | 0 <= k < |s.delivered| ensures s.delivered[k].1 == s.accepted[k] {
      assert Given(s.delivered)[k] == s.delivered[k].1;
    }
  }

  /** When the master is idle, the semaphore is 0 and nobody holds a token, everything was delivered. */
  lemma NothingIsLost(n: nat, acts: seq<Action>)
    requires Possible(Initial(n), acts)
    requires var s := Run(Initial(n), acts);
             !s.unposted && s.items == 0 && forall w :: 0 <= w < |s.workers| ==> !s.workers[w].HasToken?
    ensures var s := Run(Initial(n), acts); Given(s.delivered) == s.accepted
  {
    InvAlways(n, acts);
    NoTokens(Run(Initial(n), acts).workers);
  }

  /** A worker can only be turned away when every inserted connection already has a token holder or is not posted. */
  lemma TurnedAwayOnlyWhenClaimed(n: nat, acts: seq<Action>, w: nat)
    requires Possible(Initial(n), acts)
    requires Enabled(Run(Initial(n), acts), TryWait(w))
    ensures var s := Run(Initial(n), acts);
            !Apply(s, TryWait(w)).workers[w].HasToken?
            <==> |s.queue| == Tokens(s.workers) + (if s.unposted then 1 else 0)
  {
    InvAlways(n, acts);
  }
}
