/** What the pool promises, stated about its fields and goroutines over every run. */
module PoolTheorems {
  import opened Options
  import opened PoolState
  import opened PoolInvariant
  import opened PoolSections
  import opened PoolHandOver
  import opened PoolRun

  /** The places that can hold a connection. */
  datatype Place =
    | InIdleList(key: Key)
    | InWant(w: nat)        // delivered to this request, or in use by its round trip
    | InDial(d: nat)        // dialled and not yet handed over
    | InPut(p: nat)         // on its way back to the pool, or about to be closed
    | InStaleClose          // dropped from its list, in the LRU, with a closeConnIfStillIdle goroutine pending

  ghost predicate Holds(s: Pool, c: nat, place: Place) {
    match place
    case InIdleList(k) => c in Entries(s.idleConn, k)
    case InWant(w) => w < |s.wants| && s.wants[w].pc == Some(c) && s.wants[w].phase != Done
    case InDial(d) => d < |s.dials| && s.dials[d].Dialed? && s.dials[d].c == c
    case InPut(p) => p < |s.puts| && s.puts[p].c == c && s.puts[p].stage != Over
    case InStaleClose => c in s.idleLRU && c in s.stale && c < |s.conns| && c !in Entries(s.idleConn, s.conns[c].key)
  }

  ghost predicate IsOpen(s: Pool, c: nat) {
    c < |s.conns| && !s.conns[c].closed
  }

  /** An open connection that nothing holds: it counts against its host and can never be used or timed out. */
  ghost predicate Leaked(s: Pool, c: nat) {
    IsOpen(s, c) && forall place :: !Holds(s, c, place)
  }

  /** No connection, open or closed, is ever in two places at once. */
  lemma AtMostOnePlace(cfg: Config, events: seq<Event>, c: nat, p: Place, q: Place)
    requires Holds(Run(cfg, events), c, p) && Holds(Run(cfg, events), c, q)
    ensures p == q
  {
    RunKeeps(cfg, events);
    HolderIsOwner(cfg, Run(cfg, events), c, p);
    HolderIsOwner(cfg, Run(cfg, events), c, q);
  }

  function PlaceOf(o: Owner, k: Key): (r: Option<Place>) {
    match o
    case Idle => Some(InIdleList(k))
    case ByWant(w) => Some(InWant(w))
    case ByDial(d) => Some(InDial(d))
    case ByPut(p) => Some(InPut(p))
    case LeftBehind => Some(InStaleClose)
    case _ => None
  }

  lemma HolderIsOwner(cfg: Config, s: Pool, c: nat, p: Place)
    requires Inv(cfg, s) && Holds(s, c, p)
    ensures c < |s.conns| && PlaceOf(s.owner[c], s.conns[c].key) == Some(p)
  {
    match p
    case InIdleList(k) =>
      var i :| 0 <= i < |s.idleConn[k]| && s.idleConn[k][i] == c;
    case InStaleClose =>
      var i :| 0 <= i < |s.idleLRU| && s.idleLRU[i] == c;
      assert HeldAsRecorded(s, c, None);
    case _ =>
  }

  /** Every open connection is in exactly one place, or it is leaked. */
  lemma OpenIsHeldOrLeaked(cfg: Config, events: seq<Event>, c: nat) returns (place: Option<Place>)
    requires IsOpen(Run(cfg, events), c)
    ensures place.None? <==> Leaked(Run(cfg, events), c)
    ensures place.Some? ==> Holds(Run(cfg, events), c, place.value)
    ensures place.Some? ==> forall q :: Holds(Run(cfg, events), c, q) ==> q == place.value
  {
    var s := Run(cfg, events);
    RunKeeps(cfg, events);
    place := PlaceOf(s.owner[c], s.conns[c].key);
    OrphanIsLeaked(cfg, s, c);
    assert HeldAsRecorded(s, c, None);
    forall q | Holds(s, c, q) ensures PlaceOf(s.owner[c], s.conns[c].key) == Some(q) {
      HolderIsOwner(cfg, s, c, q);
    }
    if s.owner[c] == LeftBehind {
      NotPooled(cfg, s, c);
    }
  }

  lemma NotPooled(cfg: Config, s: Pool, c: nat)
    requires Inv(cfg, s) && c < |s.conns| && s.owner[c] != Idle
    ensures forall k :: c !in Entries(s.idleConn, k)
  {
    forall k ensures c !in Entries(s.idleConn, k) {
      if c in Entries(s.idleConn, k) { HolderIsOwner(cfg, s, c, InIdleList(k)); }
    }
  }

  lemma OrphanIsLeaked(cfg: Config, s: Pool, c: nat)
    requires Inv(cfg, s) && IsOpen(s, c)
    ensures Leaked(s, c) <==> s.owner[c] == Orphan
  {
    assert HeldAsRecorded(s, c, None);
    if s.owner[c] == Orphan {
      forall p ensures !Holds(s, c, p) {
        if Holds(s, c, p) { HolderIsOwner(cfg, s, c, p); }
      }
    } else {
      if s.owner[c] == LeftBehind { NotPooled(cfg, s, c); }
      assert Holds(s, c, PlaceOf(s.owner[c], s.conns[c].key).value);
    }
  }

  /** No connection is delivered to two requests, and a request only gets a connection of its own key. */
  lemma NoSharing(cfg: Config, events: seq<Event>, v: nat, w: nat)
    ensures var s := Run(cfg, events);
      v < |s.wants| && w < |s.wants| && s.wants[v].pc.Some? && s.wants[v].pc == s.wants[w].pc
        && s.wants[v].phase != Done && s.wants[w].phase != Done ==>
        v == w && s.wants[v].pc.value < |s.conns| && s.conns[s.wants[v].pc.value].key == s.wants[v].key
  {
    RunKeeps(cfg, events);
    var s := Run(cfg, events);
    if v < |s.wants| && w < |s.wants| && s.wants[v].pc.Some? && s.wants[v].pc == s.wants[w].pc
      && s.wants[v].phase != Done && s.wants[w].phase != Done {
      AtMostOnePlace(cfg, events, s.wants[v].pc.value, InWant(v), InWant(w));
    }
  }

  /** A connection that was delivered and then cancelled is put back by exactly one goroutine. */
  lemma CancelReturnsOnce(cfg: Config, events: seq<Event>, w: nat, c: nat)
    requires var s := Run(cfg, events); w < |s.wants| && s.wants[w].phase == Waiting && s.wants[w].pc == Some(c)
    ensures var t := Run(cfg, events + [CancelRequest(w)]);
      && t.wants[w].pc == None && t.wants[w].err && t.wants[w].ready
      && (forall place :: Holds(t, c, place) <==> place == InPut(|Run(cfg, events).puts|))
  {
    RunKeeps(cfg, events);
    var s := Run(cfg, events);
    assert (events + [CancelRequest(w)])[..|events|] == events;
    var t := Run(cfg, events + [CancelRequest(w)]);
    assert t == DoCancel(s, w);
    assert Holds(t, c, InPut(|s.puts|));
    forall place | Holds(t, c, place) ensures place == InPut(|s.puts|) {
      AtMostOnePlace(cfg, events + [CancelRequest(w)], c, place, InPut(|s.puts|));
    }
  }

  /** No request waits while a pooled connection for its key sits idle. */
  lemma NobodyWaitsBesideIdle(cfg: Config, events: seq<Event>, k: Key, w: nat)
    ensures var s := Run(cfg, events);
      w in Entries(s.idleConnWait, k) && IsWaiting(s.wants, w) ==> Entries(s.idleConn, k) == []
  {
    RunKeeps(cfg, events);
    var s := Run(cfg, events);
    if w in Entries(s.idleConnWait, k) && IsWaiting(s.wants, w) {
      var i :| 0 <= i < |s.idleConnWait[k]| && s.idleConnWait[k][i] == w;
    }
  }

  /**
    The pooled connections: each is listed once, under its own key and nowhere
    else, and is in the LRU; the caps hold; and whatever else the LRU still
    has was dropped because it is closed or about to be closed.
   */
  lemma PooledOnce(cfg: Config, events: seq<Event>)
    ensures var s := Run(cfg, events);
      && Distinct(s.idleLRU)
      && (forall k ::
            && Distinct(Entries(s.idleConn, k))
            && |Entries(s.idleConn, k)| <= (if cfg.IdlePerHost() > 0 then cfg.IdlePerHost() else 0))
      && (forall k, c :: c in Entries(s.idleConn, k) ==> c < |s.conns| && s.conns[c].key == k && c in s.idleLRU)
      && (cfg.maxIdleConns > 0 ==> |s.idleLRU| <= cfg.maxIdleConns)
      && (forall c :: c in s.idleLRU && !(c < |s.conns| && c in Entries(s.idleConn, s.conns[c].key)) ==>
            c < |s.conns| && (s.conns[c].closed || c in s.stale))
      && !s.fault
  {
    RunKeeps(cfg, events);
    var s := Run(cfg, events);
    forall k ensures Distinct(Entries(s.idleConn, k)) && forall c :: c in Entries(s.idleConn, k) ==> c in s.idleLRU {
      if k in s.idleConn { OrderedMembers(s.idleConn[k], s.idleLRU); }
    }
    forall c | c in s.idleLRU && !(c < |s.conns| && c in Entries(s.idleConn, s.conns[c].key))
      ensures c < |s.conns| && (s.conns[c].closed || c in s.stale)
    {
      var i :| 0 <= i < |s.idleLRU| && s.idleLRU[i] == c;
      assert HeldAsRecorded(s, c, None);
    }
  }

  /** Of two connections in one idle list the later one is the more recently used: it is nearer the LRU's front. */
  lemma ListsFollowLRU(cfg: Config, events: seq<Event>, k: Key, i: nat, j: nat)
    requires var s := Run(cfg, events); i < j < |Entries(s.idleConn, k)|
    ensures var s := Run(cfg, events); var list := Entries(s.idleConn, k);
      list[i] in s.idleLRU && list[j] in s.idleLRU && IndexOf(s.idleLRU, list[j]) < IndexOf(s.idleLRU, list[i])
  {
    RunKeeps(cfg, events);
    var s := Run(cfg, events);
    OrderedPositions(Entries(s.idleConn, k), s.idleLRU, i, j);
  }

  lemma {:induction false} OrderedPositions(list: seq<nat>, lru: seq<nat>, i: nat, j: nat)
    requires Ordered(list, lru) && Distinct(lru) && i < j < |list|
    ensures list[i] in lru && list[j] in lru && IndexOf(lru, list[j]) < IndexOf(lru, list[i])
    decreases |lru|
  {
    OrderedMembers(list, lru);
    var n := |list| - 1;
    if lru[0] == list[n] {
      OrderedMembers(list[..n], lru[1..]);
      assert list[i] in list[..n];
      if j < n {
        assert list[j] in list[..n];
        OrderedPositions(list[..n], lru[1..], i, j);
      }
    } else {
      OrderedMembers(list, lru[1..]);
      assert list[i] in lru[1..] && list[j] in lru[1..];
      OrderedPositions(list, lru[1..], i, j);
    }
  }

  /** connsPerHost counts the dial permits in use, the open connections and the abandoned permits, and nothing else. */
  lemma CountsAreExact(cfg: Config, events: seq<Event>, k: Key)
    requires cfg.maxConnsPerHost > 0
    ensures var s := Run(cfg, events);
      && Count(s.connsPerHost, k) == |InUsePermits(s, k)| + |OpenConns(s.conns, k)| + |AbandonedPermits(s, k)|
      && Count(s.connsPerHost, k) <= cfg.maxConnsPerHost
      && (forall w :: w in Entries(s.connsPerHostWait, k) && IsWaiting(s.wants, w) ==>
        Count(s.connsPerHost, k) == cfg.maxConnsPerHost)
  {
    RunKeeps(cfg, events);
    var s := Run(cfg, events);
    assert Count(s.connsPerHost, k) == Load(s, k);
    assert Permits(s.dials, s.wants, k) == InUsePermits(s, k) + AbandonedPermits(s, k);
    assert Count(s.connsPerHost, k) <= cfg.maxConnsPerHost;
    forall w | w in Entries(s.connsPerHostWait, k) && IsWaiting(s.wants, w)
      ensures Count(s.connsPerHost, k) == cfg.maxConnsPerHost
    {
      var i :| 0 <= i < |s.connsPerHostWait[k]| && s.connsPerHostWait[k][i] == w;
    }
  }

  ghost function AbandonedPermits(s: Pool, k: Key): (found: set<nat>) {
    set d | 0 <= d < |s.dials| && s.dials[d].Abandoned? && s.dials[d].w < |s.wants| && s.wants[s.dials[d].w].key == k
  }

  ghost function InUsePermits(s: Pool, k: Key): (found: set<nat>) {
    set d | 0 <= d < |s.dials| && HoldsPermit(s.dials[d]) && !s.dials[d].Abandoned?
      && s.dials[d].w < |s.wants| && s.wants[s.dials[d].w].key == k
  }
}
