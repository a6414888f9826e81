/** Each lock-protected section keeps the pool invariant. */
module PoolSections {
  import opened Options
  import opened PoolState
  import opened PoolInvariant

  // ---- connsPerHostMu ----

  /** What Owned depends on: closing a connection or starting a goroutine leaves it alone. */
  lemma OwnedFrame(s: Pool, t: Pool, hand: Option<nat>)
    requires Shape(s) && Owned(s, hand) && Shape(t)
    requires t.owner == s.owner && t.idleConn == s.idleConn && t.idleLRU == s.idleLRU && t.wants == s.wants
    requires t.puts == s.puts && t.stale == s.stale
    requires |t.conns| == |s.conns|
    requires forall c :: 0 <= c < |s.conns| ==>
      t.conns[c].key == s.conns[c].key && (s.conns[c].closed ==> t.conns[c].closed)
    requires s.dials <= t.dials
    requires forall d :: |s.dials| <= d < |t.dials| ==> !t.dials[d].Dialed?
    ensures Owned(t, hand)
  {
    forall c | 0 <= c < |t.owner| ensures HeldAsRecorded(t, c, hand) {
      assert HeldAsRecorded(s, c, hand);
    }
  }

  lemma PermitsOfStarted(dials: seq<Dial>, wants: seq<Want>, w: nat, k: Key)
    requires w < |wants|
    ensures |Permits(dials + [Start(w)], wants, k)| == |Permits(dials, wants, k)| + if wants[w].key == k then 1 else 0
  {
    var before, after := Permits(dials, wants, k), Permits(dials + [Start(w)], wants, k);
    forall d ensures d in after <==> d in before || (d == |dials| && wants[w].key == k) {
    }
    assert after == before + if wants[w].key == k then {|dials|} else {};
  }

  lemma OpenConnsOfClosed(conns: seq<Conn>, c: nat, k: Key)
    requires c < |conns| && !conns[c].closed
    ensures |OpenConns(conns[c := conns[c].(closed := true)], k)|
      == |OpenConns(conns, k)| - if conns[c].key == k then 1 else 0
  {
    var conns' := conns[c := conns[c].(closed := true)];
    if conns[c].key == k {
      assert OpenConns(conns, k) == OpenConns(conns', k) + {c};
    } else {
      assert OpenConns(conns', k) == OpenConns(conns, k);
    }
  }

  /** CountsOk, except that one count of k has nothing behind it any more. */
  ghost predicate OneToGiveBack(cfg: Config, t: Pool, k: Key) {
    && cfg.maxConnsPerHost > 0
    && (forall k' :: Count(t.connsPerHost, k') == Load(t, k') + if k' == k then 1 else 0)
    && WithinLimit(t.connsPerHost, cfg.maxConnsPerHost)
    && AtLimitWhereWaiting(t.connsPerHost, cfg.maxConnsPerHost, t.wants, t.connsPerHostWait)
  }

  /** Storing part of a queue back keeps the queues keyed. */
  lemma StoreKeyed(wants: seq<Want>, queues: map<Key, seq<nat>>, k: Key, q: seq<nat>)
    requires Keyed(wants, queues)
    requires forall i :: 0 <= i < |q| ==> q[i] < |wants| && wants[q[i]].key == k
    ensures Keyed(wants, Store(queues, k, q))
  {
  }

  /** What DropSettled leaves of the queue under k. */
  lemma SettledQueue(wants: seq<Want>, queues: map<Key, seq<nat>>, k: Key)
    requires Keyed(wants, queues)
    ensures var q := DropSettled(wants, Entries(queues, k));
      && (q != [] ==> IsWaiting(wants, q[0]))
      && (q == [] ==> forall i :: 0 <= i < |Entries(queues, k)| ==> !IsWaiting(wants, Entries(queues, k)[i]))
      && (forall i :: 0 <= i < |q| ==> q[i] < |wants| && wants[q[i]].key == k)
      && (forall i :: 0 <= i < |q| ==> q[i] in Entries(queues, k))
  {
    var full := Entries(queues, k);
    var n := DropSettledShape(wants, full);
    forall i | 0 <= i < |full| - n ensures full[n..][i] == full[n + i] { }
  }

  lemma DecQueue(wants: seq<Want>, queues: map<Key, seq<nat>>, k: Key)
    requires Keyed(wants, queues)
    ensures var q := DropSettled(wants, Entries(queues, k));
      && Keyed(wants, Store(queues, k, if q == [] then [] else q[1..]))
  {
    SettledQueue(wants, queues, k);
    var q := DropSettled(wants, Entries(queues, k));
    StoreKeyed(wants, queues, k, if q == [] then [] else q[1..]);
  }

  lemma DecShape(cfg: Config, t: Pool, k: Key)
    requires Shape(t) && QueuesOk(t)
    ensures Shape(DecConnsPerHost(cfg, t, k)) && QueuesOk(DecConnsPerHost(cfg, t, k))
  {
    DecFrame(cfg, t, k);
    DecRefs(cfg, t, k);
    DecQueue(t.wants, t.connsPerHostWait, k);
  }

  /** The wantConn that gets the permit exists. */
  lemma DecRefs(cfg: Config, t: Pool, k: Key)
    requires Shape(t) && Keyed(t.wants, t.connsPerHostWait)
    ensures DialRefs(DecConnsPerHost(cfg, t, k).dials, |t.wants|, |t.conns|)
  {
    SettledQueue(t.wants, t.connsPerHostWait, k);
  }

  lemma DecLoad(cfg: Config, t: Pool, k: Key, k': Key)
    requires Shape(t) && QueuesOk(t) && OneToGiveBack(cfg, t, k)
    ensures var t' := DecConnsPerHost(cfg, t, k); Count(t'.connsPerHost, k') == Load(t', k')
  {
    assert Count(t.connsPerHost, k) == Load(t, k) + 1;
    assert Count(t.connsPerHost, k') == Load(t, k') + if k' == k then 1 else 0;
    var q := DropSettled(t.wants, Entries(t.connsPerHostWait, k));
    SettledQueue(t.wants, t.connsPerHostWait, k);
    var t' := DecConnsPerHost(cfg, t, k);
    assert t'.wants == t.wants && t'.conns == t.conns;
    if q != [] {
      PermitsOfStarted(t.dials, t.wants, q[0], k');
      assert t'.dials == t.dials + [Start(q[0])];
      assert t'.connsPerHost == t.connsPerHost;
    } else {
      assert t'.dials == t.dials;
    }
  }

  lemma DecLimit(cfg: Config, t: Pool, k: Key)
    requires Shape(t) && QueuesOk(t) && OneToGiveBack(cfg, t, k)
    ensures var t' := DecConnsPerHost(cfg, t, k);
      && WithinLimit(t'.connsPerHost, cfg.maxConnsPerHost)
      && AtLimitWhereWaiting(t'.connsPerHost, cfg.maxConnsPerHost, t'.wants, t'.connsPerHostWait)
  {
    assert Count(t.connsPerHost, k) == Load(t, k) + 1;
    SettledQueue(t.wants, t.connsPerHostWait, k);
    var t' := DecConnsPerHost(cfg, t, k);
    forall k' ensures Count(t'.connsPerHost, k') <= cfg.maxConnsPerHost {
      assert Count(t.connsPerHost, k') <= cfg.maxConnsPerHost;
    }
  }

  lemma GivenBackKeeps(cfg: Config, t: Pool, k: Key)
    requires Shape(t) && QueuesOk(t) && OneToGiveBack(cfg, t, k)
    ensures CountsOk(cfg, DecConnsPerHost(cfg, t, k))
    ensures DecConnsPerHost(cfg, t, k).fault == t.fault
  {
    assert Count(t.connsPerHost, k) == Load(t, k) + 1;
    forall k' ensures Count(DecConnsPerHost(cfg, t, k).connsPerHost, k') == Load(DecConnsPerHost(cfg, t, k), k') {
      DecLoad(cfg, t, k, k');
    }
    DecLimit(cfg, t, k);
  }

  /** What a section of connsPerHostMu leaves alone. */
  ghost predicate OnlyCounts(s: Pool, t: Pool) {
    && t.idleConn == s.idleConn && t.idleLRU == s.idleLRU && t.idleConnWait == s.idleConnWait
      && t.closeIdle == s.closeIdle
    && t.wants == s.wants && t.puts == s.puts && t.stale == s.stale && t.owner == s.owner
    && s.dials <= t.dials
    && (forall d :: |s.dials| <= d < |t.dials| ==> t.dials[d].Start?)
  }

  lemma DecFrame(cfg: Config, s: Pool, k: Key)
    ensures OnlyCounts(s, DecConnsPerHost(cfg, s, k))
    ensures DecConnsPerHost(cfg, s, k).conns == s.conns
  {
    if cfg.maxConnsPerHost > 0 && Count(s.connsPerHost, k) != 0 {
      var q := DropSettled(s.wants, Entries(s.connsPerHostWait, k));
      var t := DecConnsPerHost(cfg, s, k);
      if q == [] {
        assert t.dials == s.dials;
      } else {
        assert t.dials == s.dials + [Start(q[0])];
      }
    }
  }

  lemma CloseConnFrame(cfg: Config, s: Pool, c: nat)
    requires c < |s.conns|
    ensures OnlyCounts(s, CloseConn(cfg, s, c))
    ensures CloseConn(cfg, s, c).conns == s.conns[c := s.conns[c].(closed := true)]
  {
    if s.conns[c].closed {
      assert s.conns[c := s.conns[c].(closed := true)] == s.conns;
    } else {
      DecFrame(cfg, s.(conns := s.conns[c := s.conns[c].(closed := true)]), s.conns[c].key);
    }
  }

  lemma CloseConnCounts(cfg: Config, s: Pool, c: nat)
    requires Shape(s) && QueuesOk(s) && CountsOk(cfg, s) && !s.fault && c < |s.conns| && !s.conns[c].closed
    ensures var t := CloseConn(cfg, s, c); CountsOk(cfg, t) && !t.fault && Shape(t) && QueuesOk(t)
  {
    var k := s.conns[c].key;
    var t := s.(conns := s.conns[c := s.conns[c].(closed := true)]);
    DecShape(cfg, t, k);
    if cfg.maxConnsPerHost > 0 {
      forall k' ensures Count(t.connsPerHost, k') == Load(t, k') + if k' == k then 1 else 0 {
        OpenConnsOfClosed(s.conns, c, k');
      }
      GivenBackKeeps(cfg, t, k);
    }
  }

  lemma CloseConnKeeps(cfg: Config, s: Pool, c: nat, hand: Option<nat>)
    requires InvWith(cfg, s, hand) && c < |s.conns|
    ensures InvWith(cfg, CloseConn(cfg, s, c), hand)
    ensures CloseConn(cfg, s, c).conns[c].closed
  {
    CloseConnFrame(cfg, s, c);
    if !s.conns[c].closed {
      CloseConnCounts(cfg, s, c);
      OwnedFrame(s, CloseConn(cfg, s, c), hand);
    }
  }

  // ---- idleMu: taking a connection off the pool ----

  lemma PooledWithout(list: seq<nat>, lru: seq<nat>, c: nat)
    requires Ordered(list, lru) && Distinct(lru)
    ensures Ordered(Without(list, c), Without(lru, c))
    ensures forall x :: x in Without(list, c) <==> x in list && x != c
    ensures |Without(list, c)| <= |list|
    ensures c !in list ==> Without(list, c) == list
  {
    OrderedMembers(list, lru);
    OrderedWithout(list, lru, c);
    WithoutMembers(list, c);
    if c !in list { WithoutAbsent(list, c); }
  }

  lemma ListWithout(s: Pool, c: nat, k: Key)
    requires c < |s.conns| && c < |s.owner| && k in s.idleConn && s.idleConn[k] != []
    requires c in s.idleConn[k] ==> s.conns[c].key == k
    requires c !in s.idleConn[k] ==> Without(s.idleConn[k], c) == s.idleConn[k]
    ensures Entries(RemoveIdle(s, c).idleConn, k) == Without(s.idleConn[k], c)
    ensures k in RemoveIdle(s, c).idleConn ==> RemoveIdle(s, c).idleConn[k] == Without(s.idleConn[k], c) != []
  {
  }

  lemma RemoveIdleLists(cfg: Config, s: Pool, c: nat, hand: Option<nat>)
    requires Shape(s) && Owned(s, hand) && ListsOk(cfg, s) && c < |s.conns|
    ensures var t := RemoveIdle(s, c); Shape(t) && ListsOk(cfg, t)
    ensures forall x :: x in RemoveIdle(s, c).idleLRU <==> x in s.idleLRU && x != c
    ensures forall k, x :: x in Entries(RemoveIdle(s, c).idleConn, k) <==> x in Entries(s.idleConn, k) && x != c
    ensures RemoveIdle(s, c).idleConn.Keys <= s.idleConn.Keys
  {
    var t := RemoveIdle(s, c);
    WithoutMembers(s.idleLRU, c);
    forall i | 0 <= i < |t.idleLRU| ensures t.idleLRU[i] < |t.conns| { assert t.idleLRU[i] in t.idleLRU; }
    forall k, x ensures x in Entries(t.idleConn, k) <==> x in Entries(s.idleConn, k) && x != c {
      if k in s.idleConn {
        PooledWithout(s.idleConn[k], s.idleLRU, c);
        ListWithout(s, c, k);
      }
    }
    forall k | k in t.idleConn
      ensures k in s.idleConn && t.idleConn[k] != [] && |t.idleConn[k]| <= cfg.IdlePerHost()
        && Ordered(t.idleConn[k], t.idleLRU)
    {
      PooledWithout(s.idleConn[k], s.idleLRU, c);
      ListWithout(s, c, k);
    }
    forall k, i | k in t.idleConn && 0 <= i < |t.idleConn[k]| ensures t.idleConn[k][i] < |t.conns| {
      assert t.idleConn[k][i] in Entries(t.idleConn, k);
      assert t.idleConn[k][i] in Entries(s.idleConn, k);
    }
  }

  lemma RemoveIdleKeeps(cfg: Config, s: Pool, c: nat, hand: Option<nat>)
    requires InvWith(cfg, s, hand) && c < |s.conns| && s.conns[c].closed
    ensures InvWith(cfg, RemoveIdle(s, c), hand)
    ensures c !in RemoveIdle(s, c).idleLRU
  {
    var t := RemoveIdle(s, c);
    RemoveIdleLists(cfg, s, c, hand);
    forall x | 0 <= x < |t.owner| ensures HeldAsRecorded(t, x, hand) {
      assert HeldAsRecorded(s, x, hand);
    }
    forall k, i | k in t.idleConn && 0 <= i < |t.idleConn[k]|
      ensures t.conns[t.idleConn[k][i]].key == k && t.owner[t.idleConn[k][i]] == Idle
    {
      assert t.idleConn[k][i] in Entries(t.idleConn, k);
      assert t.idleConn[k][i] in Entries(s.idleConn, k);
    }
    forall i | 0 <= i < |t.idleLRU| ensures t.owner[t.idleLRU[i]] in {Idle, LeftBehind} {
      assert t.idleLRU[i] in t.idleLRU;
    }
  }
}
