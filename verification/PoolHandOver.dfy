/** The sections that move a connection from one place to another. */
module PoolHandOver {
  import opened Options
  import opened PoolState
  import opened PoolInvariant
  import opened PoolSections

  // ---- settling a wantConn ----

  /** Only settles wantConns: the same keys, and nothing starts to wait. */
  ghost predicate OnlySettles(before: seq<Want>, after: seq<Want>) {
    && |after| == |before|
    && (forall w :: 0 <= w < |before| ==> after[w].key == before[w].key && (before[w].ready ==> after[w].ready))
  }

  lemma PermitsUnchanged(dials: seq<Dial>, before: seq<Want>, after: seq<Want>, k: Key)
    requires OnlySettles(before, after)
    ensures Permits(dials, after, k) == Permits(dials, before, k)
  {
  }

  lemma SettlingKeepsQueues(cfg: Config, s: Pool, t: Pool)
    requires QueuesOk(s) && CountsOk(cfg, s) && OnlySettles(s.wants, t.wants)
    requires t.idleConnWait == s.idleConnWait && t.connsPerHostWait == s.connsPerHostWait && t.idleConn == s.idleConn
    requires t.connsPerHost == s.connsPerHost && t.dials == s.dials && t.conns == s.conns
    ensures QueuesOk(t) && CountsOk(cfg, t)
  {
    forall k ensures Load(t, k) == Load(s, k) {
      PermitsUnchanged(s.dials, s.wants, t.wants, k);
    }
    if cfg.maxConnsPerHost > 0 {
      forall k ensures Count(t.connsPerHost, k) == Load(t, k) {
        assert Load(t, k) == Load(s, k);
      }
    }
  }

  lemma DeliverKeeps(cfg: Config, s: Pool, w: nat, c: nat)
    requires InvWith(cfg, s, Some(c)) && w < |s.wants| && c < |s.conns|
    requires Accepts(s.wants, w) && s.wants[w].key == s.conns[c].key
    ensures InvWith(cfg, Deliver(s, w, c), None)
  {
    var t := Deliver(s, w, c);
    assert SettledOnce(s.wants[w]);
    SettlingKeepsQueues(cfg, s, t);
    forall x | 0 <= x < |t.owner| ensures HeldAsRecorded(t, x, None) {
      assert HeldAsRecorded(s, x, Some(c));
    }
  }

  lemma DeliverErrorKeeps(cfg: Config, s: Pool, w: nat, hand: Option<nat>)
    requires InvWith(cfg, s, hand) && w < |s.wants|
    ensures InvWith(cfg, DeliverError(s, w), hand)
  {
    if Accepts(s.wants, w) {
      var t := DeliverError(s, w);
      assert SettledOnce(s.wants[w]);
      SettlingKeepsQueues(cfg, s, t);
      forall x | 0 <= x < |t.owner| ensures HeldAsRecorded(t, x, hand) {
        assert HeldAsRecorded(s, x, hand);
      }
    }
  }

  /** CancelWant as the last act of its getConn goroutine. */
  function CancelAndEnd(s: Pool, w: nat): (t: Pool)
    requires w < |s.wants|
  {
    var t := CancelWant(s, w).0;
    t.(wants := t.wants[w := t.wants[w].(phase := Done)])
  }

  lemma CancelOwned(cfg: Config, s: Pool, w: nat)
    requires InvWith(cfg, s, None) && w < |s.wants| && s.wants[w].phase == Waiting
    ensures Shape(CancelAndEnd(s, w)) && Owned(CancelAndEnd(s, w), s.wants[w].pc)
  {
    var t := CancelAndEnd(s, w);
    var back := s.wants[w].pc;
    assert t.wants == s.wants[w := t.wants[w]] && t.wants[w].pc == None;
    assert t.conns == s.conns && t.dials == s.dials && t.puts == s.puts && t.idleConn == s.idleConn
      && t.idleLRU == s.idleLRU;
    if back.Some? {
      assert t.owner == s.owner[back.value := InHand] && s.owner[back.value] == ByWant(w);
    }
    forall x | 0 <= x < |t.owner| ensures HeldAsRecorded(t, x, back) {
      assert HeldAsRecorded(s, x, None);
    }
  }

  /** cancel takes a delivered connection back exactly when there is one. */
  lemma CancelKeeps(cfg: Config, s: Pool, w: nat)
    requires InvWith(cfg, s, None) && w < |s.wants| && s.wants[w].phase == Waiting
    ensures InvWith(cfg, CancelAndEnd(s, w), s.wants[w].pc) && CancelWant(s, w).1 == s.wants[w].pc
  {
    var t := CancelAndEnd(s, w);
    assert SettledOnce(s.wants[w]);
    SettlingKeepsQueues(cfg, s, t);
    CancelOwned(cfg, s, w);
  }

  // ---- the idle pool ----

  lemma InsertOrders(lists: map<Key, seq<nat>>, lru: seq<nat>, k: Key, c: nat)
    requires forall k' :: k' in lists ==> Ordered(lists[k'], lru)
    ensures Ordered(Entries(lists, k) + [c], [c] + lru)
    ensures c !in lru && Distinct(lru) ==> forall k' :: k' in lists ==> Ordered(lists[k'], [c] + lru)
  {
    var list := Entries(lists, k) + [c];
    assert list[..|list| - 1] == Entries(lists, k);
    assert ([c] + lru)[1..] == lru;
    if c !in lru && Distinct(lru) {
      forall k' | k' in lists ensures Ordered(lists[k'], [c] + lru) {
        OrderedDeeper(lists[k'], [c] + lru);
      }
    }
  }

  lemma InsertLists(cfg: Config, s: Pool, c: nat)
    requires Shape(s) && Owned(s, Some(c)) && ListsOk(cfg, s) && c < |s.conns| && !s.fault
    requires |Entries(s.idleConn, s.conns[c].key)| < cfg.IdlePerHost()
    ensures var t := Insert(s, c); Shape(t) && ListsOk(cfg, t) && !t.fault
  {
    assert c !in s.idleLRU;
    assert c !in Entries(s.idleConn, s.conns[c].key);
    InsertOrders(s.idleConn, s.idleLRU, s.conns[c].key, c);
  }

  lemma InsertOwned(s: Pool, c: nat)
    requires Shape(s) && Owned(s, Some(c)) && c < |s.conns|
    ensures Shape(Insert(s, c)) && Owned(Insert(s, c), None)
  {
    var t := Insert(s, c);
    var k := s.conns[c].key;
    assert forall x :: x in Entries(t.idleConn, k) <==> x in Entries(s.idleConn, k) || x == c;
    forall x | 0 <= x < |t.owner| ensures HeldAsRecorded(t, x, None) {
      assert HeldAsRecorded(s, x, Some(c));
    }
  }

  lemma InsertKeeps(cfg: Config, s: Pool, c: nat)
    requires InvWith(cfg, s, Some(c)) && c < |s.conns|
    requires |Entries(s.idleConn, s.conns[c].key)| < cfg.IdlePerHost()
    requires s.conns[c].key !in s.idleConnWait
    ensures InvWith(cfg, Insert(s, c), None)
  {
    InsertLists(cfg, s, c);
    InsertOwned(s, c);
  }

  /** The idle half of the pool: what sections of idleMu change and decConnsPerHost never looks at. */
  function WithIdle(s: Pool, lists: map<Key, seq<nat>>, lru: seq<nat>, owner: seq<Owner>): (t: Pool) {
    s.(idleConn := lists, idleLRU := lru, owner := owner)
  }

  lemma DecIgnoresIdle(cfg: Config, s: Pool, lists: map<Key, seq<nat>>, lru: seq<nat>, owner: seq<Owner>, k: Key)
    ensures DecConnsPerHost(cfg, WithIdle(s, lists, lru, owner), k)
      == WithIdle(DecConnsPerHost(cfg, s, k), lists, lru, owner)
  {
    var t := WithIdle(s, lists, lru, owner);
    assert t.connsPerHost == s.connsPerHost && t.connsPerHostWait == s.connsPerHostWait && t.wants == s.wants
      && t.dials == s.dials;
    if cfg.maxConnsPerHost > 0 {
      if Count(s.connsPerHost, k) == 0 {
      } else if DropSettled(s.wants, Entries(s.connsPerHostWait, k)) == [] {
      } else {
      }
    }
  }

  lemma CloseIgnoresIdle(cfg: Config, s: Pool, lists: map<Key, seq<nat>>, lru: seq<nat>, owner: seq<Owner>, c: nat)
    requires c < |s.conns|
    ensures CloseConn(cfg, WithIdle(s, lists, lru, owner), c) == WithIdle(CloseConn(cfg, s, c), lists, lru, owner)
  {
    var conns' := s.conns[c := s.conns[c].(closed := true)];
    assert WithIdle(s, lists, lru, owner).(conns := conns') == WithIdle(s.(conns := conns'), lists, lru, owner);
    DecIgnoresIdle(cfg, s.(conns := conns'), lists, lru, owner, s.conns[c].key);
  }

  /** Taking the oldest off first and closing it after is the same as closing it and then taking it off. */
  lemma EvictIsCloseThenRemove(cfg: Config, s: Pool)
    requires Shape(s) && Distinct(s.idleLRU) && s.idleLRU != []
    ensures var n := |s.idleLRU| - 1; var oldest := s.idleLRU[n];
      RemoveIdle(CloseConn(cfg, s.(idleLRU := s.idleLRU[..n]), oldest), oldest)
        == RemoveIdle(CloseConn(cfg, s, oldest), oldest)
  {
    var n := |s.idleLRU| - 1;
    var oldest := s.idleLRU[n];
    CloseIgnoresIdle(cfg, s, s.idleConn, s.idleLRU[..n], s.owner, oldest);
    assert s.(idleLRU := s.idleLRU[..n]) == WithIdle(s, s.idleConn, s.idleLRU[..n], s.owner);
    CloseConnFrame(cfg, s, oldest);
    var i := WithoutAt(s.idleLRU, oldest);
    assert i == n && Without(s.idleLRU, oldest) == s.idleLRU[..n];
    WithoutAbsent(s.idleLRU[..n], oldest);
  }

  lemma RetireKeeps(cfg: Config, s: Pool, c: nat)
    requires InvWith(cfg, s, None) && c in s.idleLRU
    ensures c < |s.conns|
    ensures var t := RemoveIdle(CloseConn(cfg, s, c), c); InvWith(cfg, t, None) && |t.idleLRU| == |s.idleLRU| - 1
  {
    var i :| 0 <= i < |s.idleLRU| && s.idleLRU[i] == c;
    CloseConnFrame(cfg, s, c);
    CloseConnKeeps(cfg, s, c, None);
    RemoveIdleKeeps(cfg, CloseConn(cfg, s, c), c, None);
    WithoutMembers(s.idleLRU, c);
  }

  lemma EvictIs(cfg: Config, s: Pool)
    requires Shape(s) && Distinct(s.idleLRU)
    requires cfg.maxIdleConns != 0 && |s.idleLRU| > cfg.maxIdleConns && s.idleLRU != []
    ensures var oldest := s.idleLRU[|s.idleLRU| - 1]; Evict(cfg, s) == RemoveIdle(CloseConn(cfg, s, oldest), oldest)
  {
    EvictIsCloseThenRemove(cfg, s);
  }

  lemma EvictKeeps(cfg: Config, s: Pool)
    requires InvWith(cfg, s, None)
    requires cfg.maxIdleConns != 0 ==> |s.idleLRU| <= (if cfg.maxIdleConns > 0 then cfg.maxIdleConns else 0) + 1
    ensures Inv(cfg, Evict(cfg, s))
  {
    var t := Evict(cfg, s);
    if cfg.maxIdleConns != 0 && |s.idleLRU| > cfg.maxIdleConns && s.idleLRU != [] {
      EvictIs(cfg, s);
      RetireKeeps(cfg, s, s.idleLRU[|s.idleLRU| - 1]);
      assert InvWith(cfg, t, None) && |t.idleLRU| == |s.idleLRU| - 1;
    } else {
      assert t == s;
    }
  }

  lemma AcceptsIsWaiting(wants: seq<Want>, q: seq<nat>)
    requires WantsSettleOnce(wants)
    ensures DropTaken(wants, q) == DropSettled(wants, q)
  {
    if q != [] {
      if q[0] < |wants| { assert SettledOnce(wants[q[0]]); }
      AcceptsIsWaiting(wants, q[1..]);
    }
  }

  /** Serving the front of idleConnWait[k], or finding nobody there. */
  lemma PopWaiterKeeps(cfg: Config, s: Pool, k: Key, hand: Option<nat>)
    requires InvWith(cfg, s, hand) && k in s.idleConnWait
    ensures var rest := DropTaken(s.wants, Entries(s.idleConnWait, k));
      InvWith(cfg, s.(idleConnWait := Store(s.idleConnWait, k, if rest == [] then [] else rest[1..])), hand)
  {
    var full := Entries(s.idleConnWait, k);
    AcceptsIsWaiting(s.wants, full);
    var rest := DropTaken(s.wants, full);
    SettledQueue(s.wants, s.idleConnWait, k);
    DecQueue(s.wants, s.idleConnWait, k);
    var t := s.(idleConnWait := Store(s.idleConnWait, k, if rest == [] then [] else rest[1..]));
    forall k', i | k' in t.idleConnWait && k' in t.idleConn && 0 <= i < |t.idleConnWait[k']|
      ensures !IsWaiting(t.wants, t.idleConnWait[k'][i])
    {
      assert k' == k ==> rest == [];
    }
    forall x | 0 <= x < |t.owner| ensures HeldAsRecorded(t, x, hand) {
      assert HeldAsRecorded(s, x, hand);
    }
  }

  lemma AfterPopsKeeps(cfg: Config, s: Pool, k: Key, hand: Option<nat>)
    requires InvWith(cfg, s, hand)
    ensures InvWith(cfg, AfterPops(s, k), hand)
    ensures var rest := DropTaken(s.wants, Entries(s.idleConnWait, k));
      if rest == [] then k !in AfterPops(s, k).idleConnWait else rest[0] < |s.wants| && s.wants[rest[0]].key == k
  {
    if k in s.idleConnWait {
      PopWaiterKeeps(cfg, s, k, hand);
      AcceptsIsWaiting(s.wants, s.idleConnWait[k]);
      SettledQueue(s.wants, s.idleConnWait, k);
    }
  }

  lemma PooledKeeps(cfg: Config, s: Pool, c: nat)
    requires InvWith(cfg, s, Some(c)) && GlobalCap(cfg, s) && c < |s.conns|
    requires |Entries(s.idleConn, s.conns[c].key)| < cfg.IdlePerHost()
    requires s.conns[c].key !in s.idleConnWait
    ensures Inv(cfg, Evict(cfg, Insert(s, c)))
  {
    InsertKeeps(cfg, s, c);
    assert |Insert(s, c).idleLRU| == |s.idleLRU| + 1;
    EvictKeeps(cfg, Insert(s, c));
  }

  /** tryPutIdleConn: the connection leaves the caller's hands exactly when it succeeds. */
  lemma TryPutIdleKeeps(cfg: Config, s: Pool, c: nat)
    requires InvWith(cfg, s, Some(c)) && GlobalCap(cfg, s) && c < |s.conns|
    ensures var (t, ok) := TryPutIdle(cfg, s, c);
      if ok then Inv(cfg, t) else InvWith(cfg, t, Some(c)) && GlobalCap(cfg, t)
  {
    var k := s.conns[c].key;
    if DropTaken(s.wants, Entries(s.idleConnWait, k)) != [] {
      TryPutServes(cfg, s, c);
    } else if s.closeIdle || |Entries(s.idleConn, k)| >= cfg.IdlePerHost() {
      TryPutRefuses(cfg, s, c);
    } else {
      TryPutPools(cfg, s, c);
    }
  }

  lemma TryPutServes(cfg: Config, s: Pool, c: nat)
    requires InvWith(cfg, s, Some(c)) && GlobalCap(cfg, s) && c < |s.conns|
    requires DropTaken(s.wants, Entries(s.idleConnWait, s.conns[c].key)) != []
    ensures TryPutIdle(cfg, s, c).1 && Inv(cfg, TryPutIdle(cfg, s, c).0)
  {
    ServedKeeps(cfg, s, c);
  }

  lemma TryPutRefuses(cfg: Config, s: Pool, c: nat)
    requires InvWith(cfg, s, Some(c)) && GlobalCap(cfg, s) && c < |s.conns|
    requires DropTaken(s.wants, Entries(s.idleConnWait, s.conns[c].key)) == []
    requires s.closeIdle || |Entries(s.idleConn, s.conns[c].key)| >= cfg.IdlePerHost()
    ensures !TryPutIdle(cfg, s, c).1 && InvWith(cfg, TryPutIdle(cfg, s, c).0, Some(c))
      && GlobalCap(cfg, TryPutIdle(cfg, s, c).0)
  {
    AfterPopsKeeps(cfg, s, s.conns[c].key, Some(c));
    assert TryPutIdle(cfg, s, c) == (AfterPops(s, s.conns[c].key), false);
  }

  lemma TryPutPools(cfg: Config, s: Pool, c: nat)
    requires InvWith(cfg, s, Some(c)) && GlobalCap(cfg, s) && c < |s.conns|
    requires DropTaken(s.wants, Entries(s.idleConnWait, s.conns[c].key)) == []
    requires !s.closeIdle && |Entries(s.idleConn, s.conns[c].key)| < cfg.IdlePerHost()
    ensures TryPutIdle(cfg, s, c).1 && Inv(cfg, TryPutIdle(cfg, s, c).0)
  {
    AfterPopsKeeps(cfg, s, s.conns[c].key, Some(c));
    PooledKeeps(cfg, AfterPops(s, s.conns[c].key), c);
  }

  /** A waiting request takes the connection. */
  lemma ServedKeeps(cfg: Config, s: Pool, c: nat)
    requires InvWith(cfg, s, Some(c)) && GlobalCap(cfg, s) && c < |s.conns|
    requires DropTaken(s.wants, Entries(s.idleConnWait, s.conns[c].key)) != []
    ensures var k := s.conns[c].key; var rest := DropTaken(s.wants, Entries(s.idleConnWait, k));
      rest[0] < |s.wants| && Inv(cfg, Deliver(AfterPops(s, k), rest[0], c))
  {
    var k := s.conns[c].key;
    var w := DropTaken(s.wants, Entries(s.idleConnWait, k))[0];
    AfterPopsKeeps(cfg, s, k, Some(c));
    assert AfterPops(s, k).wants == s.wants && AfterPops(s, k).conns == s.conns;
    DeliverKeeps(cfg, AfterPops(s, k), w, c);
    assert Deliver(AfterPops(s, k), w, c).idleLRU == s.idleLRU;
  }

  /** closeConnIfStillIdle takes the connection off the pool before it closes it; the other order ends the same. */
  lemma StillIdleIsCloseThenRemove(cfg: Config, s: Pool, c: nat)
    requires c < |s.conns| && |s.owner| == |s.conns|
    ensures CloseConn(cfg, RemoveIdle(s, c), c) == RemoveIdle(CloseConn(cfg, s, c), c)
  {
    var t := RemoveIdle(s, c);
    assert t == WithIdle(s, t.idleConn, t.idleLRU, t.owner);
    CloseIgnoresIdle(cfg, s, t.idleConn, t.idleLRU, t.owner, c);
    CloseConnFrame(cfg, s, c);
  }

  lemma CloseIfStillIdleKeeps(cfg: Config, s: Pool, c: nat)
    requires Inv(cfg, s) && c < |s.conns|
    ensures Inv(cfg, CloseIfStillIdle(cfg, s, c))
    ensures c !in CloseIfStillIdle(cfg, s, c).idleLRU
  {
    if c in s.idleLRU {
      StillIdleIsCloseThenRemove(cfg, s, c);
      CloseConnKeeps(cfg, s, c, None);
      CloseConnFrame(cfg, s, c);
      RemoveIdleKeeps(cfg, CloseConn(cfg, s, c), c, None);
      WithoutMembers(s.idleLRU, c);
    }
  }

  // ---- queueForIdleConn ----

  /** Splitting the list of k: the kept and the dropped part do not meet, and both were idle under k. */
  lemma SplitIdle(cfg: Config, s: Pool, k: Key, n: nat)
    requires InvWith(cfg, s, None) && k in s.idleConn && n <= |s.idleConn[k]|
    ensures var full := s.idleConn[k];
      && (forall c :: c in full ==> c < |s.conns| && s.owner[c] == Idle && s.conns[c].key == k && c in s.idleLRU)
      && (forall c :: c in full <==> c in full[..n] || c in full[n..])
      && (forall c :: c in full[..n] ==> c !in full[n..])
      && Ordered(full[..n], s.idleLRU)
  {
    var full := s.idleConn[k];
    OrderedMembers(full, s.idleLRU);
    OrderedPrefix(full, n, s.idleLRU);
    assert full == full[..n] + full[n..];
  }

  lemma DropIdleLists(cfg: Config, s: Pool, k: Key, n: nat, tooOld: set<nat>)
    requires InvWith(cfg, s, None) && k in s.idleConn && n <= |s.idleConn[k]|
    ensures var t := DropIdle(s, k, s.idleConn[k][..n], s.idleConn[k][n..], tooOld);
      && Shape(t) && ListsOwn(t.idleConn, t.conns, t.owner) && ListsOk(cfg, t)
      && (forall k', x :: k' != k ==> (x in Entries(t.idleConn, k') <==> x in Entries(s.idleConn, k')))
      && Entries(t.idleConn, k) == s.idleConn[k][..n]
  {
    var full := s.idleConn[k];
    var t := DropIdle(s, k, full[..n], full[n..], tooOld);
    SplitIdle(cfg, s, k, n);
    forall k', i | k' in t.idleConn && 0 <= i < |t.idleConn[k']|
      ensures t.idleConn[k'][i] < |t.conns| && t.conns[t.idleConn[k'][i]].key == k'
        && t.owner[t.idleConn[k'][i]] == Idle
    {
      if k' == k { assert full[..n][i] in full[..n]; }
    }
  }

  lemma DropIdleOwned(cfg: Config, s: Pool, k: Key, n: nat, tooOld: set<nat>)
    requires InvWith(cfg, s, None) && k in s.idleConn && n <= |s.idleConn[k]|
    requires forall c :: c in s.idleConn[k][n..] ==> (c < |s.conns| && s.conns[c].closed) || c in tooOld
    ensures var t := DropIdle(s, k, s.idleConn[k][..n], s.idleConn[k][n..], tooOld);
      Shape(t) && Owned(t, None)
  {
    var full := s.idleConn[k];
    var t := DropIdle(s, k, full[..n], full[n..], tooOld);
    SplitIdle(cfg, s, k, n);
    DropIdleLists(cfg, s, k, n, tooOld);
    forall c | 0 <= c < |t.owner| ensures HeldAsRecorded(t, c, None) {
      assert HeldAsRecorded(s, c, None);
    }
  }

  lemma DropIdleKeeps(cfg: Config, s: Pool, k: Key, n: nat, tooOld: set<nat>)
    requires InvWith(cfg, s, None) && k in s.idleConn && n <= |s.idleConn[k]|
    requires forall c :: c in s.idleConn[k][n..] ==> (c < |s.conns| && s.conns[c].closed) || c in tooOld
    ensures InvWith(cfg, DropIdle(s, k, s.idleConn[k][..n], s.idleConn[k][n..], tooOld), None)
  {
    DropIdleLists(cfg, s, k, n, tooOld);
    DropIdleOwned(cfg, s, k, n, tooOld);
  }

  /** The newest connection of k leaves its list and the LRU, and is in the hands of the section. */
  function TakeNewest(s: Pool, k: Key): (t: Pool)
    requires k in s.idleConn && s.idleConn[k] != []
  {
    var list := s.idleConn[k];
    var c := list[|list| - 1];
    s.(idleLRU := Without(s.idleLRU, c), idleConn := Store(s.idleConn, k, list[..|list| - 1]),
       owner := if c < |s.owner| then s.owner[c := InHand] else s.owner)
  }

  lemma TakeNewestIsRemove(cfg: Config, s: Pool, k: Key)
    requires InvWith(cfg, s, None) && k in s.idleConn && s.idleConn[k] != []
    ensures var c := s.idleConn[k][|s.idleConn[k]| - 1];
      && s.conns[c].key == k && s.owner[c] == Idle
      && TakeNewest(s, k) == RemoveIdle(s, c).(owner := s.owner[c := InHand])
  {
    var list := s.idleConn[k];
    var n := |list| - 1;
    OrderedMembers(list, s.idleLRU);
    var i := WithoutAt(list, list[n]);
    assert i == n && Without(list, list[n]) == list[..n];
  }

  lemma TakeNewestLists(cfg: Config, s: Pool, k: Key)
    requires InvWith(cfg, s, None) && k in s.idleConn && s.idleConn[k] != []
    ensures var t := TakeNewest(s, k); var c := s.idleConn[k][|s.idleConn[k]| - 1];
      && Shape(t) && ListsOk(cfg, t) && ListsOwn(t.idleConn, t.conns, t.owner) && LruOwns(t.idleLRU, t.owner)
      && s.owner[c] == Idle && t.owner == s.owner[c := InHand]
      && (forall k', x :: x in Entries(t.idleConn, k') <==> x in Entries(s.idleConn, k') && x != c)
      && (forall x :: x in t.idleLRU <==> x in s.idleLRU && x != c)
      && t.idleConn.Keys <= s.idleConn.Keys
  {
    var c := s.idleConn[k][|s.idleConn[k]| - 1];
    var t := TakeNewest(s, k);
    TakeNewestIsRemove(cfg, s, k);
    RemoveIdleLists(cfg, s, c, None);
    forall k', j | k' in t.idleConn && 0 <= j < |t.idleConn[k']|
      ensures t.conns[t.idleConn[k'][j]].key == k' && t.owner[t.idleConn[k'][j]] == Idle
    {
      assert t.idleConn[k'][j] in Entries(t.idleConn, k');
      assert t.idleConn[k'][j] in Entries(s.idleConn, k');
    }
    forall j | 0 <= j < |t.idleLRU| ensures t.owner[t.idleLRU[j]] in {Idle, LeftBehind} {
      assert t.idleLRU[j] in t.idleLRU;
    }
  }

  lemma TakeNewestKeeps(cfg: Config, s: Pool, k: Key)
    requires InvWith(cfg, s, None) && k in s.idleConn && s.idleConn[k] != []
    ensures InvWith(cfg, TakeNewest(s, k), Some(s.idleConn[k][|s.idleConn[k]| - 1]))
  {
    var c := s.idleConn[k][|s.idleConn[k]| - 1];
    var t := TakeNewest(s, k);
    TakeNewestLists(cfg, s, k);
    forall x | 0 <= x < |t.owner| ensures HeldAsRecorded(t, x, Some(c)) {
      assert HeldAsRecorded(s, x, None);
    }
  }

  lemma PushWaiterKeeps(cfg: Config, s: Pool, w: nat)
    requires Inv(cfg, s) && w < |s.wants| && s.wants[w].key !in s.idleConn
    ensures Inv(cfg, Enlist(s, w))
  {
    var k := s.wants[w].key;
    var t := Enlist(s, w);
    SettledQueue(s.wants, s.idleConnWait, k);
    forall x | 0 <= x < |t.owner| ensures HeldAsRecorded(t, x, None) {
      assert HeldAsRecorded(s, x, None);
    }
  }

  /** What the search of queueForIdleConn leaves behind before it delivers or queues. */
  lemma SearchKeeps(cfg: Config, s: Pool, k: Key, tooOld: set<nat>)
    requires Inv(cfg, s)
    ensures var full := Entries(s.idleConn, k); var list := UsablePrefix(s.conns, tooOld, full);
      list <= full && Inv(cfg, Searched(s, k, tooOld))
  {
    var full := Entries(s.idleConn, k);
    UsablePrefixIsPrefix(s.conns, tooOld, full);
    var n := |UsablePrefix(s.conns, tooOld, full)|;
    var s0 := s.(closeIdle := false);
    OwnedFrame(s, s0, None);
    if k in s.idleConn {
      assert full[..n] == UsablePrefix(s.conns, tooOld, full);
      forall c | c in full[n..] ensures (c < |s.conns| && s.conns[c].closed) || c in tooOld {
        var j :| 0 <= j < |full| - n && full[n..][j] == c;
        assert full[n + j] == c;
      }
      DropIdleKeeps(cfg, s0, k, n, tooOld);
    } else {
      var t := DropIdle(s0, k, [], [], tooOld);
      assert t.owner == s0.owner && t.stale == s0.stale && t.idleConn == s0.idleConn;
      assert t == s0;
    }
  }

  lemma DeliverOverwritesOwner(s: Pool, w: nat, c: nat, o: Owner)
    requires w < |s.wants| && c < |s.owner|
    ensures Deliver(SetOwner(s, c, o), w, c) == Deliver(s, w, c)
  {
    assert s.owner[c := o][c := ByWant(w)] == s.owner[c := ByWant(w)];
  }

  lemma DeliverNewestKeeps(cfg: Config, s: Pool, w: nat)
    requires Inv(cfg, s) && w < |s.wants| && Accepts(s.wants, w)
    requires s.wants[w].key in s.idleConn && s.idleConn[s.wants[w].key] != []
    ensures var k := s.wants[w].key; var list := s.idleConn[k]; var c := list[|list| - 1];
      c < |s.owner| && Inv(cfg,
        Deliver(s.(idleLRU := Without(s.idleLRU, c), idleConn := Store(s.idleConn, k, list[..|list| - 1])), w, c))
  {
    var k := s.wants[w].key;
    var list := s.idleConn[k];
    var c := list[|list| - 1];
    var taken := s.(idleLRU := Without(s.idleLRU, c), idleConn := Store(s.idleConn, k, list[..|list| - 1]));
    TakeNewestIsRemove(cfg, s, k);
    TakeNewestKeeps(cfg, s, k);
    assert TakeNewest(s, k) == SetOwner(taken, c, InHand);
    DeliverKeeps(cfg, TakeNewest(s, k), w, c);
    DeliverOverwritesOwner(taken, w, c, InHand);
    WithoutMembers(s.idleLRU, c);
  }

  lemma QueueForIdleKeeps(cfg: Config, s: Pool, w: nat, aged: set<nat>)
    requires Inv(cfg, s) && w < |s.wants|
    ensures var (t, delivered) := QueueForIdle(cfg, s, w, aged);
      Inv(cfg, t) && (delivered ==> t.wants[w].pc.Some?)
  {
    if !cfg.disableKeepAlives {
      var k := s.wants[w].key;
      var tooOld := TooOld(cfg, aged);
      SearchKeeps(cfg, s, k, tooOld);
      var list := UsablePrefix(s.conns, tooOld, Entries(s.idleConn, k));
      var s1 := Searched(s, k, tooOld);
      assert s1.wants == s.wants && s1.idleConn == Store(s.idleConn, k, list);
      if list == [] {
        PushWaiterKeeps(cfg, s1, w);
        assert QueueForIdle(cfg, s, w, aged) == (Enlist(s1, w), false);
      } else {
        OfferKeeps(cfg, s1, w);
        assert QueueForIdle(cfg, s, w, aged) == Offer(s1, w, k, list);
      }
    }
  }

  lemma OfferKeeps(cfg: Config, s: Pool, w: nat)
    requires Inv(cfg, s) && w < |s.wants| && s.wants[w].key in s.idleConn && s.idleConn[s.wants[w].key] != []
    ensures var k := s.wants[w].key; var (t, delivered) := Offer(s, w, k, s.idleConn[k]);
      Inv(cfg, t) && (delivered ==> t.wants[w].pc.Some?)
  {
    if Accepts(s.wants, w) { DeliverNewestKeeps(cfg, s, w); }
  }
}