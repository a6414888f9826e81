/**
  The pool sections in the form the source has them: methods that update the
  fields of a Transport in place and pop queues in loops. Each is proved equal
  to its function in PoolState, about which the invariants are proved.
 */
module TransportClass {
  import opened Options
  import opened PoolState
  import opened PoolInvariant

  lemma StaleOneMore(stale: set<nat>, dropped: seq<nat>, c: nat, tooOld: set<nat>)
    ensures stale + (set x | x in [c] + dropped && x in tooOld)
         == stale + (set x | x in dropped && x in tooOld) + if c in tooOld then {c} else {}
  {
  }

  /** Without a list there is nothing to drop. */
  lemma NothingDropped(s: Pool, k: Key, tooOld: set<nat>)
    requires k !in s.idleConn
    ensures DropIdle(s, k, [], [], tooOld) == s
  {
    var t := DropIdle(s, k, [], [], tooOld);
    assert t.owner == s.owner && t.stale == s.stale && t.idleConn == s.idleConn;
  }

  /** Taking the last one of a prefix puts it in front of what was taken before. */
  lemma LastDropped(full: seq<nat>, list: seq<nat>)
    requires list <= full && list != []
    ensures full[|list| - 1..] == [list[|list| - 1]] + full[|list|..]
    ensures list[..|list| - 1] <= full
    ensures forall c :: c in full[|list| - 1..] <==> c == list[|list| - 1] || c in full[|list|..]
  {
  }

  class Transport {
    const cfg: Config
    var idleConn: map<Key, seq<nat>>
    var idleLRU: seq<nat>
    var idleConnWait: map<Key, seq<nat>>
    var closeIdle: bool
    var connsPerHost: map<Key, int>
    var connsPerHostWait: map<Key, seq<nat>>
    var wants: seq<Want>
    var conns: seq<Conn>
    var dials: seq<Dial>
    var puts: seq<Put>
    var stale: set<nat>
    ghost var owner: seq<Owner>
    var fault: bool

    ghost function State(): (t: Pool)
      reads this
    {
      Pool(idleConn, idleLRU, idleConnWait, closeIdle, connsPerHost, connsPerHostWait, wants, conns, dials, puts, stale,
        owner, fault)
    }

    constructor (cfg: Config)
      ensures this.cfg == cfg && State() == EMPTY_POOL
    {
      this.cfg := cfg;
      idleConn, idleLRU, idleConnWait, closeIdle := map[], [], map[], false;
      connsPerHost, connsPerHostWait := map[], map[];
      wants, conns, dials, puts, stale, owner, fault := [], [], [], [], {}, [], false;
    }

    // ---- wantConn ----

    /** tryDeliver(pc, nil) */
    method TryDeliver(w: nat, c: nat) returns (ok: bool)
      requires w < |wants| && c < |owner|
      modifies this`wants, this`owner, this`fault
      ensures ok == Accepts(old(wants), w)
      ensures State() == if ok then Deliver(old(State()), w, c) else old(State())
    {
      if wants[w].pc.Some? || wants[w].err {
        return false;
      }
      fault := fault || wants[w].ready;
      wants := wants[w := wants[w].(ctx := false, pc := Some(c), ready := true)];
      owner := owner[c := ByWant(w)];
      return true;
    }

    /** tryDeliver(nil, err) */
    method TryDeliverError(w: nat) returns (ok: bool)
      requires w < |wants|
      modifies this`wants, this`fault
      ensures ok == Accepts(old(wants), w)
      ensures State() == DeliverError(old(State()), w)
    {
      if wants[w].pc.Some? || wants[w].err {
        return false;
      }
      fault := fault || wants[w].ready;
      wants := wants[w := wants[w].(ctx := false, err := true, ready := true)];
      return true;
    }

    /** cancel up to its unlock; `pc` is what it then gives to putOrCloseIdleConn. */
    method Cancel(w: nat) returns (pc: Option<nat>)
      requires w < |wants|
      modifies this`wants, this`owner, this`fault
      ensures (State(), pc) == CancelWant(old(State()), w)
    {
      pc := wants[w].pc;
      if pc.None? && !wants[w].err {
        fault := fault || wants[w].ready;
      }
      wants := wants[w := wants[w].(ctx := false, pc := None, err := true, ready := true)];
      if pc.Some? && pc.value < |owner| {
        owner := owner[pc.value := InHand];
      }
    }

    // ---- connsPerHostMu ----

    method DecConnsPerHost(k: Key)
      modifies this`connsPerHost, this`connsPerHostWait, this`dials, this`fault
      ensures State() == PoolState.DecConnsPerHost(cfg, old(State()), k)
    {
      if cfg.maxConnsPerHost <= 0 {
        return;
      }
      var n := Count(connsPerHost, k);
      if n == 0 {
        fault := true;
        return;
      }
      var q := Entries(connsPerHostWait, k);
      if |q| > 0 {
        var done := false;
        while |q| > 0 && !done
          invariant State() == old(State()).(dials := dials)
          invariant !done ==>
            DropSettled(wants, q) == DropSettled(wants, Entries(connsPerHostWait, k)) && dials == old(dials)
          invariant done ==> var r := DropSettled(wants, Entries(connsPerHostWait, k));
                       r != [] && q == r[1..] && dials == old(dials) + [Start(r[0])]
          decreases |q|
        {
          var w := q[0];
          if IsWaiting(wants, w) {
            dials := dials + [Start(w)];
            done := true;
          }
          q := q[1..];
        }
        connsPerHostWait := if |q| == 0 then connsPerHostWait - {k} else connsPerHostWait[k := q];
        if done {
          return;
        }
      }
      n := n - 1;
      connsPerHost := if n == 0 then connsPerHost - {k} else connsPerHost[k := n];
    }

    /** cleanFront on a queue value */
    method CleanFront(q: seq<nat>) returns (r: seq<nat>)
      ensures r == DropSettled(wants, q)
    {
      r := q;
      while |r| > 0 && !IsWaiting(wants, r[0])
        invariant DropSettled(wants, r) == DropSettled(wants, q)
        decreases |r|
      {
        r := r[1..];
      }
    }

    method QueueForDial(w: nat)
      requires w < |wants|
      modifies this`connsPerHost, this`connsPerHostWait, this`dials
      ensures State() == PoolState.QueueForDial(cfg, old(State()), w)
    {
      if cfg.maxConnsPerHost <= 0 {
        dials := dials + [Start(w)];
        return;
      }
      var k := wants[w].key;
      var n := Count(connsPerHost, k);
      if n < cfg.maxConnsPerHost {
        connsPerHost := connsPerHost[k := n + 1];
        dials := dials + [Start(w)];
        return;
      }
      var q := CleanFront(Entries(connsPerHostWait, k));
      connsPerHostWait := connsPerHostWait[k := q + [w]];
    }

    /** persistConn.closeLocked */
    method CloseLocked(c: nat)
      requires c < |conns|
      modifies this`conns, this`connsPerHost, this`connsPerHostWait, this`dials, this`fault
      ensures State() == CloseConn(cfg, old(State()), c)
    {
      if !conns[c].closed {
        conns := conns[c := conns[c].(closed := true)];
        DecConnsPerHost(conns[c].key);
      }
    }

    // ---- idleMu ----

    method RemoveIdleConnLocked(c: nat) returns (removed: bool)
      requires c < |conns| && |owner| == |conns|
      modifies this`idleLRU, this`idleConn, this`owner
      ensures State() == RemoveIdle(old(State()), c)
      ensures removed <==> c in Entries(old(idleConn), old(conns[c].key))
    {
      idleLRU := Without(idleLRU, c);
      owner := if owner[c] in {Idle, LeftBehind} then owner[c := Gone] else owner;
      var k := conns[c].key;
      var pconns := Entries(idleConn, k);
      var i := 0;
      while i < |pconns| && pconns[i] != c
        invariant i <= |pconns| && c !in pconns[..i]
      {
        i := i + 1;
      }
      removed := i < |pconns|;
      if removed {
        FirstOccurrence(pconns, c, i);
        var rest := pconns[..i] + pconns[i + 1..];
        idleConn := if |rest| == 0 then idleConn - {k} else idleConn[k := rest];
      }
    }

    /** The delivery loop of tryPutIdleConn. */
    method ServeWaiter(c: nat) returns (done: bool)
      requires c < |conns| && |owner| == |conns|
      modifies this
      ensures var s := old(State()); var k := s.conns[c].key;
        var rest := DropTaken(s.wants, Entries(s.idleConnWait, k));
        && done == (rest != [])
        && State() == if done then Deliver(AfterPops(s, k), rest[0], c) else AfterPops(s, k)
    {
      var k := conns[c].key;
      done := false;
      if k in idleConnWait {
        var q := idleConnWait[k];
        ghost var rest := DropTaken(wants, q);
        while |q| > 0 && !done
          invariant c < |owner|
          invariant !done ==> State() == old(State()) && DropTaken(wants, q) == rest
          invariant done ==> rest != [] && q == rest[1..] && State() == Deliver(old(State()), rest[0], c)
          decreases |q|
        {
          var w := q[0];
          if w < |wants| {
            done := TryDeliver(w, c);
          }
          q := q[1..];
        }
        idleConnWait := if |q| == 0 then idleConnWait - {k} else idleConnWait[k := q];
      }
    }

    /** c joins the end of its list and the front of the LRU. */
    method InsertIdle(c: nat)
      requires c < |conns| && |owner| == |conns|
      modifies `idleConn, `idleLRU, `fault, `owner
      ensures State() == Insert(old(State()), c)
    {
      var k := conns[c].key;
      var idles := Entries(idleConn, k);
      fault := fault || c in idles || c in idleLRU;
      idleConn := idleConn[k := idles + [c]];
      idleLRU := [c] + idleLRU;
      owner := owner[c := Idle];
    }

    /** The global cap: the oldest connection is closed and removed. */
    method EvictOldest()
      requires |owner| == |conns| && Below(idleLRU, |conns|) && idleLRU != []
      modifies this
      ensures State() == Evict(cfg, old(State()))
    {
      if cfg.maxIdleConns != 0 && |idleLRU| > cfg.maxIdleConns {
        var oldest := idleLRU[|idleLRU| - 1];
        idleLRU := idleLRU[..|idleLRU| - 1];
        CloseLocked(oldest);
        var _ := RemoveIdleConnLocked(oldest);
      }
    }

    /** The rest of tryPutIdleConn once c may stay: append it, then respect the global cap. */
    method AddIdle(c: nat)
      requires c < |conns| && |owner| == |conns|
      requires Below(idleLRU, |conns|)
      modifies this
      ensures State() == Evict(cfg, Insert(old(State()), c))
    {
      InsertIdle(c);
      EvictOldest();
    }

    /** tryPutIdleConn after it has taken idleMu */
    method TryPutIdleConn(c: nat) returns (ok: bool)
      requires c < |conns| && |owner| == |conns|
      requires Below(idleLRU, |conns|)
      modifies this
      ensures (State(), ok) == TryPutIdle(cfg, old(State()), c)
    {
      var done := ServeWaiter(c);
      if done {
        return true;
      }
      if closeIdle {
        return false;
      }
      if |Entries(idleConn, conns[c].key)| >= cfg.IdlePerHost() {
        return false;
      }
      AddIdle(c);
      return true;
    }

    method CloseConnIfStillIdle(c: nat)
      requires c < |conns| && |owner| == |conns|
      modifies this
      ensures State() == CloseIfStillIdle(cfg, old(State()), c)
    {
      if c !in idleLRU {
        return;
      }
      var _ := RemoveIdleConnLocked(c);
      CloseLocked(c);
    }

    /** The search loop of queueForIdleConn: what is left of the list of k once the unusable end is dropped. */
    method DropUnusable(k: Key, tooOld: set<nat>) returns (list: seq<nat>)
      requires |owner| == |conns| && ListRefs(idleConn, |conns|) && k in idleConn
      modifies this`stale, this`owner
      ensures list == UsablePrefix(conns, tooOld, idleConn[k]) && list <= idleConn[k]
      ensures State() == DropIdle(old(State()), k, list, idleConn[k][|list|..], tooOld).(idleConn := idleConn)
    {
      ghost var full := idleConn[k];
      list := idleConn[k];
      UsablePrefixIsPrefix(conns, tooOld, full);
      while |list| > 0 && (conns[list[|list| - 1]].closed || list[|list| - 1] in tooOld)
        invariant list <= full && UsablePrefix(conns, tooOld, list) == UsablePrefix(conns, tooOld, full)
        invariant stale == old(stale) + (set c | c in full[|list|..] && c in tooOld)
        invariant |owner| == |conns| == |old(owner)|
        invariant forall i :: 0 <= i < |owner| ==> owner[i] == if i in full[|list|..] then LeftBehind else old(owner)[i]
        decreases |list|
      {
        var pconn := list[|list| - 1];
        LastDropped(full, list);
        StaleOneMore(old(stale), full[|list|..], pconn, tooOld);
        if pconn in tooOld {
          stale := stale + {pconn};
        }
        owner := owner[pconn := LeftBehind];
        list := list[..|list| - 1];
      }
      ghost var s1 := DropIdle(old(State()), k, list, full[|list|..], tooOld);
      assert owner == s1.owner;
    }

    /** Register to receive the next connection that becomes idle. */
    method QueueWaiter(w: nat)
      requires w < |wants|
      modifies this`idleConnWait
      ensures var k := wants[w].key;
        idleConnWait == old(idleConnWait)[k := DropSettled(wants, Entries(old(idleConnWait), k)) + [w]]
    {
      var q := CleanFront(Entries(idleConnWait, wants[w].key));
      idleConnWait := idleConnWait[wants[w].key := q + [w]];
    }

    /** The end of queueForIdleConn's search: offer the newest usable connection and write the list back. */
    method OfferNewest(w: nat, k: Key, usable: seq<nat>) returns (delivered: bool)
      requires w < |wants| && |usable| > 0 && usable[|usable| - 1] < |owner|
      modifies this`wants, this`owner, this`fault, this`idleLRU, this`idleConn
      ensures delivered == Accepts(old(wants), w)
      ensures var s1 := old(State()).(idleConn := Store(old(idleConn), k, usable)); var c := usable[|usable| - 1];
        State() == if delivered
                   then Deliver(s1.(idleLRU := Without(s1.idleLRU, c),
                     idleConn := Store(s1.idleConn, k, usable[..|usable| - 1])), w, c)
                   else s1
    {
      var list := usable;
      var pconn := list[|list| - 1];
      delivered := TryDeliver(w, pconn);
      if delivered {
        idleLRU := Without(idleLRU, pconn);
        list := list[..|list| - 1];
      }
      assert idleConn[k := usable][k := list] == idleConn[k := list] && idleConn[k := usable] - {k} == idleConn - {k};
      idleConn := if |list| > 0 then idleConn[k := list] else idleConn - {k};
    }

    /** queueForIdleConn; `aged` is the set of connections that its clock reading finds idle for longer than
        the timeout. */
    method QueueForIdleConn(w: nat, aged: set<nat>) returns (delivered: bool)
      requires w < |wants| && |owner| == |conns|
      requires ListRefs(idleConn, |conns|)
      modifies this
      ensures (State(), delivered) == QueueForIdle(cfg, old(State()), w, aged)
    {
      if cfg.disableKeepAlives {
        return false;
      }
      closeIdle := false;
      var tooOld := TooOld(cfg, aged);
      var k := wants[w].key;
      if k in idleConn {
        var list := DropUnusable(k, tooOld);
        if |list| > 0 {
          assert list[|list| - 1] == idleConn[k][|list| - 1];
          delivered := OfferNewest(w, k, list);
          return;
        }
        idleConn := idleConn - {k};
      } else {
        NothingDropped(State(), k, tooOld);
      }
      QueueWaiter(w);
      return false;
    }

    /** CloseIdleConnections up to its unlock; `listed` is the order in which it then closes. */
    method CloseIdleConnections(listed: seq<nat>)
      requires forall c :: c in listed ==> c < |owner|
      modifies this
      ensures State() == CloseIdleSection(old(State()), listed)
    {
      idleConn, closeIdle, idleLRU := map[], true, [];
      ghost var before := puts;
      owner := CloseIdleSection(old(State()), listed).owner;
      var i := 0;
      while i < |listed|
        invariant i <= |listed|
        invariant puts == before + seq(i, j requires 0 <= j < i => Put(listed[j], Closing))
        invariant idleConn == map[] && closeIdle && idleLRU == []
          && owner == CloseIdleSection(old(State()), listed).owner
        invariant unchanged(`idleConnWait) && unchanged(`connsPerHost) && unchanged(`connsPerHostWait)
          && unchanged(`wants)
        invariant unchanged(`conns) && unchanged(`dials) && unchanged(`stale) && unchanged(`fault)
      {
        puts := puts + [Put(listed[i], Closing)];
        i := i + 1;
      }
    }
  }

  lemma {:induction false} FirstOccurrence(s: seq<nat>, c: nat, i: nat)
    requires i < |s| && s[i] == c && c !in s[..i]
    ensures Without(s, c) == s[..i] + s[i + 1..]
  {
    if i > 0 {
      assert s[0] == s[..i][0];
      assert c !in s[1..][..i - 1] by {
        assert forall x :: x in s[1..][..i - 1] ==> x in s[..i];
      }
      FirstOccurrence(s[1..], c, i - 1);
      assert s[..i] == [s[0]] + s[1..][..i - 1];
    }
  }
}
