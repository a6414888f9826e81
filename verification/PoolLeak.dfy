/** Which connections the pool loses: open, counted, and out of reach of every request and timer. */
module PoolLeak {
  import opened Options
  import opened PoolState
  import opened PoolInvariant
  import opened PoolSections
  import opened PoolHandOver
  import opened PoolRun
  import opened PoolTheorems
  import opened PoolHistory

  /** Same orphans, and none of them gets closed (other than the one named). */
  ghost predicate SameOrphans(owner: seq<Owner>, conns: seq<Conn>, owner': seq<Owner>, conns': seq<Conn>,
    closing: Option<nat>)
  {
    && |owner| == |conns| <= |conns'| == |owner'|
    && (forall c :: 0 <= c < |owner| ==> (owner'[c] == Orphan <==> owner[c] == Orphan))
    && (forall c :: 0 <= c < |owner| && owner[c] == Orphan && closing != Some(c) ==>
      conns'[c].closed == conns[c].closed)
    && (forall c :: |owner| <= c < |owner'| ==> owner'[c] != Orphan)
  }

  ghost predicate OrphansStay(s: Pool, t: Pool, closing: Option<nat>) {
    SameOrphans(s.owner, s.conns, t.owner, t.conns, closing)
  }

  /** Handing one connection, not an orphan, from one place to another. */
  lemma HandOver(s: Pool, t: Pool, c: nat, o: Owner)
    requires |s.owner| == |s.conns| && c < |s.owner| && s.owner[c] != Orphan && o != Orphan
    requires t.conns == s.conns && t.owner == s.owner[c := o]
    ensures OrphansStay(s, t, None)
  {
  }

  lemma Unmoved(s: Pool, t: Pool)
    requires |s.owner| == |s.conns| && t.conns == s.conns && t.owner == s.owner
    ensures OrphansStay(s, t, None)
  {
  }

  lemma StillIdleOrphans(cfg: Config, s: Pool, c: nat)
    requires Shape(s) && Owned(s, None) && c < |s.conns|
    ensures OrphansStay(s, CloseIfStillIdle(cfg, s, c), None)
  {
    if c in s.idleLRU {
      var i :| 0 <= i < |s.idleLRU| && s.idleLRU[i] == c;
      CloseConnFrame(cfg, RemoveIdle(s, c), c);
    }
  }

  ghost predicate NoOrphanInLRU(s: Pool)
    requires Below(s.idleLRU, |s.owner|)
  {
    forall i :: 0 <= i < |s.idleLRU| ==> s.owner[s.idleLRU[i]] != Orphan
  }

  lemma EvictOrphans(cfg: Config, s: Pool)
    requires |s.owner| == |s.conns| && Below(s.idleLRU, |s.conns|) && NoOrphanInLRU(s)
    ensures OrphansStay(s, Evict(cfg, s), None)
  {
    if cfg.maxIdleConns != 0 && |s.idleLRU| > cfg.maxIdleConns && s.idleLRU != [] {
      var n := |s.idleLRU| - 1;
      CloseConnFrame(cfg, s.(idleLRU := s.idleLRU[..n]), s.idleLRU[n]);
    }
  }

  lemma InsertOrphans(cfg: Config, s: Pool, c: nat)
    requires |s.owner| == |s.conns| && Below(s.idleLRU, |s.conns|) && NoOrphanInLRU(s)
    requires c < |s.conns| && s.owner[c] != Orphan
    ensures OrphansStay(s, Evict(cfg, Insert(s, c)), None)
  {
    var t := Insert(s, c);
    HandOver(s, t, c, Idle);
    EvictOrphans(cfg, t);
  }

  lemma TryPutOrphans(cfg: Config, s: Pool, c: nat)
    requires |s.owner| == |s.conns| && Below(s.idleLRU, |s.conns|) && NoOrphanInLRU(s)
    requires c < |s.conns| && s.owner[c] != Orphan
    ensures OrphansStay(s, TryPutIdle(cfg, s, c).0, None)
    ensures !TryPutIdle(cfg, s, c).1 ==>
      TryPutIdle(cfg, s, c).0.owner == s.owner && TryPutIdle(cfg, s, c).0.conns == s.conns
  {
    var k := s.conns[c].key;
    var rest := DropTaken(s.wants, Entries(s.idleConnWait, k));
    var s2 := AfterPops(s, k);
    if rest != [] {
      HandOver(s, Deliver(s2, rest[0], c), c, ByWant(rest[0]));
    } else if s2.closeIdle || |Entries(s2.idleConn, k)| >= cfg.IdlePerHost() {
      Unmoved(s, s2);
    } else {
      InsertOrphans(cfg, s2, c);
    }
  }

  lemma PutInsertOrphans(cfg: Config, s: Pool, p: nat)
    requires Shape(s) && Owned(s, None) && p < |s.puts| && s.puts[p].stage != Over
    ensures OrphansStay(s, DoPutInsert(cfg, s, p), None)
  {
    var c := s.puts[p].c;
    assert s.owner[c] == ByPut(p);
    var s1 := SetStage(s, p, Over, InHand);
    HandOver(s, s1, c, InHand);
    TryPutOrphans(cfg, s1, c);
  }

  lemma DropOrphans(s: Pool, k: Key, list: seq<nat>, dropped: seq<nat>, tooOld: set<nat>)
    requires |s.owner| == |s.conns| && (forall c :: c in dropped ==> c < |s.owner| && s.owner[c] == Idle)
    ensures var t := DropIdle(s, k, list, dropped, tooOld);
      OrphansStay(s, t, None) && t.conns == s.conns
        && (forall c :: 0 <= c < |s.owner| && c !in dropped ==> t.owner[c] == s.owner[c])
  {
  }

  lemma AskIdleOrphans(cfg: Config, s: Pool, w: nat, aged: set<nat>)
    requires Shape(s) && Owned(s, None) && w < |s.wants|
    ensures OrphansStay(s, DoAskIdle(cfg, s, w, aged), None)
  {
    var tooOld := TooOld(cfg, aged);
    var full := Entries(s.idleConn, s.wants[w].key);
    UsablePrefixIsPrefix(s.conns, tooOld, full);
    var list := UsablePrefix(s.conns, tooOld, full);
    forall c | c in full ensures c < |s.owner| && s.owner[c] == Idle {
      var i :| 0 <= i < |full| && full[i] == c;
    }
    assert forall c :: c in full[|list|..] ==> c in full;
    var s0 := s.(closeIdle := false);
    DropOrphans(s0, s.wants[w].key, list, full[|list|..], tooOld);
    var s1 := DropIdle(s0, s.wants[w].key, list, full[|list|..], tooOld);
    assert list != [] ==> list[|list| - 1] == full[|list| - 1] && list[|list| - 1] in full;
    AskedOwner(cfg, s, w, aged);
    if !cfg.disableKeepAlives && list != [] && Accepts(s.wants, w) {
      HandOver(s1, DoAskIdle(cfg, s, w, aged), list[|list| - 1], ByWant(w));
    } else if !cfg.disableKeepAlives {
      Unmoved(s1, DoAskIdle(cfg, s, w, aged));
    } else {
      Unmoved(s, DoAskIdle(cfg, s, w, aged));
    }
  }

  /** Whose the connections are once queueForIdleConn dropped some and delivered one or none. */
  lemma AskedOwner(cfg: Config, s: Pool, w: nat, aged: set<nat>)
    requires w < |s.wants| && |s.owner| == |s.conns| && ListRefs(s.idleConn, |s.conns|)
    ensures var t := DoAskIdle(cfg, s, w, aged); var k := s.wants[w].key; var full := Entries(s.idleConn, k);
      var list := UsablePrefix(s.conns, TooOld(cfg, aged), full);
      && t.conns == s.conns && |list| <= |full|
      && var s1 := DropIdle(s.(closeIdle := false), k, list, full[|list|..], TooOld(cfg, aged));
         t.owner == if cfg.disableKeepAlives then s.owner
                    else if list != [] && Accepts(s.wants, w) && list[|list| - 1] < |s1.owner|
                    then s1.owner[list[|list| - 1] := ByWant(w)] else s1.owner
  {
    UsablePrefixIsPrefix(s.conns, TooOld(cfg, aged), Entries(s.idleConn, s.wants[w].key));
  }

  lemma DialOrphans(cfg: Config, s: Pool, e: Event)
    requires Shape(s) && Owned(s, None) && Enabled(s, e)
    requires e.DialBegin? || e.DialOk? || e.DialErr? || e.DialDeliver? || e.DialGiveBack?
    ensures OrphansStay(s, Step(cfg, s, e), None)
  {
    match e
    case DialBegin(d) => Unmoved(s, DoDialBegin(s, d));
    case DialOk(d) =>
    case DialErr(d) => Unmoved(s, DoDialErr(s, d));
    case DialDeliver(d) => DialDeliverOrphans(s, d);
    case DialGiveBack(d) => DialGiveBackOrphans(cfg, s, d);
  }

  lemma DialDeliverOrphans(s: Pool, d: nat)
    requires Shape(s) && Owned(s, None) && Enabled(s, DialDeliver(d))
    ensures OrphansStay(s, DoDialDeliver(s, d), None)
  {
    assert s.owner[s.dials[d].c] == ByDial(d);
    var o := if Accepts(s.wants, s.dials[d].w) then ByWant(s.dials[d].w) else ByPut(|s.puts|);
    HandOver(s, DoDialDeliver(s, d), s.dials[d].c, o);
  }

  lemma DialGiveBackOrphans(cfg: Config, s: Pool, d: nat)
    requires Shape(s) && Owned(s, None) && Enabled(s, DialGiveBack(d))
    ensures OrphansStay(s, DoDialGiveBack(cfg, s, d), None)
  {
    DecFrame(cfg, SetDial(s, d, Finished(s.dials[d].w)), s.wants[s.dials[d].w].key);
    Unmoved(s, DoDialGiveBack(cfg, s, d));
  }

  lemma CancelOrphans(s: Pool, w: nat)
    requires Shape(s) && Owned(s, None) && w < |s.wants| && s.wants[w].phase == Waiting
    ensures OrphansStay(s, DoCancel(s, w), None) && OrphansStay(s, DoTakeResult(s, w), None)
  {
    if s.wants[w].pc.Some? {
      var c := s.wants[w].pc.value;
      assert s.owner[c] == ByWant(w);
      assert s.owner[c := InHand][c := ByPut(|s.puts|)] == s.owner[c := ByPut(|s.puts|)];
      HandOver(s, DoCancel(s, w), c, ByPut(|s.puts|));
      Unmoved(s, DoTakeResult(s, w));
    } else {
      Unmoved(s, CancelAndEnd(s, w));
    }
  }

  lemma RequestOrphans(cfg: Config, s: Pool, e: Event)
    requires Shape(s) && Owned(s, None) && Enabled(s, e)
    requires OfRequest(e)
    ensures OrphansStay(s, Step(cfg, s, e), None)
  {
    match e
    case NewRequest(_) => Unmoved(s, Step(cfg, s, e));
    case AskIdle(w, aged) => AskIdleOrphans(cfg, s, w, aged);
    case AskDial(w) => Unmoved(s, Step(cfg, s, e));
    case TakeResult(w) => CancelOrphans(s, w);
    case CancelRequest(w) => CancelOrphans(s, w);
    case GiveBack(w) => HandOver(s, Step(cfg, s, e), s.wants[w].pc.value, ByPut(|s.puts|));
    case RequestFails(w) => HandOver(s, Step(cfg, s, e), s.wants[w].pc.value, Gone);
  }

  lemma CloseOrphans(cfg: Config, s: Pool, c: nat)
    requires |s.owner| == |s.conns| && c < |s.conns|
    ensures OrphansStay(s, CloseConn(cfg, s, c), Some(c))
    ensures s.owner[c] != Orphan ==> OrphansStay(s, CloseConn(cfg, s, c), None)
  {
    CloseConnFrame(cfg, s, c);
  }

  lemma PutCloseOrphans(cfg: Config, s: Pool, p: nat)
    requires Shape(s) && Owned(s, None) && p < |s.puts| && s.puts[p].stage != Over
    ensures OrphansStay(s, DoPutClose(cfg, s, p), None)
  {
    var c := s.puts[p].c;
    assert s.owner[c] == ByPut(p);
    CloseOrphans(cfg, s, c);
    HandOver(CloseConn(cfg, s, c), DoPutClose(cfg, s, p), c, Gone);
  }

  lemma PutOrphans(cfg: Config, s: Pool, e: Event)
    requires Shape(s) && Owned(s, None) && Enabled(s, e) && (e.PutCheck? || e.PutInsert? || e.PutClose?)
    ensures OrphansStay(s, Step(cfg, s, e), None)
  {
    match e
    case PutCheck(p) => Unmoved(s, DoPutCheck(cfg, s, p));
    case PutInsert(p) => PutInsertOrphans(cfg, s, p);
    case PutClose(p) => PutCloseOrphans(cfg, s, p);
  }

  lemma RemoveOrphans(s: Pool, c: nat)
    requires |s.owner| == |s.conns| && c < |s.conns|
    ensures OrphansStay(s, RemoveIdle(s, c), None)
  {
    if s.owner[c] in {Idle, LeftBehind} {
      HandOver(s, RemoveIdle(s, c), c, Gone);
    } else {
      Unmoved(s, RemoveIdle(s, c));
    }
  }

  lemma StaleOrphans(cfg: Config, s: Pool, c: nat)
    requires Shape(s) && Owned(s, None) && c < |s.conns|
    ensures OrphansStay(s, DoStale(cfg, s, c), None)
  {
    StillIdleOrphans(cfg, s, c);
  }

  /** The read loop, the idle timer and the pending closer. */
  lemma RetireOrphans(cfg: Config, s: Pool, e: Event)
    requires Shape(s) && Owned(s, None) && Enabled(s, e) && (e.ReadLoopExit? || e.TimerFires? || e.StaleFires?)
    ensures OrphansStay(s, Step(cfg, s, e), None)
  {
    match e
    case ReadLoopExit(c) => RemoveOrphans(s, c);
    case TimerFires(c) => if cfg.idleTimeout { StillIdleOrphans(cfg, s, c); } else { Unmoved(s, s); }
    case StaleFires(c) => StaleOrphans(cfg, s, c);
  }

  /** No section but CloseIdleConnections makes or ends an orphan; only its own close can close one. */
  lemma StepOrphans(cfg: Config, s: Pool, e: Event)
    requires Shape(s) && Owned(s, None) && !e.CloseIdle?
    ensures OrphansStay(s, Step(cfg, s, e), if e.Break? then Some(e.c) else None)
  {
    if Enabled(s, e) {
      if e.PutCheck? || e.PutInsert? || e.PutClose? {
        PutOrphans(cfg, s, e);
      } else if e.Break? {
        CloseOrphans(cfg, s, e.c);
      } else if e.ReadLoopExit? || e.TimerFires? || e.StaleFires? {
        RetireOrphans(cfg, s, e);
      } else if e.DialBegin? || e.DialOk? || e.DialErr? || e.DialDeliver? || e.DialGiveBack? {
        DialOrphans(cfg, s, e);
      } else {
        RequestOrphans(cfg, s, e);
      }
    }
  }

  /** One step: a connection is leaked afterwards iff it was before or CloseIdleConnections overtook its
      pending close. */
  lemma StepLeaks(cfg: Config, s: Pool, e: Event, c: nat)
    requires Inv(cfg, s)
    ensures Leaked(Step(cfg, s, e), c) <==>
      (Leaked(s, c) && e != Break(c)) || (e.CloseIdle? && Enabled(s, e) && AwaitsStaleClose(s, c))
  {
    var t := Step(cfg, s, e);
    StepKeeps(cfg, s, e);
    if e.CloseIdle? {
      if Enabled(s, e) { CloseIdleLeaks(cfg, s, e.listed, c); }
    } else {
      StepOrphans(cfg, s, e);
      StepGrows(cfg, s, e);
      if IsOpen(s, c) { OrphanIsLeaked(cfg, s, c); }
      if IsOpen(t, c) { OrphanIsLeaked(cfg, t, c); }
      if e == Break(c) && c < |s.conns| { BreakCloses(cfg, s, c); }
    }
  }

  lemma BreakCloses(cfg: Config, s: Pool, c: nat)
    requires Shape(s) && c < |s.conns|
    ensures !IsOpen(Step(cfg, s, Break(c)), c)
  {
    CloseConnFrame(cfg, s, c);
  }

  /** Without IdleConnTimeout nothing is ever found too old, and nothing leaks. */
  lemma LeakNeedsTimeout(cfg: Config, events: seq<Event>, c: nat)
    requires !cfg.idleTimeout
    ensures !Leaked(Run(cfg, events), c)
  {
    if Leaked(Run(cfg, events), c) {
      var i := LeakWasOvertaken(cfg, events, c);
      NothingStale(cfg, events[..i]);
      RunKeeps(cfg, events[..i]);
      NothingAwaits(cfg, Run(cfg, events[..i]), c);
    }
  }

  lemma NothingAwaits(cfg: Config, s: Pool, c: nat)
    requires Inv(cfg, s) && s.stale == {}
    ensures !AwaitsStaleClose(s, c)
  {
    if c in s.idleLRU {
      var j :| 0 <= j < |s.idleLRU| && s.idleLRU[j] == c;
      assert HeldAsRecorded(s, c, None);
    }
  }

  lemma TryPutStale(cfg: Config, s: Pool, c: nat)
    requires c < |s.conns| && Below(s.idleLRU, |s.conns|) && |s.owner| == |s.conns|
    ensures TryPutIdle(cfg, s, c).0.stale == s.stale
  {
    var s1 := AfterPops(s, s.conns[c].key);
    assert s1.stale == s.stale && s1.conns == s.conns && s1.idleLRU == s.idleLRU && s1.owner == s.owner;
    var rest := DropTaken(s.wants, Entries(s.idleConnWait, s.conns[c].key));
    if rest == [] && !(s1.closeIdle || |Entries(s1.idleConn, s.conns[c].key)| >= cfg.IdlePerHost()) {
      EvictStale(cfg, Insert(s1, c));
    }
  }

  lemma EvictStale(cfg: Config, s: Pool)
    requires Below(s.idleLRU, |s.conns|) && |s.owner| == |s.conns|
    ensures Evict(cfg, s).stale == s.stale
  {
    if cfg.maxIdleConns != 0 && |s.idleLRU| > cfg.maxIdleConns && s.idleLRU != [] {
      var n := |s.idleLRU| - 1;
      CloseConnFrame(cfg, s.(idleLRU := s.idleLRU[..n]), s.idleLRU[n]);
    }
  }

  lemma StillIdleStale(cfg: Config, s: Pool, c: nat)
    requires c < |s.conns| && |s.owner| == |s.conns|
    ensures CloseIfStillIdle(cfg, s, c).stale == s.stale
  {
    if c in s.idleLRU { CloseConnFrame(cfg, RemoveIdle(s, c), c); }
  }

  lemma PutStale(cfg: Config, s: Pool, e: Event)
    requires Shape(s) && Enabled(s, e) && (e.PutCheck? || e.PutInsert? || e.PutClose?)
    ensures Step(cfg, s, e).stale == s.stale
  {
    match e
    case PutCheck(_) =>
    case PutInsert(p) => TryPutStale(cfg, SetStage(s, p, Over, InHand), s.puts[p].c);
    case PutClose(p) => CloseConnFrame(cfg, s, s.puts[p].c);
  }

  lemma RequestStale(cfg: Config, s: Pool, e: Event)
    requires !cfg.idleTimeout && Shape(s) && Enabled(s, e)
    requires OfRequest(e)
    ensures Step(cfg, s, e).stale == s.stale
  {
    match e
    case AskIdle(w, aged) => AskIdleFrame(cfg, s, w, aged);
    case NewRequest(_) =>
    case AskDial(w) => assert QueueForDial(cfg, SetPhase(s, w, Waiting), w).stale == s.stale;
    case TakeResult(w) => CancelStale(s, w);
    case CancelRequest(w) => CancelStale(s, w);
    case GiveBack(w) =>
    case RequestFails(w) =>
  }

  lemma CancelStale(s: Pool, w: nat)
    requires w < |s.wants| && (s.wants[w].pc.Some? ==> s.wants[w].pc.value < |s.owner|)
    ensures DoTakeResult(s, w).stale == s.stale && DoCancel(s, w).stale == s.stale
  {
    assert CancelAndEnd(s, w).stale == s.stale;
  }

  lemma StepStale(cfg: Config, s: Pool, e: Event)
    requires !cfg.idleTimeout && Inv(cfg, s)
    ensures Step(cfg, s, e).stale <= s.stale
  {
    if Enabled(s, e) {
      if e.PutCheck? || e.PutInsert? || e.PutClose? {
        PutStale(cfg, s, e);
      } else if OfRequest(e) {
        RequestStale(cfg, s, e);
      } else {
        match e
        case DialGiveBack(d) => DecFrame(cfg, SetDial(s, d, Finished(s.dials[d].w)), s.wants[s.dials[d].w].key);
        case Break(c) => CloseConnFrame(cfg, s, c);
        case StaleFires(c) => StillIdleStale(cfg, s, c);
        case _ =>
      }
    }
  }

  lemma {:induction false} NothingStale(cfg: Config, events: seq<Event>)
    requires !cfg.idleTimeout
    ensures Run(cfg, events).stale == {}
    decreases |events|
  {
    if events != [] {
      var n := |events| - 1;
      NothingStale(cfg, events[..n]);
      RunKeeps(cfg, events[..n]);
      StepStale(cfg, Run(cfg, events[..n]), events[n]);
    }
  }

  /**
    The exact condition: a connection is leaked iff at some point of the run
    CloseIdleConnections ran while the close of that too old connection was
    still pending, and the connection was not closed from outside since.
   */
  ghost predicate Overtaken(cfg: Config, events: seq<Event>, i: nat, c: nat)
    requires i < |events|
  {
    && events[i].CloseIdle? && Enabled(Run(cfg, events[..i]), events[i]) && AwaitsStaleClose(Run(cfg, events[..i]), c)
    && Break(c) !in events[i + 1..]
  }

  lemma OvertakenBefore(cfg: Config, events: seq<Event>, i: nat, c: nat)
    requires i < |events| - 1
    ensures var n := |events| - 1;
      Overtaken(cfg, events, i, c) <==> Overtaken(cfg, events[..n], i, c) && events[n] != Break(c)
  {
    var n := |events| - 1;
    assert events[..n][..i] == events[..i];
    assert events[i + 1..] == events[..n][i + 1..] + [events[n]];
  }

  lemma LastStepLeaks(cfg: Config, before: seq<Event>, e: Event, c: nat)
    ensures var events := before + [e];
      Leaked(Run(cfg, events), c) <==>
        (Leaked(Run(cfg, before), c) && e != Break(c)) || Overtaken(cfg, events, |before|, c)
  {
    var events := before + [e];
    assert events[..|before|] == before && events[|before| + 1..] == [];
    RunOneMore(cfg, before, e);
    RunKeeps(cfg, before);
    StepLeaks(cfg, Run(cfg, before), e, c);
  }

  lemma {:induction false} LeakWasOvertaken(cfg: Config, events: seq<Event>, c: nat) returns (i: nat)
    requires Leaked(Run(cfg, events), c)
    ensures i < |events| && Overtaken(cfg, events, i, c)
  {
    assert events != [];
    var n := |events| - 1;
    assert events[..n] + [events[n]] == events;
    LastStepLeaks(cfg, events[..n], events[n], c);
    if Overtaken(cfg, events, n, c) {
      i := n;
    } else {
      i := LeakWasOvertaken(cfg, events[..n], c);
      OvertakenBefore(cfg, events, i, c);
    }
  }

  lemma {:induction false} OvertakenLeaks(cfg: Config, events: seq<Event>, i: nat, c: nat)
    requires i < |events| && Overtaken(cfg, events, i, c)
    ensures Leaked(Run(cfg, events), c)
    decreases |events|
  {
    var n := |events| - 1;
    assert events[..n] + [events[n]] == events;
    LastStepLeaks(cfg, events[..n], events[n], c);
    if i < n {
      OvertakenBefore(cfg, events, i, c);
      OvertakenLeaks(cfg, events[..n], i, c);
    }
  }

  lemma LeakedExactlyWhenOvertaken(cfg: Config, events: seq<Event>, c: nat)
    ensures Leaked(Run(cfg, events), c) <==> exists i :: 0 <= i < |events| && Overtaken(cfg, events, i, c)
  {
    if Leaked(Run(cfg, events), c) {
      var i := LeakWasOvertaken(cfg, events, c);
    }
    if i :| 0 <= i < |events| && Overtaken(cfg, events, i, c) {
      OvertakenLeaks(cfg, events, i, c);
    }
  }

  // ---- the leak is reachable ----

  const SERVED := Want(SOME_KEY, false, Some(0), false, true, Done)

  const POOLED :=
    EMPTY_POOL.(wants := [SERVED], conns := [Conn(SOME_KEY, false)], dials := [Finished(0)], puts := [Put(0, Over)],
                owner := [Idle], idleConn := map[SOME_KEY := [0]], idleLRU := [0],
                connsPerHost := map[SOME_KEY := 1])

  const DROPPED := POOLED.(wants := [SERVED, Asker(Missed)], idleConn := map[], stale := {0}, owner := [LeftBehind],
                           idleConnWait := map[SOME_KEY := [1]])

  const FIRST_DIALED := DIAL_STARTED.(dials := [Dialed(0, 0)], conns := [Conn(SOME_KEY, false)], owner := [ByDial(0)])

  const FIRST_RETURNED :=
    FIRST_DIALED.(dials := [Finished(0)], wants := [SERVED], puts := [Put(0, Inserting)], owner := [ByPut(0)])

  lemma FirstIsDialed()
    ensures var l1 := DIAL_STARTED.(dials := [Dialing(0)]);
      Goes(DIAL_STARTED, DialBegin(0), l1) && Goes(l1, DialOk(0), FIRST_DIALED)
  {
  }

  lemma FirstIsServed()
    ensures var l3 := FIRST_DIALED.(dials := [Finished(0)], wants := [SERVED.(phase := Waiting)], owner := [ByWant(0)]);
      var l4 := l3.(wants := [SERVED.(phase := Using)]);
      Goes(FIRST_DIALED, DialDeliver(0), l3) && Goes(l3, TakeResult(0), l4)
  {
  }

  lemma FirstIsReturned()
    ensures var l4 := FIRST_DIALED.(dials := [Finished(0)], wants := [SERVED.(phase := Using)], owner := [ByWant(0)]);
      var l5 := l4.(wants := [SERVED], puts := [Put(0, Checking)], owner := [ByPut(0)]);
      Goes(l4, GiveBack(0), l5) && Goes(l5, PutCheck(0), FIRST_RETURNED)
  {
  }

  lemma FirstIsPooled()
    ensures Goes(FIRST_RETURNED, PutInsert(0), POOLED)
  {
    var s1 := SetStage(FIRST_RETURNED, 0, Over, InHand);
    assert DropTaken(s1.wants, [0]) == [];
    var s2 := AfterPops(s1, SOME_KEY);
    assert s2 == s1.(idleConnWait := map[]);
    var t := Insert(s2, 0);
    assert Entries(s2.idleConn, SOME_KEY) + [0] == [0] && [0] + s2.idleLRU == [0];
    assert t.idleConn == POOLED.idleConn && t.owner == POOLED.owner && t.puts == POOLED.puts && !t.fault;
  }

  lemma SecondDropsIt()
    ensures var l8 := POOLED.(wants := [SERVED, Asker(Asking)]);
      Goes(POOLED, NewRequest(SOME_KEY), l8) && Goes(l8, AskIdle(1, {0}), DROPPED)
  {
    var l8 := POOLED.(wants := [SERVED, Asker(Asking)]);
    assert UsablePrefix(l8.conns, {0}, [0]) == [];
    var t := DropIdle(l8, SOME_KEY, [], [0], {0});
    assert t.owner == [LeftBehind] && t.stale == {0} && t.idleConn == map[];
    assert DropSettled(l8.wants, []) + [1] == [1];
  }

  lemma CloseIdleOvertakes()
    ensures Goes(DROPPED, CloseIdle([]), CloseIdleSection(DROPPED, []))
    ensures AwaitsStaleClose(DROPPED, 0)
  {
  }

  lemma PooledIsReachable() returns (events: seq<Event>)
    ensures Run(ONE_PER_HOST, events) == POOLED
  {
    RequestDials(); FirstIsDialed(); FirstIsServed(); FirstIsReturned(); FirstIsPooled();
    var s1 := EMPTY_POOL.(wants := [Asker(Asking)]);
    var l3 := FIRST_DIALED.(dials := [Finished(0)], wants := [SERVED.(phase := Waiting)], owner := [ByWant(0)]);
    var l4 := l3.(wants := [SERVED.(phase := Using)]);
    events := GoOn([], EMPTY_POOL, NewRequest(SOME_KEY), s1);
    events := GoOn(events, s1, AskIdle(0, {}), s1.(wants := [Asker(Missed)], idleConnWait := map[SOME_KEY := [0]]));
    events := GoOn(events, Run(ONE_PER_HOST, events), AskDial(0), DIAL_STARTED);
    events := GoOn(events, DIAL_STARTED, DialBegin(0), DIAL_STARTED.(dials := [Dialing(0)]));
    events := GoOn(events, Run(ONE_PER_HOST, events), DialOk(0), FIRST_DIALED);
    events := GoOn(events, FIRST_DIALED, DialDeliver(0), l3);
    events := GoOn(events, l3, TakeResult(0), l4);
    events := GoOn(events, l4, GiveBack(0), l4.(wants := [SERVED], puts := [Put(0, Checking)], owner := [ByPut(0)]));
    events := GoOn(events, Run(ONE_PER_HOST, events), PutCheck(0), FIRST_RETURNED);
    events := GoOn(events, FIRST_RETURNED, PutInsert(0), POOLED);
  }

  /** A connection found too old, then CloseIdleConnections before its closer runs: open for good, and its host full. */
  lemma CloseIdleCanLeak() returns (events: seq<Event>)
    ensures Leaked(Run(ONE_PER_HOST, events), 0)
    ensures Leaked(Run(ONE_PER_HOST, events + [StaleFires(0)]), 0)
    ensures Count(Run(ONE_PER_HOST, events).connsPerHost, SOME_KEY) == ONE_PER_HOST.maxConnsPerHost
  {
    SecondDropsIt();
    CloseIdleOvertakes();
    events := PooledIsReachable();
    var l8 := POOLED.(wants := [SERVED, Asker(Asking)]);
    events := GoOn(events, POOLED, NewRequest(SOME_KEY), l8);
    events := GoOn(events, l8, AskIdle(1, {0}), DROPPED);
    RunKeeps(ONE_PER_HOST, events);
    StepLeaks(ONE_PER_HOST, DROPPED, CloseIdle([]), 0);
    events := GoOn(events, DROPPED, CloseIdle([]), CloseIdleSection(DROPPED, []));
    RunOneMore(ONE_PER_HOST, events, StaleFires(0));
    RunKeeps(ONE_PER_HOST, events);
    StepLeaks(ONE_PER_HOST, Run(ONE_PER_HOST, events), StaleFires(0), 0);
  }
}
