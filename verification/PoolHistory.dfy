/** How the pool evolves along a run: what is final, and where the code falls short of its own comments. */
module PoolHistory {
  import opened Options
  import opened PoolState
  import opened PoolInvariant
  import opened PoolSections
  import opened PoolHandOver
  import opened PoolRun
  import opened PoolTheorems

  // ---- what never changes back ----

  ghost predicate WantsGrow(a: seq<Want>, b: seq<Want>) {
    && |a| <= |b|
    && (forall w :: 0 <= w < |a| ==>
          && b[w].key == a[w].key
          && (a[w].ready ==> b[w].ready && (b[w].pc == a[w].pc || b[w].pc == None)))
  }

  ghost predicate ConnsGrow(a: seq<Conn>, b: seq<Conn>) {
    && |a| <= |b|
    && (forall c :: 0 <= c < |a| ==> b[c].key == a[c].key && (a[c].closed ==> b[c].closed))
  }

  ghost predicate DialsGrow(a: seq<Dial>, b: seq<Dial>) {
    && |a| <= |b|
    && (forall d :: 0 <= d < |a| ==> b[d].w == a[d].w && (a[d].Abandoned? ==> b[d] == a[d]))
  }

  ghost predicate Grows(s: Pool, t: Pool) {
    WantsGrow(s.wants, t.wants) && ConnsGrow(s.conns, t.conns) && DialsGrow(s.dials, t.dials)
  }

  lemma CloseGrows(cfg: Config, s: Pool, c: nat)
    requires c < |s.conns|
    ensures Grows(s, CloseConn(cfg, s, c))
  {
    CloseConnFrame(cfg, s, c);
  }

  lemma EvictGrows(cfg: Config, s: Pool)
    requires Below(s.idleLRU, |s.conns|) && |s.owner| == |s.conns|
    ensures Grows(s, Evict(cfg, s))
  {
    if cfg.maxIdleConns != 0 && |s.idleLRU| > cfg.maxIdleConns && s.idleLRU != [] {
      CloseGrows(cfg, s.(idleLRU := s.idleLRU[..|s.idleLRU| - 1]), s.idleLRU[|s.idleLRU| - 1]);
    }
  }

  lemma DeliverGrows(s: Pool, w: nat, c: nat)
    requires w < |s.wants| && SettledOnce(s.wants[w]) && Accepts(s.wants, w) && c < |s.owner|
    ensures Grows(s, Deliver(s, w, c))
  {
  }

  lemma TryPutGrows(cfg: Config, s: Pool, c: nat)
    requires WantsSettleOnce(s.wants) && c < |s.conns| && Below(s.idleLRU, |s.conns|) && |s.owner| == |s.conns|
    ensures Grows(s, TryPutIdle(cfg, s, c).0)
  {
    var s1 := AfterPops(s, s.conns[c].key);
    assert s1.wants == s.wants && s1.conns == s.conns && s1.dials == s.dials && s1.owner == s.owner;
    var rest := DropTaken(s.wants, Entries(s.idleConnWait, s.conns[c].key));
    if rest != [] {
      DeliverGrows(s1, rest[0], c);
    } else if !s1.closeIdle && |Entries(s1.idleConn, s.conns[c].key)| < cfg.IdlePerHost() {
      EvictGrows(cfg, Insert(s1, c));
    }
  }

  lemma WantUpdateGrows(wants: seq<Want>, w: nat, after: Want)
    requires w < |wants| && after.key == wants[w].key
    requires wants[w].ready ==> after.ready && (after.pc == wants[w].pc || after.pc == None)
    ensures WantsGrow(wants, wants[w := after])
  {
  }

  lemma CancelGrows(s: Pool, w: nat)
    requires w < |s.wants|
    ensures Grows(s, CancelAndEnd(s, w))
  {
    var t := CancelAndEnd(s, w);
    assert t.conns == s.conns && t.dials == s.dials;
    assert t.wants == s.wants[w := t.wants[w]];
    WantUpdateGrows(s.wants, w, t.wants[w]);
  }

  lemma RequestGrows(cfg: Config, s: Pool, e: Event)
    requires Inv(cfg, s) && Enabled(s, e)
    requires OfRequest(e)
    ensures Grows(s, Step(cfg, s, e))
  {
    match e
    case AskIdle(w, aged) => AskIdleGrows(cfg, s, w, aged);
    case AskDial(w) => AskDialGrows(cfg, s, w);
    case TakeResult(w) => CancelGrows(s, w); WantUpdateGrows(s.wants, w, s.wants[w].(phase := Using));
    case CancelRequest(w) => CancelGrows(s, w);
    case GiveBack(w) => WantUpdateGrows(s.wants, w, s.wants[w].(phase := Done));
    case RequestFails(w) => WantUpdateGrows(s.wants, w, s.wants[w].(phase := Done));
    case NewRequest(_) =>
  }

  lemma DialDeliverGrows(s: Pool, d: nat)
    requires Shape(s) && WantsSettleOnce(s.wants) && d < |s.dials| && s.dials[d].Dialed?
    ensures Grows(s, DoDialDeliver(s, d))
  {
    assert SettledOnce(s.wants[s.dials[d].w]);
  }

  lemma DialErrGrows(s: Pool, d: nat)
    requires Shape(s) && WantsSettleOnce(s.wants) && d < |s.dials| && s.dials[d].Dialing?
    ensures Grows(s, DoDialErr(s, d))
  {
    assert SettledOnce(s.wants[s.dials[d].w]);
  }

  lemma DialGiveBackGrows(cfg: Config, s: Pool, d: nat)
    requires Shape(s) && d < |s.dials| && s.dials[d].Failing?
    ensures Grows(s, DoDialGiveBack(cfg, s, d))
  {
    var t := SetDial(s, d, Finished(s.dials[d].w));
    var k := s.wants[s.dials[d].w].key;
    DecFrame(cfg, t, k);
  }

  lemma DialGrows(cfg: Config, s: Pool, e: Event)
    requires Inv(cfg, s) && Enabled(s, e)
    requires e.DialBegin? || e.DialOk? || e.DialErr? || e.DialDeliver? || e.DialGiveBack?
    ensures Grows(s, Step(cfg, s, e))
  {
    match e
    case DialBegin(d) =>
    case DialOk(d) =>
    case DialErr(d) => DialErrGrows(s, d);
    case DialDeliver(d) => DialDeliverGrows(s, d);
    case DialGiveBack(d) => DialGiveBackGrows(cfg, s, d);
  }

  lemma StepGrows(cfg: Config, s: Pool, e: Event)
    requires Inv(cfg, s)
    ensures Grows(s, Step(cfg, s, e))
  {
    if Enabled(s, e) {
      if e.DialBegin? || e.DialOk? || e.DialErr? || e.DialDeliver? || e.DialGiveBack? {
        DialGrows(cfg, s, e);
      } else if OfRequest(e) {
        RequestGrows(cfg, s, e);
      } else if e.PutCheck? || e.PutInsert? || e.PutClose? {
        PutStepGrows(cfg, s, e);
      } else {
        PoolStepGrows(cfg, s, e);
      }
    }
  }

  lemma PutInsertGrows(cfg: Config, s: Pool, p: nat)
    requires Inv(cfg, s) && Enabled(s, PutInsert(p))
    ensures Grows(s, DoPutInsert(cfg, s, p))
  {
    TryPutGrows(cfg, SetStage(s, p, Over, InHand), s.puts[p].c);
  }

  lemma PutCloseGrows(cfg: Config, s: Pool, p: nat)
    requires Inv(cfg, s) && Enabled(s, PutClose(p))
    ensures Grows(s, DoPutClose(cfg, s, p))
  {
    CloseGrows(cfg, s, s.puts[p].c);
  }

  lemma PutStepGrows(cfg: Config, s: Pool, e: Event)
    requires Inv(cfg, s) && Enabled(s, e) && (e.PutCheck? || e.PutInsert? || e.PutClose?)
    ensures Grows(s, Step(cfg, s, e))
  {
    match e
    case PutCheck(_) =>
    case PutInsert(p) => PutInsertGrows(cfg, s, p);
    case PutClose(p) => PutCloseGrows(cfg, s, p);
  }

  lemma PoolStepGrows(cfg: Config, s: Pool, e: Event)
    requires Inv(cfg, s) && Enabled(s, e)
    requires e.Break? || e.ReadLoopExit? || e.TimerFires? || e.StaleFires? || e.CloseIdle?
    ensures Grows(s, Step(cfg, s, e))
  {
    match e
    case Break(c) => CloseGrows(cfg, s, c);
    case TimerFires(c) => StillIdleGrows(cfg, s, c);
    case StaleFires(c) => StaleGrows(cfg, s, c);
    case ReadLoopExit(c) => RemoveGrows(s, c);
    case CloseIdle(listed) => CloseIdleGrows(s, listed);
  }

  lemma RemoveGrows(s: Pool, c: nat)
    requires c < |s.conns| && c < |s.owner|
    ensures Grows(s, RemoveIdle(s, c))
  {
  }

  lemma CloseIdleGrows(s: Pool, listed: seq<nat>)
    requires forall c :: c in listed ==> c < |s.owner|
    ensures Grows(s, CloseIdleSection(s, listed))
  {
  }

  lemma StaleGrows(cfg: Config, s: Pool, c: nat)
    requires c < |s.conns| && |s.owner| == |s.conns|
    ensures Grows(s, DoStale(cfg, s, c))
  {
    StillIdleGrows(cfg, s, c);
  }

  lemma AskIdleGrows(cfg: Config, s: Pool, w: nat, aged: set<nat>)
    requires w < |s.wants| && SettledOnce(s.wants[w]) && |s.owner| == |s.conns| && ListRefs(s.idleConn, |s.conns|)
    ensures Grows(s, DoAskIdle(cfg, s, w, aged))
  {
    AskIdleFrame(cfg, s, w, aged);
    WantUpdateGrows(s.wants, w, DoAskIdle(cfg, s, w, aged).wants[w]);
  }

  lemma AskDialGrows(cfg: Config, s: Pool, w: nat)
    requires w < |s.wants|
    ensures Grows(s, QueueForDial(cfg, SetPhase(s, w, Waiting), w))
  {
    var t := QueueForDial(cfg, SetPhase(s, w, Waiting), w);
    assert t.conns == s.conns && t.wants == SetPhase(s, w, Waiting).wants;
    assert t.dials == s.dials || t.dials == s.dials + [Start(w)];
    WantUpdateGrows(s.wants, w, s.wants[w].(phase := Waiting));
  }

  lemma StillIdleGrows(cfg: Config, s: Pool, c: nat)
    requires c < |s.conns| && |s.owner| == |s.conns|
    ensures Grows(s, CloseIfStillIdle(cfg, s, c))
  {
    if c in s.idleLRU { CloseGrows(cfg, RemoveIdle(s, c), c); }
  }

  lemma WantsGrowOn(a: seq<Want>, b: seq<Want>, c: seq<Want>)
    requires WantsGrow(a, b) && WantsGrow(b, c)
    ensures WantsGrow(a, c)
  {
    forall w | 0 <= w < |a| && a[w].ready ensures c[w].ready && (c[w].pc == a[w].pc || c[w].pc == None) {
      assert b[w].ready;
    }
  }

  lemma GrowsOn(s: Pool, m: Pool, t: Pool)
    requires Grows(s, m) && Grows(m, t)
    ensures Grows(s, t)
  {
    WantsGrowOn(s.wants, m.wants, t.wants);
  }

  lemma {:induction false} RunGrows(cfg: Config, events: seq<Event>, more: seq<Event>)
    ensures Grows(Run(cfg, events), Run(cfg, events + more))
    decreases |more|
  {
    if more == [] {
      assert events + more == events;
    } else {
      var n := |more| - 1;
      RunGrows(cfg, events, more[..n]);
      RunOneMore(cfg, events + more[..n], more[n]);
      assert events + more[..n] + [more[n]] == events + more;
      RunKeeps(cfg, events + more[..n]);
      StepGrows(cfg, Run(cfg, events + more[..n]), more[n]);
      GrowsOn(Run(cfg, events), Run(cfg, events + more[..n]), Run(cfg, events + more));
    }
  }

  lemma RunOneMore(cfg: Config, events: seq<Event>, e: Event)
    ensures Run(cfg, events + [e]) == Step(cfg, Run(cfg, events), e)
  {
    assert (events + [e])[..|events|] == events;
  }

  /** A wantConn accepts at most one result in its life: what it got first is what it has, until a cancel takes
      it away. */
  lemma DeliveredOnce(cfg: Config, events: seq<Event>, more: seq<Event>, w: nat)
    requires var s := Run(cfg, events); w < |s.wants| && s.wants[w].ready
    ensures var t := Run(cfg, events + more);
      && w < |t.wants| && t.wants[w].ready
      && (t.wants[w].pc.Some? ==> t.wants[w].pc == Run(cfg, events).wants[w].pc)
      && (t.wants[w].pc == None ==> t.wants[w].err)
  {
    RunGrows(cfg, events, more);
    RunKeeps(cfg, events + more);
    assert SettledOnce(Run(cfg, events + more).wants[w]);
  }

  // ---- a permit abandoned at the nil-context return of dialConnFor ----

  const SOME_KEY := Key("", "http", "h:80", false)

  lemma AskOnEmptyPool(cfg: Config, s: Pool, w: nat)
    requires w < |s.wants| && |s.owner| == |s.conns| && s.idleConn == map[] && !s.closeIdle && !cfg.disableKeepAlives
    ensures var k := s.wants[w].key;
      QueueForIdle(cfg, s, w, {})
        == (s.(idleConnWait := s.idleConnWait[k := DropSettled(s.wants, Entries(s.idleConnWait, k)) + [w]]), false)
  {
    var t := DropIdle(s, s.wants[w].key, [], [], {});
    assert t.owner == s.owner && t.stale == s.stale && t.idleConn == s.idleConn;
  }

  /** A request for SOME_KEY at the given phase, undelivered. */
  function Asker(phase: Phase): (r: Want) {
    Want(SOME_KEY, true, None, false, false, phase)
  }

  const ONE_PER_HOST := Config(false, 0, 0, 1, true)

  const DIAL_STARTED := EMPTY_POOL.(wants := [Asker(Waiting)], idleConnWait := map[SOME_KEY := [0]],
                           connsPerHost := map[SOME_KEY := 1], dials := [Start(0)])

  const DIAL_ABANDONED :=
    DIAL_STARTED.(wants := [Want(SOME_KEY, false, None, true, true, Done)], dials := [Abandoned(0)])

  const NEXT_STUCK :=
    DIAL_ABANDONED.(wants := DIAL_ABANDONED.wants + [Asker(Waiting)], idleConnWait := map[SOME_KEY := [1]],
                              connsPerHostWait := map[SOME_KEY := [1]])

  /** One step of a concrete run, looked at without the invariant. */
  ghost predicate Goes(s: Pool, e: Event, t: Pool) {
    Shape(s) && Step(ONE_PER_HOST, s, e) == t
  }

  lemma RequestDials()
    ensures var s1 := EMPTY_POOL.(wants := [Asker(Asking)]);
      var s2 := s1.(wants := [Asker(Missed)], idleConnWait := map[SOME_KEY := [0]]);
      Goes(EMPTY_POOL, NewRequest(SOME_KEY), s1) && Goes(s1, AskIdle(0, {}), s2) && Goes(s2, AskDial(0), DIAL_STARTED)
  {
    var s1 := EMPTY_POOL.(wants := [Asker(Asking)]);
    AskOnEmptyPool(ONE_PER_HOST, s1, 0);
    assert DropSettled(s1.wants, Entries(s1.idleConnWait, SOME_KEY)) + [0] == [0];
  }

  lemma RequestGivesUp()
    ensures var s4 := DIAL_STARTED.(wants := [Want(SOME_KEY, false, None, true, true, Done)]);
      Goes(DIAL_STARTED, CancelRequest(0), s4) && Goes(s4, DialBegin(0), DIAL_ABANDONED)
  {
  }

  lemma NextRequestAsks()
    ensures var s6 := DIAL_ABANDONED.(wants := DIAL_ABANDONED.wants + [Asker(Asking)]);
      var s7 := s6.(wants := DIAL_ABANDONED.wants + [Asker(Missed)], idleConnWait := map[SOME_KEY := [1]]);
      Goes(DIAL_ABANDONED, NewRequest(SOME_KEY), s6) && Goes(s6, AskIdle(1, {}), s7)
  {
    var s6 := DIAL_ABANDONED.(wants := DIAL_ABANDONED.wants + [Asker(Asking)]);
    AskOnEmptyPool(ONE_PER_HOST, s6, 1);
    assert DropSettled(s6.wants, [0]) + [1] == [1];
  }

  lemma NextRequestWaits()
    ensures var s7 :=
      DIAL_ABANDONED.(wants := DIAL_ABANDONED.wants + [Asker(Missed)], idleConnWait := map[SOME_KEY := [1]]);
      Goes(s7, AskDial(1), NEXT_STUCK)
  {
    var s7 := DIAL_ABANDONED.(wants := DIAL_ABANDONED.wants + [Asker(Missed)], idleConnWait := map[SOME_KEY := [1]]);
    assert DropSettled(s7.wants, []) + [1] == [1];
    assert SetPhase(s7, 1, Waiting).wants == NEXT_STUCK.wants;
  }

  lemma GoOn(events: seq<Event>, s: Pool, e: Event, t: Pool) returns (longer: seq<Event>)
    requires Run(ONE_PER_HOST, events) == s && Goes(s, e, t)
    ensures Run(ONE_PER_HOST, longer) == t
  {
    longer := events + [e];
    RunOneMore(ONE_PER_HOST, events, e);
  }

  lemma AbandonedIsReachable() returns (events: seq<Event>)
    ensures Run(ONE_PER_HOST, events) == DIAL_ABANDONED
  {
    RequestDials();
    RequestGivesUp();
    var s1 := EMPTY_POOL.(wants := [Asker(Asking)]);
    var s2 := s1.(wants := [Asker(Missed)], idleConnWait := map[SOME_KEY := [0]]);
    var s4 := DIAL_STARTED.(wants := [Want(SOME_KEY, false, None, true, true, Done)]);
    events := GoOn([], EMPTY_POOL, NewRequest(SOME_KEY), s1);
    events := GoOn(events, s1, AskIdle(0, {}), s2);
    events := GoOn(events, s2, AskDial(0), DIAL_STARTED);
    events := GoOn(events, DIAL_STARTED, CancelRequest(0), s4);
    events := GoOn(events, s4, DialBegin(0), DIAL_ABANDONED);
  }

  /**
    Such a key is reachable: with MaxConnsPerHost == 1, one request cancelled
    between `go t.dialConnFor(w)` and its first statement is enough, and the
    next request for the host then waits in a pool with no connection at all.
   */
  lemma OneCancelCanKillAKey() returns (events: seq<Event>)
    ensures var s := Run(ONE_PER_HOST, events);
      && |AbandonedPermits(s, SOME_KEY)| == 1
      && Entries(s.connsPerHostWait, SOME_KEY) == [1] && IsWaiting(s.wants, 1)
      && s.conns == []
  {
    NextRequestAsks();
    NextRequestWaits();
    var s6 := DIAL_ABANDONED.(wants := DIAL_ABANDONED.wants + [Asker(Asking)]);
    var s7 := s6.(wants := DIAL_ABANDONED.wants + [Asker(Missed)], idleConnWait := map[SOME_KEY := [1]]);
    events := AbandonedIsReachable();
    events := GoOn(events, DIAL_ABANDONED, NewRequest(SOME_KEY), s6);
    events := GoOn(events, s6, AskIdle(1, {}), s7);
    events := GoOn(events, s7, AskDial(1), NEXT_STUCK);
    assert AbandonedPermits(NEXT_STUCK, SOME_KEY) == {0};
  }

  // ---- connections leaked by CloseIdleConnections ----

  /** An open connection that queueForIdleConn dropped as too old and that is still in the LRU. */
  ghost predicate AwaitsStaleClose(s: Pool, c: nat) {
    IsOpen(s, c) && c in s.idleLRU && c !in Entries(s.idleConn, s.conns[c].key)
  }

  /**
    CloseIdleConnections is the only section that leaks, and it leaks exactly
    the too old connections whose closeConnIfStillIdle has not run yet.
   */
  lemma CloseIdleLeaks(cfg: Config, s: Pool, listed: seq<nat>, c: nat)
    requires Inv(cfg, s) && Enumerates(listed, s)
    ensures Leaked(CloseIdleSection(s, listed), c) <==> Leaked(s, c) || AwaitsStaleClose(s, c)
  {
    var t := CloseIdleSection(s, listed);
    CloseIdleKeeps(cfg, s, listed);
    if IsOpen(s, c) {
      OrphanIsLeaked(cfg, s, c);
      OrphanIsLeaked(cfg, t, c);
      CloseIdleOwner(s, listed, c);
      assert HeldAsRecorded(s, c, None);
      if s.owner[c] == LeftBehind { NotPooled(cfg, s, c); }
      if c in s.idleLRU {
        var i :| 0 <= i < |s.idleLRU| && s.idleLRU[i] == c;
      }
    }
  }
}
