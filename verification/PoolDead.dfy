/** Dial permits that never come back, and exactly when they make a host unreachable. */
module PoolDead {
  import opened Options
  import opened PoolState
  import opened PoolInvariant
  import opened PoolSections
  import opened PoolHandOver
  import opened PoolRun
  import opened PoolTheorems
  import opened PoolHistory

  // ---- one step and the dial goroutines ----

  function DialOf(e: Event): (r: Option<nat>) {
    match e
    case DialBegin(d) => Some(d)
    case DialOk(d) => Some(d)
    case DialErr(d) => Some(d)
    case DialDeliver(d) => Some(d)
    case DialGiveBack(d) => Some(d)
    case _ => None
  }

  /** Only this dial goroutine moves, the new ones are at their start, and no connection is made. */
  ghost predicate OneDialMoves(s: Pool, t: Pool, moved: Option<nat>) {
    && |s.dials| <= |t.dials|
    && (forall d :: 0 <= d < |s.dials| && moved != Some(d) ==> t.dials[d] == s.dials[d])
    && (forall d :: |s.dials| <= d < |t.dials| ==> t.dials[d].Start?)
    && |t.conns| == |s.conns|
  }

  lemma CloseMoves(cfg: Config, s: Pool, c: nat)
    requires c < |s.conns|
    ensures OneDialMoves(s, CloseConn(cfg, s, c), None)
  {
    CloseConnFrame(cfg, s, c);
  }

  lemma EvictMoves(cfg: Config, s: Pool)
    requires Below(s.idleLRU, |s.conns|) && |s.owner| == |s.conns|
    ensures OneDialMoves(s, Evict(cfg, s), None)
  {
    if cfg.maxIdleConns != 0 && |s.idleLRU| > cfg.maxIdleConns && s.idleLRU != [] {
      CloseMoves(cfg, s.(idleLRU := s.idleLRU[..|s.idleLRU| - 1]), s.idleLRU[|s.idleLRU| - 1]);
    }
  }

  lemma TryPutMoves(cfg: Config, s: Pool, c: nat)
    requires c < |s.conns| && Below(s.idleLRU, |s.conns|) && |s.owner| == |s.conns|
    ensures OneDialMoves(s, TryPutIdle(cfg, s, c).0, None)
  {
    var s1 := AfterPops(s, s.conns[c].key);
    var rest := DropTaken(s.wants, Entries(s.idleConnWait, s.conns[c].key));
    if rest == [] && !s1.closeIdle && |Entries(s1.idleConn, s.conns[c].key)| < cfg.IdlePerHost() {
      EvictMoves(cfg, Insert(s1, c));
    }
  }

  lemma PutInsertMoves(cfg: Config, s: Pool, p: nat)
    requires Shape(s) && Enabled(s, PutInsert(p))
    ensures OneDialMoves(s, DoPutInsert(cfg, s, p), None)
  {
    TryPutMoves(cfg, SetStage(s, p, Over, InHand), s.puts[p].c);
  }

  lemma AskIdleMoves(cfg: Config, s: Pool, w: nat, aged: set<nat>)
    requires w < |s.wants| && |s.owner| == |s.conns| && ListRefs(s.idleConn, |s.conns|)
    ensures OneDialMoves(s, DoAskIdle(cfg, s, w, aged), None)
  {
    AskIdleFrame(cfg, s, w, aged);
  }

  lemma AskDialMoves(cfg: Config, s: Pool, w: nat)
    requires w < |s.wants|
    ensures OneDialMoves(s, QueueForDial(cfg, SetPhase(s, w, Waiting), w), None)
  {
    var t := QueueForDial(cfg, SetPhase(s, w, Waiting), w);
    assert t.conns == s.conns && (t.dials == s.dials || t.dials == s.dials + [Start(w)]);
  }

  lemma CancelMoves(s: Pool, w: nat)
    requires w < |s.wants|
    ensures OneDialMoves(s, CancelAndEnd(s, w), None)
  {
    var t := CancelAndEnd(s, w);
    assert t.conns == s.conns && t.dials == s.dials;
  }

  lemma RequestStepMoves(cfg: Config, s: Pool, e: Event)
    requires Shape(s) && Enabled(s, e)
    requires OfRequest(e)
    ensures OneDialMoves(s, Step(cfg, s, e), None)
  {
    match e
    case AskIdle(w, aged) => AskIdleMoves(cfg, s, w, aged);
    case AskDial(w) => AskDialMoves(cfg, s, w);
    case TakeResult(w) => CancelMoves(s, w);
    case CancelRequest(w) => CancelMoves(s, w);
    case _ =>
  }

  lemma StillIdleMoves(cfg: Config, s: Pool, c: nat)
    requires c < |s.conns| && |s.owner| == |s.conns|
    ensures OneDialMoves(s, CloseIfStillIdle(cfg, s, c), None)
  {
    if c in s.idleLRU { CloseMoves(cfg, RemoveIdle(s, c), c); }
  }

  lemma DialStepMoves(cfg: Config, s: Pool, e: Event)
    requires Shape(s) && Enabled(s, e) && DialOf(e).Some? && !e.DialOk?
    ensures OneDialMoves(s, Step(cfg, s, e), DialOf(e))
  {
    match e
    case DialBegin(_) =>
    case DialErr(d) => DialErrMoves(s, d);
    case DialDeliver(d) => DialDeliverMoves(s, d);
    case DialGiveBack(d) => DialGiveBackMoves(cfg, s, d);
  }

  lemma DialErrMoves(s: Pool, d: nat)
    requires Shape(s) && Enabled(s, DialErr(d))
    ensures OneDialMoves(s, DoDialErr(s, d), Some(d)) && DoDialErr(s, d).dials[d].Failing?
  {
  }

  lemma DialDeliverMoves(s: Pool, d: nat)
    requires Shape(s) && Enabled(s, DialDeliver(d))
    ensures OneDialMoves(s, DoDialDeliver(s, d), Some(d)) && DoDialDeliver(s, d).dials[d].Finished?
  {
  }

  lemma DialGiveBackMoves(cfg: Config, s: Pool, d: nat)
    requires Shape(s) && Enabled(s, DialGiveBack(d))
    ensures OneDialMoves(s, DoDialGiveBack(cfg, s, d), Some(d)) && DoDialGiveBack(cfg, s, d).dials[d].Finished?
  {
    DecFrame(cfg, SetDial(s, d, Finished(s.dials[d].w)), s.wants[s.dials[d].w].key);
  }

  lemma PutStepMoves(cfg: Config, s: Pool, e: Event)
    requires Shape(s) && Enabled(s, e) && (e.PutCheck? || e.PutInsert? || e.PutClose?)
    ensures OneDialMoves(s, Step(cfg, s, e), None)
  {
    match e
    case PutCheck(_) =>
    case PutInsert(p) => PutInsertMoves(cfg, s, p);
    case PutClose(p) => CloseMoves(cfg, s, s.puts[p].c);
  }

  lemma PoolStepMoves(cfg: Config, s: Pool, e: Event)
    requires Shape(s) && Enabled(s, e)
    requires e.Break? || e.ReadLoopExit? || e.TimerFires? || e.StaleFires? || e.CloseIdle?
    ensures OneDialMoves(s, Step(cfg, s, e), None)
  {
    match e
    case Break(c) => CloseMoves(cfg, s, c);
    case TimerFires(c) => StillIdleMoves(cfg, s, c);
    case StaleFires(c) => StillIdleMoves(cfg, s, c);
    case _ =>
  }

  lemma StepMoves(cfg: Config, s: Pool, e: Event)
    requires Shape(s) && !e.DialOk?
    ensures OneDialMoves(s, Step(cfg, s, e), DialOf(e))
  {
    if Enabled(s, e) {
      if DialOf(e).Some? {
        DialStepMoves(cfg, s, e);
      } else if OfRequest(e) {
        RequestStepMoves(cfg, s, e);
      } else if e.PutCheck? || e.PutInsert? || e.PutClose? {
        PutStepMoves(cfg, s, e);
      } else {
        PoolStepMoves(cfg, s, e);
      }
    }
  }

  // ---- abandoned permits ----

  /** A dial goroutine starts and finds that its wantConn has its result already: it was delivered to, or cancelled. */
  ghost predicate FindsSettled(s: Pool, e: Event, d: nat) {
    e == DialBegin(d) && Enabled(s, e) && (s.wants[s.dials[d].w].pc.Some? || s.wants[s.dials[d].w].err)
  }

  ghost predicate IsAbandoned(s: Pool, d: nat) {
    d < |s.dials| && s.dials[d].Abandoned?
  }

  lemma StepAbandons(cfg: Config, s: Pool, e: Event, d: nat)
    requires Inv(cfg, s)
    ensures IsAbandoned(Step(cfg, s, e), d) <==> IsAbandoned(s, d) || FindsSettled(s, e, d)
  {
    if Enabled(s, e) {
      if DialOf(e) == None {
        StepMoves(cfg, s, e);
        OthersAbandonNone(s, Step(cfg, s, e), d);
      } else {
        DialAbandons(cfg, s, e, d);
      }
    }
  }

  lemma DialAbandons(cfg: Config, s: Pool, e: Event, d: nat)
    requires Shape(s) && WantsSettleOnce(s.wants) && Enabled(s, e) && DialOf(e).Some?
    ensures IsAbandoned(Step(cfg, s, e), d) <==> IsAbandoned(s, d) || FindsSettled(s, e, d)
  {
    match e
    case DialBegin(x) => BeginAbandons(s, x, d);
    case DialOk(x) => OneAbandonsNone(s, DoDialOk(s, x), x, d);
    case DialErr(x) => DialErrMoves(s, x); OneAbandonsNone(s, DoDialErr(s, x), x, d);
    case DialDeliver(x) => DialDeliverMoves(s, x); OneAbandonsNone(s, DoDialDeliver(s, x), x, d);
    case DialGiveBack(x) => DialGiveBackMoves(cfg, s, x); OneAbandonsNone(s, DoDialGiveBack(cfg, s, x), x, d);
  }

  lemma OneAbandonsNone(s: Pool, t: Pool, x: nat, d: nat)
    requires x < |s.dials| <= |t.dials| && !s.dials[x].Abandoned? && !t.dials[x].Abandoned?
    requires forall y :: 0 <= y < |s.dials| && y != x ==> t.dials[y] == s.dials[y]
    requires forall y :: |s.dials| <= y < |t.dials| ==> t.dials[y].Start?
    ensures IsAbandoned(t, d) <==> IsAbandoned(s, d)
  {
  }

  lemma OthersAbandonNone(s: Pool, t: Pool, d: nat)
    requires OneDialMoves(s, t, None)
    ensures IsAbandoned(t, d) <==> IsAbandoned(s, d)
  {
  }

  lemma BeginAbandons(s: Pool, begun: nat, d: nat)
    requires Shape(s) && WantsSettleOnce(s.wants) && Enabled(s, DialBegin(begun))
    ensures IsAbandoned(DoDialBegin(s, begun), d) <==> IsAbandoned(s, d) || FindsSettled(s, DialBegin(begun), d)
  {
    assert SettledOnce(s.wants[s.dials[begun].w]);
  }

  ghost predicate AbandonedAt(cfg: Config, events: seq<Event>, i: nat, d: nat) {
    i < |events| && FindsSettled(Run(cfg, events[..i]), events[i], d)
  }

  /** A permit is abandoned exactly when its goroutine started after the wantConn was settled. */
  lemma {:induction false} AbandonedExactly(cfg: Config, events: seq<Event>, d: nat)
    ensures IsAbandoned(Run(cfg, events), d) <==> exists i :: AbandonedAt(cfg, events, i, d)
    decreases |events|
  {
    if events != [] {
      var n := |events| - 1;
      var init := events[..n];
      RunKeeps(cfg, init);
      AbandonedExactly(cfg, init, d);
      StepAbandons(cfg, Run(cfg, init), events[n], d);
      AbandonedEarlier(cfg, events, d);
      assert AbandonedAt(cfg, events, n, d) <==> FindsSettled(Run(cfg, init), events[n], d);
    }
  }

  lemma AbandonedEarlier(cfg: Config, events: seq<Event>, d: nat)
    requires events != []
    ensures var n := |events| - 1;
      (exists i :: AbandonedAt(cfg, events, i, d)) <==>
      (exists i :: AbandonedAt(cfg, events[..n], i, d)) || AbandonedAt(cfg, events, n, d)
  {
    var n := |events| - 1;
    forall i: nat | i < n ensures AbandonedAt(cfg, events, i, d) <==> AbandonedAt(cfg, events[..n], i, d) {
      assert events[..n][..i] == events[..i];
    }
    if i: nat :| AbandonedAt(cfg, events[..n], i, d) {
      assert AbandonedAt(cfg, events, i, d);
    }
  }

  // ---- doomed permits ----

  /** Abandoned, or about to be: the goroutine has not looked at its context yet, but the wantConn is settled. */
  predicate IsDoomed(d: Dial, wants: seq<Want>) {
    d.Abandoned? || (d.Start? && d.w < |wants| && wants[d.w].ready)
  }

  ghost function DoomedPermits(s: Pool, k: Key): (found: set<nat>) {
    set d | 0 <= d < |s.dials| && IsDoomed(s.dials[d], s.wants) && s.dials[d].w < |s.wants|
      && s.wants[s.dials[d].w].key == k
  }

  /** Every permit of the host is doomed. */
  ghost predicate AllDoomed(cfg: Config, s: Pool, k: Key) {
    cfg.maxConnsPerHost > 0 && |DoomedPermits(s, k)| == cfg.maxConnsPerHost
  }

  lemma StepKeepsDoomed(cfg: Config, s: Pool, e: Event, k: Key)
    requires Inv(cfg, s)
    ensures DoomedPermits(s, k) <= DoomedPermits(Step(cfg, s, e), k)
  {
    StepGrows(cfg, s, e);
    if e.DialOk? {
    } else {
      StepMoves(cfg, s, e);
      forall d | d in DoomedPermits(s, k) ensures d in DoomedPermits(Step(cfg, s, e), k) {
        assert SettledOnce(s.wants[s.dials[d].w]);
      }
    }
  }

  lemma DoomedIsPermit(cfg: Config, s: Pool, k: Key)
    requires Inv(cfg, s) && cfg.maxConnsPerHost > 0
    ensures DoomedPermits(s, k) <= Permits(s.dials, s.wants, k)
    ensures |DoomedPermits(s, k)| <= |Permits(s.dials, s.wants, k)|
    ensures Count(s.connsPerHost, k) == |Permits(s.dials, s.wants, k)| + |OpenConns(s.conns, k)| <= cfg.maxConnsPerHost
  {
    assert Count(s.connsPerHost, k) == Load(s, k);
    assert Count(s.connsPerHost, k) <= cfg.maxConnsPerHost;
    SubsetSize(DoomedPermits(s, k), Permits(s.dials, s.wants, k));
  }

  lemma SubsetSize(a: set<nat>, b: set<nat>)
    requires a <= b
    ensures |a| <= |b|
  {
    assert b == a + (b - a);
  }

  lemma SubsetOfSameSize(a: set<nat>, b: set<nat>)
    requires a <= b && |a| >= |b|
    ensures a == b
  {
    SubsetSize(b - a, b);
    assert b == a + (b - a);
    assert |b| == |a| + |b - a|;
  }

  /** A host with all its permits doomed has no connection and no dial in progress. */
  lemma DoomedHostIsEmpty(cfg: Config, s: Pool, k: Key)
    requires Inv(cfg, s) && AllDoomed(cfg, s, k)
    ensures OpenConns(s.conns, k) == {} && Permits(s.dials, s.wants, k) == DoomedPermits(s, k)
    ensures Count(s.connsPerHost, k) == cfg.maxConnsPerHost
  {
    DoomedIsPermit(cfg, s, k);
    SubsetOfSameSize(DoomedPermits(s, k), Permits(s.dials, s.wants, k));
  }

  /** No connection to the host was opened between s and t. */
  ghost predicate NoneOpened(s: Pool, t: Pool, k: Key) {
    forall c :: |s.conns| <= c < |t.conns| ==> t.conns[c].key != k
  }

  lemma NobodyDials(cfg: Config, s: Pool, d: nat, k: Key)
    requires Inv(cfg, s) && AllDoomed(cfg, s, k) && d < |s.dials| && s.dials[d].Dialing?
    ensures s.wants[s.dials[d].w].key != k
  {
    DoomedHostIsEmpty(cfg, s, k);
    assert d !in DoomedPermits(s, k);
    assert d !in Permits(s.dials, s.wants, k);
  }

  lemma DoomedStepOpensNone(cfg: Config, s: Pool, e: Event, k: Key)
    requires Inv(cfg, s) && AllDoomed(cfg, s, k)
    ensures NoneOpened(s, Step(cfg, s, e), k) && AllDoomed(cfg, Step(cfg, s, e), k)
  {
    var t := Step(cfg, s, e);
    StepKeeps(cfg, s, e);
    StepKeepsDoomed(cfg, s, e, k);
    SubsetSize(DoomedPermits(s, k), DoomedPermits(t, k));
    DoomedIsPermit(cfg, t, k);
    if e.DialOk? {
      if Enabled(s, e) { NobodyDials(cfg, s, e.d, k); }
    } else {
      StepMoves(cfg, s, e);
    }
  }

  /** Once every permit of a host is doomed, no continuation opens a connection to it or gives a permit back. */
  lemma {:induction false} DoomedHostIsDead(cfg: Config, events: seq<Event>, more: seq<Event>, k: Key)
    requires AllDoomed(cfg, Run(cfg, events), k)
    ensures var s, t := Run(cfg, events), Run(cfg, events + more);
      && NoneOpened(s, t, k) && AllDoomed(cfg, t, k) && |s.conns| <= |t.conns|
      && OpenConns(t.conns, k) == {} && Count(t.connsPerHost, k) == cfg.maxConnsPerHost
    decreases |more|
  {
    RunKeeps(cfg, events + more);
    if more == [] {
      assert events + more == events;
    } else {
      var n := |more| - 1;
      DoomedHostIsDead(cfg, events, more[..n], k);
      var m := Run(cfg, events + more[..n]);
      RunOneMore(cfg, events + more[..n], more[n]);
      assert events + more[..n] + [more[n]] == events + more;
      RunKeeps(cfg, events + more[..n]);
      DoomedStepOpensNone(cfg, m, more[n], k);
      StepGrows(cfg, m, more[n]);
    }
    DoomedHostIsEmpty(cfg, Run(cfg, events + more), k);
  }

  // ---- any other host can be reached ----

  /** The run goes on to open a connection to the host. */
  ghost predicate Opens(cfg: Config, events: seq<Event>, more: seq<Event>, k: Key) {
    !NoneOpened(Run(cfg, events), Run(cfg, events + more), k)
  }

  lemma OpensLater(cfg: Config, events: seq<Event>, e: Event, more: seq<Event>, k: Key)
    requires Opens(cfg, events + [e], more, k)
    ensures Opens(cfg, events, [e] + more, k)
  {
    RunOneMore(cfg, events, e);
    RunKeeps(cfg, events);
    StepGrows(cfg, Run(cfg, events), e);
    assert events + [e] + more == events + ([e] + more);
  }

  lemma DialingOpens(cfg: Config, events: seq<Event>, d: nat) returns (more: seq<Event>)
    requires var s := Run(cfg, events); d < |s.dials| && s.dials[d].Dialing?
    ensures var s := Run(cfg, events); s.dials[d].w < |s.wants| && Opens(cfg, events, more, s.wants[s.dials[d].w].key)
  {
    var s := Run(cfg, events);
    RunKeeps(cfg, events);
    more := [DialOk(d)];
    RunOneMore(cfg, events, DialOk(d));
    assert Run(cfg, events + more).conns[|s.conns|].key == s.wants[s.dials[d].w].key;
  }

  /** A dial goroutine at its start whose wantConn still waits. */
  ghost predicate CanDial(s: Pool, d: nat, k: Key) {
    d < |s.dials| && s.dials[d].Start? && s.dials[d].w < |s.wants| && !s.wants[s.dials[d].w].ready
      && s.wants[s.dials[d].w].key == k
  }

  lemma StartOpens(cfg: Config, events: seq<Event>, d: nat, k: Key) returns (more: seq<Event>)
    requires CanDial(Run(cfg, events), d, k)
    ensures Opens(cfg, events, more, k)
  {
    var s := Run(cfg, events);
    RunKeeps(cfg, events);
    assert SettledOnce(s.wants[s.dials[d].w]);
    RunOneMore(cfg, events, DialBegin(d));
    var rest := DialingOpens(cfg, events + [DialBegin(d)], d);
    more := [DialBegin(d)] + rest;
    OpensLater(cfg, events, DialBegin(d), rest, k);
  }

  ghost predicate HasRoom(cfg: Config, s: Pool, k: Key) {
    cfg.maxConnsPerHost <= 0 || Count(s.connsPerHost, k) < cfg.maxConnsPerHost
  }

  lemma {:induction false} AllClosed(conns: seq<Conn>, tooOld: set<nat>, list: seq<nat>)
    requires forall i :: 0 <= i < |list| ==> list[i] < |conns| && conns[list[i]].closed
    ensures UsablePrefix(conns, tooOld, list) == []
    decreases |list|
  {
    if list != [] {
      AllClosed(conns, tooOld, list[..|list| - 1]);
    }
  }

  /** A request for a host without an open connection goes on to dial. */
  lemma AskFindsNothing(cfg: Config, s: Pool, w: nat)
    requires Inv(cfg, s) && w < |s.wants| && s.wants[w].phase == Asking && OpenConns(s.conns, s.wants[w].key) == {}
    ensures var t := Step(cfg, s, AskIdle(w, {}));
      && t.wants == s.wants[w := s.wants[w].(phase := Missed)]
      && t.dials == s.dials && t.connsPerHost == s.connsPerHost
  {
    var k := s.wants[w].key;
    var full := Entries(s.idleConn, k);
    forall i | 0 <= i < |full| ensures full[i] < |s.conns| && s.conns[full[i]].closed {
      assert full[i] !in OpenConns(s.conns, k);
    }
    AllClosed(s.conns, TooOld(cfg, {}), full);
  }

  lemma AskerGetsPermit(cfg: Config, s: Pool, w: nat)
    requires Inv(cfg, s) && w < |s.wants| && s.wants[w].phase == Missed && !s.wants[w].ready
      && HasRoom(cfg, s, s.wants[w].key)
    ensures CanDial(Step(cfg, s, AskDial(w)), |s.dials|, s.wants[w].key)
  {
  }

  lemma NewRequestAsks(cfg: Config, s: Pool, k: Key)
    requires Inv(cfg, s) && OpenConns(s.conns, k) == {}
    ensures var s2 := Step(cfg, Step(cfg, s, NewRequest(k)), AskIdle(|s.wants|, {}));
      && |s2.wants| == |s.wants| + 1 && s2.wants[|s.wants|].phase == Missed && !s2.wants[|s.wants|].ready
      && s2.wants[|s.wants|].key == k && s2.dials == s.dials && s2.connsPerHost == s.connsPerHost
  {
    StepKeeps(cfg, s, NewRequest(k));
    AskFindsNothing(cfg, Step(cfg, s, NewRequest(k)), |s.wants|);
  }

  /** With room for one more connection and none open, the next request opens one. */
  lemma NewRequestOpens(cfg: Config, events: seq<Event>, k: Key) returns (more: seq<Event>)
    requires HasRoom(cfg, Run(cfg, events), k) && OpenConns(Run(cfg, events).conns, k) == {}
    ensures Opens(cfg, events, more, k)
  {
    var s := Run(cfg, events);
    var w := |s.wants|;
    var e1, e2, e3 := NewRequest(k), AskIdle(w, {}), AskDial(w);
    RunKeeps(cfg, events);
    NewRequestAsks(cfg, s, k);
    RunOneMore(cfg, events, e1);
    RunOneMore(cfg, events + [e1], e2);
    RunKeeps(cfg, events + [e1] + [e2]);
    AskerGetsPermit(cfg, Run(cfg, events + [e1] + [e2]), w);
    RunOneMore(cfg, events + [e1] + [e2], e3);
    var rest := StartOpens(cfg, events + [e1] + [e2] + [e3], |s.dials|, k);
    OpensLater(cfg, events + [e1] + [e2], e3, rest, k);
    OpensLater(cfg, events + [e1], e2, [e3] + rest, k);
    OpensLater(cfg, events, e1, [e2] + ([e3] + rest), k);
    more := [e1] + ([e2] + ([e3] + rest));
  }

  /** decConnsPerHost hands the permit to a request that still waits, or makes room. */
  lemma DecFrees(cfg: Config, s: Pool, k: Key)
    requires cfg.maxConnsPerHost > 0 && Keyed(s.wants, s.connsPerHostWait)
    requires 0 < Count(s.connsPerHost, k) <= cfg.maxConnsPerHost
    ensures var t := DecConnsPerHost(cfg, s, k); HasRoom(cfg, t, k) || CanDial(t, |s.dials|, k)
  {
    SettledQueue(s.wants, s.connsPerHostWait, k);
  }

  lemma BreakFrees(cfg: Config, s: Pool, c: nat, k: Key)
    requires Inv(cfg, s) && c in OpenConns(s.conns, k)
    ensures var t := Step(cfg, s, Break(c));
      && (HasRoom(cfg, t, k) || CanDial(t, |s.dials|, k))
      && |OpenConns(t.conns, k)| < |OpenConns(s.conns, k)|
  {
    if cfg.maxConnsPerHost > 0 {
      DoomedIsPermit(cfg, s, k);
      DecFrees(cfg, s.(conns := s.conns[c := s.conns[c].(closed := true)]), k);
    }
    CloseConnFrame(cfg, s, c);
    OpenConnsOfClosed(s.conns, c, k);
  }

  /** With a free permit the run goes on to open a connection: those still open break, and a request dials. */
  lemma RoomOpens(cfg: Config, events: seq<Event>, k: Key) returns (more: seq<Event>)
    requires HasRoom(cfg, Run(cfg, events), k)
    ensures Opens(cfg, events, more, k)
    decreases |OpenConns(Run(cfg, events).conns, k)|, 1
  {
    var s := Run(cfg, events);
    if c :| c in OpenConns(s.conns, k) {
      more := OpenConnOpens(cfg, events, c, k);
    } else {
      more := NewRequestOpens(cfg, events, k);
    }
  }

  lemma OpenConnOpens(cfg: Config, events: seq<Event>, c: nat, k: Key) returns (more: seq<Event>)
    requires c in OpenConns(Run(cfg, events).conns, k)
    ensures Opens(cfg, events, more, k)
    decreases |OpenConns(Run(cfg, events).conns, k)|, 0
  {
    var s := Run(cfg, events);
    RunKeeps(cfg, events);
    BreakFrees(cfg, s, c, k);
    RunOneMore(cfg, events, Break(c));
    var rest: seq<Event>;
    if CanDial(Run(cfg, events + [Break(c)]), |s.dials|, k) {
      rest := StartOpens(cfg, events + [Break(c)], |s.dials|, k);
    } else {
      rest := RoomOpens(cfg, events + [Break(c)], k);
    }
    OpensLater(cfg, events, Break(c), rest, k);
    more := [Break(c)] + rest;
  }

  /** So does a failed dial. */
  lemma FailedDialOpens(cfg: Config, events: seq<Event>, d: nat, k: Key) returns (more: seq<Event>)
    requires cfg.maxConnsPerHost > 0
    requires var s := Run(cfg, events); d in Permits(s.dials, s.wants, k) && s.dials[d].Failing?
    ensures Opens(cfg, events, more, k)
  {
    var s := Run(cfg, events);
    RunKeeps(cfg, events);
    FailedDialFrees(cfg, s, d, k);
    RunOneMore(cfg, events, DialGiveBack(d));
    var rest: seq<Event>;
    if CanDial(Run(cfg, events + [DialGiveBack(d)]), |s.dials|, k) {
      rest := StartOpens(cfg, events + [DialGiveBack(d)], |s.dials|, k);
    } else {
      rest := RoomOpens(cfg, events + [DialGiveBack(d)], k);
    }
    OpensLater(cfg, events, DialGiveBack(d), rest, k);
    more := [DialGiveBack(d)] + rest;
  }

  lemma FailedDialFrees(cfg: Config, s: Pool, d: nat, k: Key)
    requires Inv(cfg, s) && cfg.maxConnsPerHost > 0 && d in Permits(s.dials, s.wants, k) && s.dials[d].Failing?
    ensures var t := Step(cfg, s, DialGiveBack(d)); HasRoom(cfg, t, k) || CanDial(t, |s.dials|, k)
  {
    DoomedIsPermit(cfg, s, k);
    var t := SetDial(s, d, Finished(s.dials[d].w));
    assert |t.dials| == |s.dials|;
    DecFrees(cfg, t, k);
    assert Step(cfg, s, DialGiveBack(d)) == DecConnsPerHost(cfg, t, k);
  }

  lemma PermitOpens(cfg: Config, events: seq<Event>, d: nat, k: Key) returns (more: seq<Event>)
    requires cfg.maxConnsPerHost > 0
    requires var s := Run(cfg, events); d in Permits(s.dials, s.wants, k) && d !in DoomedPermits(s, k)
    ensures Opens(cfg, events, more, k)
  {
    var s := Run(cfg, events);
    match s.dials[d]
    case Start(_) => more := StartOpens(cfg, events, d, k);
    case Dialing(_) => more := DialingOpens(cfg, events, d);
    case Failing(_) => more := FailedDialOpens(cfg, events, d, k);
  }

  /** Whenever not all permits of a host are doomed, the run can go on to open a connection to it. */
  lemma ReachableUnlessDoomed(cfg: Config, events: seq<Event>, k: Key) returns (more: seq<Event>)
    requires !AllDoomed(cfg, Run(cfg, events), k)
    ensures Opens(cfg, events, more, k)
  {
    var s := Run(cfg, events);
    RunKeeps(cfg, events);
    if HasRoom(cfg, s, k) {
      more := RoomOpens(cfg, events, k);
    } else if c :| c in OpenConns(s.conns, k) {
      more := OpenConnOpens(cfg, events, c, k);
    } else {
      DoomedIsPermit(cfg, s, k);
      assert Permits(s.dials, s.wants, k) - DoomedPermits(s, k) != {};
      var d :| d in Permits(s.dials, s.wants, k) - DoomedPermits(s, k);
      more := PermitOpens(cfg, events, d, k);
    }
  }

  /** A host is out of reach for good exactly when every permit of it is abandoned or about to be. */
  lemma HostIsDeadExactly(cfg: Config, events: seq<Event>, k: Key)
    ensures (forall more :: NoneOpened(Run(cfg, events), Run(cfg, events + more), k)) <==>
      AllDoomed(cfg, Run(cfg, events), k)
  {
    if AllDoomed(cfg, Run(cfg, events), k) {
      forall more ensures NoneOpened(Run(cfg, events), Run(cfg, events + more), k) {
        DoomedHostIsDead(cfg, events, more, k);
      }
    } else {
      var more := ReachableUnlessDoomed(cfg, events, k);
      assert Opens(cfg, events, more, k);
    }
  }

  /** In particular when every permit is abandoned: then nothing is even being dialed again. */
  lemma AbandonedKeyIsDead(cfg: Config, events: seq<Event>, more: seq<Event>, k: Key)
    requires cfg.maxConnsPerHost > 0
    requires |AbandonedPermits(Run(cfg, events), k)| == cfg.maxConnsPerHost
    ensures var s, t := Run(cfg, events), Run(cfg, events + more);
      && NoneOpened(s, t, k) && OpenConns(t.conns, k) == {} && InUsePermits(t, k) == {}
      && Count(t.connsPerHost, k) == cfg.maxConnsPerHost
  {
    var s, t := Run(cfg, events), Run(cfg, events + more);
    RunKeeps(cfg, events);
    RunGrows(cfg, events, more);
    DoomedIsPermit(cfg, s, k);
    SubsetSize(AbandonedPermits(s, k), DoomedPermits(s, k));
    DoomedHostIsDead(cfg, events, more, k);
    assert AbandonedPermits(s, k) <= AbandonedPermits(t, k);
    SubsetSize(AbandonedPermits(s, k), AbandonedPermits(t, k));
    CountsAreExact(cfg, events + more, k);
    assert |InUsePermits(t, k)| == 0;
  }

  /** One request that is cancelled between `go t.dialConnFor(w)` and its first statement makes a host unreachable for
      good when MaxConnsPerHost is one, while the next request for it waits. */
  lemma OneCancelKillsForGood() returns (events: seq<Event>)
    ensures var s := Run(ONE_PER_HOST, events); Entries(s.connsPerHostWait, SOME_KEY) == [1] && IsWaiting(s.wants, 1)
    ensures forall more :: NoneOpened(Run(ONE_PER_HOST, events), Run(ONE_PER_HOST, events + more), SOME_KEY)
  {
    events := OneCancelCanKillAKey();
    forall more ensures NoneOpened(Run(ONE_PER_HOST, events), Run(ONE_PER_HOST, events + more), SOME_KEY) {
      AbandonedKeyIsDead(ONE_PER_HOST, events, more, SOME_KEY);
    }
  }
}
