/** No request is forgotten: whoever still waits can be found by a dial, a freed permit or a returned connection. */
module PoolWaiting {
  import opened Options
  import opened PoolState
  import opened PoolInvariant
  import opened PoolSections
  import opened PoolHandOver
  import opened PoolRun
  import opened PoolHistory

  /** A dial goroutine works for w and has not had its outcome yet. */
  ghost predicate HasDial(dials: seq<Dial>, w: nat) {
    exists d :: 0 <= d < |dials| && dials[d].w == w && (dials[d].Start? || dials[d].Dialing? || dials[d].Dialed?)
  }

  /** A dial of its own, or a place in the queue for one. */
  ghost predicate IsDialedFor(s: Pool, w: nat)
    requires w < |s.wants|
  {
    HasDial(s.dials, w) || w in Entries(s.connsPerHostWait, s.wants[w].key)
  }

  /** A place in the queue for connections that become idle. */
  ghost predicate IsEnlisted(s: Pool, w: nat)
    requires w < |s.wants|
  {
    w in Entries(s.idleConnWait, s.wants[w].key)
  }

  ghost predicate Remembered(cfg: Config, s: Pool, w: nat) {
    IsWaiting(s.wants, w) ==>
      && (s.wants[w].phase == Waiting ==> IsDialedFor(s, w))
      && (s.wants[w].phase in {Missed, Waiting} && !cfg.disableKeepAlives ==> IsEnlisted(s, w))
  }

  /** Between s and t, w got its result, or nothing happened to it and it is found where it was found before. */
  ghost predicate Keeps(s: Pool, t: Pool, w: nat) {
    && |t.wants| == |s.wants|
    && (IsWaiting(t.wants, w) ==>
          && t.wants[w] == s.wants[w]
          && (IsDialedFor(s, w) ==> IsDialedFor(t, w))
          && (IsEnlisted(s, w) ==> IsEnlisted(t, w)))
  }

  // ---- the queues ----

  lemma {:induction false} DropKeepsWaiting(wants: seq<Want>, q: seq<nat>, w: nat)
    requires w in q && IsWaiting(wants, w)
    ensures w in DropSettled(wants, q)
  {
    if !IsWaiting(wants, q[0]) {
      assert w in q[1..];
      DropKeepsWaiting(wants, q[1..], w);
    }
  }

  /** The queue under k is replaced by `q`, which still has w if the queue under k had it. */
  lemma QueueKeeps(queues: map<Key, seq<nat>>, k: Key, q: seq<nat>, k': Key, w: nat)
    requires k' == k && w in Entries(queues, k) ==> w in q
    ensures w in Entries(queues, k') ==> w in Entries(Store(queues, k, q), k') && w in Entries(queues[k := q], k')
  {
  }

  lemma NewDialFound(dials: seq<Dial>, w: nat, x: nat)
    ensures HasDial(dials + [Start(w)], w)
    ensures HasDial(dials, x) ==> HasDial(dials + [Start(w)], x)
  {
    assert (dials + [Start(w)])[|dials|] == Start(w);
    if d :| 0 <= d < |dials| && dials[d].w == x && (dials[d].Start? || dials[d].Dialing? || dials[d].Dialed?) {
      assert (dials + [Start(w)])[d] == dials[d];
    }
  }

  // ---- sections under connsPerHostMu ----

  lemma DecKeepsWaiter(cfg: Config, s: Pool, k: Key, w: nat)
    ensures Keeps(s, DecConnsPerHost(cfg, s, k), w)
  {
    DecFrame(cfg, s, k);
    if IsWaiting(s.wants, w) && cfg.maxConnsPerHost > 0 && Count(s.connsPerHost, k) != 0 {
      var full := Entries(s.connsPerHostWait, k);
      var q := DropSettled(s.wants, full);
      if w in full { DropKeepsWaiting(s.wants, full, w); }
      if q != [] {
        NewDialFound(s.dials, q[0], w);
        if w != q[0] { QueueKeeps(s.connsPerHostWait, k, q[1..], s.wants[w].key, w); }
      } else {
        QueueKeeps(s.connsPerHostWait, k, [], s.wants[w].key, w);
      }
    }
  }

  lemma CloseKeepsWaiter(cfg: Config, s: Pool, c: nat, w: nat)
    requires c < |s.conns|
    ensures Keeps(s, CloseConn(cfg, s, c), w)
  {
    if !s.conns[c].closed {
      DecKeepsWaiter(cfg, s.(conns := s.conns[c := s.conns[c].(closed := true)]), s.conns[c].key, w);
    }
  }

  lemma QueueForDialKeepsWaiter(cfg: Config, s: Pool, x: nat, w: nat)
    requires x < |s.wants|
    ensures Keeps(s, QueueForDial(cfg, s, x), w)
    ensures IsDialedFor(QueueForDial(cfg, s, x), x) && QueueForDial(cfg, s, x).wants == s.wants
  {
    var k := s.wants[x].key;
    var t := QueueForDial(cfg, s, x);
    QueueForDialFrame(cfg, s, x);
    NewDialFound(s.dials, x, w);
    if cfg.maxConnsPerHost > 0 && Count(s.connsPerHost, k) >= cfg.maxConnsPerHost && IsWaiting(s.wants, w) {
      var full := Entries(s.connsPerHostWait, k);
      if w in full { DropKeepsWaiting(s.wants, full, w); }
      QueueKeeps(s.connsPerHostWait, k, DropSettled(s.wants, full) + [x], s.wants[w].key, w);
    }
  }

  // ---- sections under idleMu ----

  lemma EvictKeepsWaiter(cfg: Config, s: Pool, w: nat)
    requires Below(s.idleLRU, |s.conns|) && |s.owner| == |s.conns|
    ensures Keeps(s, Evict(cfg, s), w)
  {
    if cfg.maxIdleConns != 0 && |s.idleLRU| > cfg.maxIdleConns && s.idleLRU != [] {
      CloseKeepsWaiter(cfg, s.(idleLRU := s.idleLRU[..|s.idleLRU| - 1]), s.idleLRU[|s.idleLRU| - 1], w);
    }
  }

  lemma StillIdleKeepsWaiter(cfg: Config, s: Pool, c: nat, w: nat)
    requires c < |s.conns| && |s.owner| == |s.conns|
    ensures Keeps(s, CloseIfStillIdle(cfg, s, c), w)
  {
    if c in s.idleLRU { CloseKeepsWaiter(cfg, RemoveIdle(s, c), c, w); }
  }

  /** The delivery loop passes over nobody who still waits: it takes the first of them. */
  lemma PopsKeepWaiter(s: Pool, k: Key, w: nat)
    requires WantsSettleOnce(s.wants)
    ensures var rest := DropTaken(s.wants, Entries(s.idleConnWait, k));
      (rest != [] && rest[0] == w) || Keeps(s, AfterPops(s, k), w)
  {
    var full := Entries(s.idleConnWait, k);
    var rest := DropTaken(s.wants, full);
    AcceptsIsWaiting(s.wants, full);
    if IsWaiting(s.wants, w) && !(rest != [] && rest[0] == w) {
      if w in full { DropKeepsWaiting(s.wants, full, w); }
      QueueKeeps(s.idleConnWait, k, if rest == [] then [] else rest[1..], s.wants[w].key, w);
    }
  }

  lemma TryPutKeepsWaiter(cfg: Config, s: Pool, c: nat, w: nat)
    requires WantsSettleOnce(s.wants)
    requires c < |s.conns| && Below(s.idleLRU, |s.conns|) && |s.owner| == |s.conns|
    ensures Keeps(s, TryPutIdle(cfg, s, c).0, w)
  {
    var k := s.conns[c].key;
    var rest := DropTaken(s.wants, Entries(s.idleConnWait, k));
    var s1 := AfterPops(s, k);
    assert s1.wants == s.wants && s1.conns == s.conns && s1.idleLRU == s.idleLRU && s1.owner == s.owner;
    PopsKeepWaiter(s, k, w);
    if rest == [] && !(s1.closeIdle || |Entries(s1.idleConn, k)| >= cfg.IdlePerHost()) {
      EvictKeepsWaiter(cfg, Insert(s1, c), w);
    }
  }

  /** The queue after queueForIdleConn. */
  lemma AskedQueue(cfg: Config, s: Pool, x: nat, aged: set<nat>)
    requires x < |s.wants| && |s.owner| == |s.conns| && ListRefs(s.idleConn, |s.conns|)
    ensures var t := DoAskIdle(cfg, s, x, aged); var k := s.wants[x].key;
      || t.idleConnWait == s.idleConnWait[k := DropSettled(s.wants, Entries(s.idleConnWait, k)) + [x]]
      || (t.idleConnWait == s.idleConnWait && (cfg.disableKeepAlives || t.wants[x].ready || !Accepts(s.wants, x)))
  {
    AskIdleFrame(cfg, s, x, aged);
    if !cfg.disableKeepAlives {
      var k := s.wants[x].key;
      var tooOld := TooOld(cfg, aged);
      var list := UsablePrefix(s.conns, tooOld, Entries(s.idleConn, k));
      UsablePrefixIsPrefix(s.conns, tooOld, Entries(s.idleConn, k));
      SearchedFrame(s, k, tooOld);
      if list != [] { OfferFrame(Searched(s, k, tooOld), x, k, list); }
    }
  }

  lemma AskIdleKeepsWaiter(cfg: Config, s: Pool, x: nat, aged: set<nat>, w: nat)
    requires Shape(s) && WantsSettleOnce(s.wants) && x < |s.wants| && s.wants[x].phase == Asking
    requires Remembered(cfg, s, w)
    ensures Remembered(cfg, DoAskIdle(cfg, s, x, aged), w)
  {
    var k := s.wants[x].key;
    AskIdleFrame(cfg, s, x, aged);
    AskedQueue(cfg, s, x, aged);
    assert SettledOnce(s.wants[x]);
    if IsWaiting(s.wants, w) {
      var full := Entries(s.idleConnWait, k);
      if w in full { DropKeepsWaiting(s.wants, full, w); }
      QueueKeeps(s.idleConnWait, k, DropSettled(s.wants, full) + [x], s.wants[w].key, w);
    }
  }

  lemma AskDialKeepsWaiter(cfg: Config, s: Pool, x: nat, w: nat)
    requires x < |s.wants| && s.wants[x].phase == Missed
    requires Remembered(cfg, s, w)
    ensures Remembered(cfg, QueueForDial(cfg, SetPhase(s, x, Waiting), x), w)
  {
    QueueForDialKeepsWaiter(cfg, SetPhase(s, x, Waiting), x, w);
  }

  // ---- every step, every run ----

  lemma NewRequestRemembers(cfg: Config, s: Pool, key: Key, w: nat)
    requires Remembered(cfg, s, w)
    ensures Remembered(cfg, s.(wants := s.wants + [Want(key, true, None, false, false, Asking)]), w)
  {
  }

  /** Only the request named changes, and it has its result. */
  lemma SettledKeepsWaiter(s: Pool, t: Pool, x: nat, w: nat)
    requires x < |s.wants| == |t.wants| && t.wants == s.wants[x := t.wants[x]] && t.wants[x].ready
    requires t.dials == s.dials && t.connsPerHostWait == s.connsPerHostWait && t.idleConnWait == s.idleConnWait
    ensures Keeps(s, t, w)
  {
  }

  lemma CancelKeepsWaiter(s: Pool, x: nat, w: nat)
    requires x < |s.wants|
    ensures Keeps(s, CancelAndEnd(s, x), w)
  {
    var t := CancelWant(s, x).0;
    SettledKeepsWaiter(s, t, x, w);
    SettledKeepsWaiter(t, t.(wants := t.wants[x := t.wants[x].(phase := Done)]), x, w);
  }

  lemma DoCancelKeepsWaiter(s: Pool, x: nat, w: nat)
    requires x < |s.wants| && (s.wants[x].pc.Some? ==> s.wants[x].pc.value < |s.owner|)
    ensures Keeps(s, DoCancel(s, x), w)
  {
    CancelKeepsWaiter(s, x, w);
    assert DoCancel(s, x).wants == CancelAndEnd(s, x).wants;
  }

  lemma TakeKeepsWaiter(s: Pool, x: nat, w: nat)
    requires Shape(s) && x < |s.wants| && s.wants[x].ready
    ensures Keeps(s, DoTakeResult(s, x), w)
  {
    if s.wants[x].pc.Some? {
      SettledKeepsWaiter(s, SetPhase(s, x, Using), x, w);
    } else {
      CancelKeepsWaiter(s, x, w);
    }
  }

  lemma EndUseKeepsWaiter(s: Pool, x: nat, w: nat)
    requires x < |s.wants| && s.wants[x].phase == Using && SettledOnce(s.wants[x])
    ensures Keeps(s, SetPhase(s, x, Done), w)
  {
    SettledKeepsWaiter(s, SetPhase(s, x, Done), x, w);
  }

  lemma RequestStepRemembers(cfg: Config, s: Pool, e: Event, w: nat)
    requires Shape(s) && WantsSettleOnce(s.wants) && Enabled(s, e)
    requires e.TakeResult? || e.CancelRequest? || e.GiveBack? || e.RequestFails?
    ensures Keeps(s, Step(cfg, s, e), w)
  {
    assert SettledOnce(s.wants[e.w]);
    match e
    case TakeResult(x) => TakeKeepsWaiter(s, x, w);
    case CancelRequest(x) => DoCancelKeepsWaiter(s, x, w);
    case GiveBack(x) => EndUseKeepsWaiter(s, x, w);
    case RequestFails(x) => EndUseKeepsWaiter(s, x, w);
  }

  /** One dial goroutine moves; w keeps its dial, or that goroutine was not the one that worked for w. */
  lemma DialMoveKeepsWaiter(s: Pool, t: Pool, d: nat, w: nat)
    requires |t.wants| == |s.wants| && d < |s.dials| == |t.dials| && t.dials == s.dials[d := t.dials[d]]
    requires t.connsPerHostWait == s.connsPerHostWait && t.idleConnWait == s.idleConnWait
    requires IsWaiting(t.wants, w) ==> (t.wants[w] == s.wants[w] &&
      (s.dials[d].w != w || s.dials[d].Failing? || (t.dials[d].w == w && (t.dials[d].Dialing? || t.dials[d].Dialed?))))
    ensures Keeps(s, t, w)
  {
    if HasDial(s.dials, w) && IsWaiting(t.wants, w) {
      var x :| 0 <= x < |s.dials| && s.dials[x].w == w
        && (s.dials[x].Start? || s.dials[x].Dialing? || s.dials[x].Dialed?);
      assert t.dials[x].w == w && (t.dials[x].Start? || t.dials[x].Dialing? || t.dials[x].Dialed?);
    }
  }

  lemma DialGiveBackKeepsWaiter(cfg: Config, s: Pool, d: nat, w: nat)
    requires Shape(s) && d < |s.dials| && s.dials[d].Failing?
    ensures Keeps(s, DoDialGiveBack(cfg, s, d), w)
  {
    var t := SetDial(s, d, Finished(s.dials[d].w));
    DialMoveKeepsWaiter(s, t, d, w);
    DecKeepsWaiter(cfg, t, s.wants[s.dials[d].w].key, w);
  }

  lemma DialBeginKeepsWaiter(s: Pool, d: nat, w: nat)
    requires Shape(s) && WantsSettleOnce(s.wants) && d < |s.dials| && s.dials[d].Start?
    ensures Keeps(s, DoDialBegin(s, d), w)
  {
    assert SettledOnce(s.wants[s.dials[d].w]);
    DialMoveKeepsWaiter(s, DoDialBegin(s, d), d, w);
  }

  lemma DialOkKeepsWaiter(s: Pool, d: nat, w: nat)
    requires Shape(s) && d < |s.dials| && s.dials[d].Dialing?
    ensures Keeps(s, DoDialOk(s, d), w)
  {
    DialMoveKeepsWaiter(s, DoDialOk(s, d), d, w);
  }

  lemma DialErrKeepsWaiter(s: Pool, d: nat, w: nat)
    requires Shape(s) && WantsSettleOnce(s.wants) && d < |s.dials| && s.dials[d].Dialing?
    ensures Keeps(s, DoDialErr(s, d), w)
  {
    var x := s.dials[d].w;
    assert SettledOnce(s.wants[x]);
    var t := DeliverError(s, x);
    assert t.wants == s.wants[x := t.wants[x]] && t.wants[x].ready;
    SettledKeepsWaiter(s, t, x, w);
    DialMoveKeepsWaiter(t, SetDial(t, d, Failing(x)), d, w);
  }

  lemma DialDeliverKeepsWaiter(s: Pool, d: nat, w: nat)
    requires Shape(s) && WantsSettleOnce(s.wants) && d < |s.dials| && s.dials[d].Dialed?
    ensures Keeps(s, DoDialDeliver(s, d), w)
  {
    assert SettledOnce(s.wants[s.dials[d].w]);
    DialMoveKeepsWaiter(s, DoDialDeliver(s, d), d, w);
  }

  lemma DialStepRemembers(cfg: Config, s: Pool, e: Event, w: nat)
    requires Shape(s) && WantsSettleOnce(s.wants) && Enabled(s, e)
    requires e.DialBegin? || e.DialOk? || e.DialErr? || e.DialDeliver? || e.DialGiveBack?
    ensures Keeps(s, Step(cfg, s, e), w)
  {
    match e
    case DialBegin(d) => DialBeginKeepsWaiter(s, d, w);
    case DialOk(d) => DialOkKeepsWaiter(s, d, w);
    case DialErr(d) => DialErrKeepsWaiter(s, d, w);
    case DialDeliver(d) => DialDeliverKeepsWaiter(s, d, w);
    case DialGiveBack(d) => DialGiveBackKeepsWaiter(cfg, s, d, w);
  }

  lemma PutStepRemembers(cfg: Config, s: Pool, e: Event, w: nat)
    requires Shape(s) && WantsSettleOnce(s.wants) && Enabled(s, e)
    requires e.PutCheck? || e.PutInsert? || e.PutClose?
    ensures Keeps(s, Step(cfg, s, e), w)
  {
    match e
    case PutCheck(_) =>
    case PutInsert(p) => TryPutKeepsWaiter(cfg, SetStage(s, p, Over, InHand), s.puts[p].c, w);
    case PutClose(p) => CloseKeepsWaiter(cfg, s, s.puts[p].c, w);
  }

  lemma PoolStepRemembers(cfg: Config, s: Pool, e: Event, w: nat)
    requires Shape(s) && Enabled(s, e)
    requires e.Break? || e.ReadLoopExit? || e.TimerFires? || e.StaleFires? || e.CloseIdle?
    ensures Keeps(s, Step(cfg, s, e), w)
  {
    match e
    case Break(c) => CloseKeepsWaiter(cfg, s, c, w);
    case TimerFires(c) => StillIdleKeepsWaiter(cfg, s, c, w);
    case StaleFires(c) => StillIdleKeepsWaiter(cfg, s, c, w);
    case _ =>
  }

  lemma StepRemembers(cfg: Config, s: Pool, e: Event, w: nat)
    requires Inv(cfg, s) && Remembered(cfg, s, w)
    ensures Remembered(cfg, Step(cfg, s, e), w)
  {
    if Enabled(s, e) {
      if e.DialBegin? || e.DialOk? || e.DialErr? || e.DialDeliver? || e.DialGiveBack? {
        DialStepRemembers(cfg, s, e, w);
      } else if e.AskIdle? {
        AskIdleFrame(cfg, s, e.w, e.aged);
        AskIdleKeepsWaiter(cfg, s, e.w, e.aged, w);
      } else if e.AskDial? {
        AskDialKeepsWaiter(cfg, s, e.w, w);
      } else if e.NewRequest? {
        NewRequestRemembers(cfg, s, e.key, w);
      } else if e.TakeResult? || e.CancelRequest? || e.GiveBack? || e.RequestFails? {
        RequestStepRemembers(cfg, s, e, w);
      } else if e.PutCheck? || e.PutInsert? || e.PutClose? {
        PutStepRemembers(cfg, s, e, w);
      } else {
        PoolStepRemembers(cfg, s, e, w);
      }
    }
  }

  lemma {:induction false} RunRemembers(cfg: Config, events: seq<Event>, w: nat)
    ensures Remembered(cfg, Run(cfg, events), w)
  {
    if events != [] {
      var n := |events| - 1;
      RunKeeps(cfg, events[..n]);
      RunRemembers(cfg, events[..n], w);
      StepRemembers(cfg, Run(cfg, events[..n]), events[n], w);
    }
  }

  /**
    In every run, a request that waits without a result has a dial goroutine of
    its own on the way or stands in the queue for a dial permit of its host;
    and unless keep-alives are off it also stands in the queue for idle
    connections of its host.
   */
  lemma NobodyIsForgotten(cfg: Config, events: seq<Event>, w: nat)
    requires var s := Run(cfg, events); w < |s.wants| && s.wants[w].phase == Waiting && !s.wants[w].ready
    ensures var s := Run(cfg, events);
      && (HasDial(s.dials, w) || w in Entries(s.connsPerHostWait, s.wants[w].key))
      && (!cfg.disableKeepAlives ==> w in Entries(s.idleConnWait, s.wants[w].key))
  {
    RunRemembers(cfg, events, w);
  }
}
