/** Runs of the pool: every interleaving of the lock-protected sections of all goroutines. */
module PoolRun {
  import opened Options
  import opened PoolState
  import opened PoolInvariant
  import opened PoolSections
  import opened PoolHandOver

  datatype Event =
    | NewRequest(key: Key)                        // getConn allocates its wantConn
    | AskIdle(w: nat, aged: set<nat>)           // queueForIdleConn
    | AskDial(w: nat)                             // queueForDial
    | TakeResult(w: nat)                          // getConn sees w.ready
    | CancelRequest(w: nat)                       // getConn is cancelled
    | GiveBack(w: nat)                            // the round trip is over, or was refused
    | RequestFails(w: nat)                        // the round trip found its connection closed
    | DialBegin(d: nat)                           // getCtxForDial
    | DialOk(d: nat)                              // dialConn returned a connection
    | DialErr(d: nat)                             // dialConn failed; tryDeliver(nil, err)
    | DialDeliver(d: nat)                         // tryDeliver(pc, nil)
    | DialGiveBack(d: nat)                        // decConnsPerHost after a failed dial
    | PutCheck(p: nat)                            // tryPutIdleConn before idleMu
    | PutInsert(p: nat)                           // tryPutIdleConn under idleMu
    | PutClose(p: nat)                            // the close after an error, or one of CloseIdleConnections
    | Break(c: nat)                               // close for any other reason
    | ReadLoopExit(c: nat)                        // removeIdleConn
    | TimerFires(c: nat)                          // closeConnIfStillIdle from an idle timer
    | StaleFires(c: nat)                          // closeConnIfStillIdle started by queueForIdleConn
    | CloseIdle(listed: seq<nat>)                 // CloseIdleConnections under idleMu

  /** A section of getConn or of the round trip. */
  predicate OfRequest(e: Event) {
    || e.NewRequest? || e.AskIdle? || e.AskDial? || e.TakeResult? || e.CancelRequest? || e.GiveBack? || e.RequestFails?
  }

  function SetPhase(s: Pool, w: nat, phase: Phase): (t: Pool)
    requires w < |s.wants|
  {
    s.(wants := s.wants[w := s.wants[w].(phase := phase)])
  }

  function SetDial(s: Pool, d: nat, dial: Dial): (t: Pool)
    requires d < |s.dials|
  {
    s.(dials := s.dials[d := dial])
  }

  /** A goroutine enters putOrCloseIdleConn(c). */
  function StartPut(s: Pool, c: nat): (t: Pool)
    requires c < |s.owner|
  {
    s.(puts := s.puts + [Put(c, Checking)], owner := s.owner[c := ByPut(|s.puts|)])
  }

  function SetStage(s: Pool, p: nat, stage: Stage, o: Owner): (t: Pool)
    requires p < |s.puts| && s.puts[p].c < |s.owner|
  {
    s.(puts := s.puts[p := s.puts[p].(stage := stage)], owner := s.owner[s.puts[p].c := o])
  }

  /** `listed` enumerates the connections of all idle lists. */
  ghost predicate Enumerates(listed: seq<nat>, s: Pool) {
    && Distinct(listed)
    && (forall c :: c in listed ==> c < |s.conns| && c in Entries(s.idleConn, s.conns[c].key))
    && (forall k, c :: c in Entries(s.idleConn, k) ==> c in listed)
  }

  /** Whether some goroutine stands before this section. */
  ghost predicate Enabled(s: Pool, e: Event) {
    Shape(s) &&
    match e
    case NewRequest(_) => true
    case AskIdle(w, _) => w < |s.wants| && s.wants[w].phase == Asking
    case AskDial(w) => w < |s.wants| && s.wants[w].phase == Missed
    case TakeResult(w) => w < |s.wants| && s.wants[w].phase == Waiting && s.wants[w].ready
    case CancelRequest(w) => w < |s.wants| && s.wants[w].phase == Waiting
    case GiveBack(w) => w < |s.wants| && s.wants[w].phase == Using && s.wants[w].pc.Some?
    case RequestFails(w) => w < |s.wants| && s.wants[w].phase == Using && s.wants[w].pc.Some?
      && s.conns[s.wants[w].pc.value].closed
    case DialBegin(d) => d < |s.dials| && s.dials[d].Start?
    case DialOk(d) => d < |s.dials| && s.dials[d].Dialing?
    case DialErr(d) => d < |s.dials| && s.dials[d].Dialing?
    case DialDeliver(d) => d < |s.dials| && s.dials[d].Dialed?
    case DialGiveBack(d) => d < |s.dials| && s.dials[d].Failing?
    case PutCheck(p) => p < |s.puts| && s.puts[p].stage == Checking
    case PutInsert(p) => p < |s.puts| && s.puts[p].stage == Inserting
    case PutClose(p) => p < |s.puts| && s.puts[p].stage == Closing
    case Break(c) => c < |s.conns|
    case ReadLoopExit(c) => c < |s.conns| && s.conns[c].closed
    case TimerFires(c) => c < |s.conns|
    case StaleFires(c) => c < |s.conns| && c in s.stale
    case CloseIdle(listed) => Enumerates(listed, s)
  }

  // ---- what each goroutine does ----

  function DoAskIdle(cfg: Config, s: Pool, w: nat, aged: set<nat>): (t: Pool)
    requires w < |s.wants| && |s.owner| == |s.conns|
    requires forall k, i :: k in s.idleConn && 0 <= i < |s.idleConn[k]| ==> s.idleConn[k][i] < |s.conns|
  {
    var (t, delivered) := QueueForIdle(cfg, s, w, aged);
    SetPhase(t, w, if delivered then Using else Missed)
  }

  /** What queueForIdleConn leaves alone, and what becomes of the wantConn that asks. */
  lemma AskIdleFrame(cfg: Config, s: Pool, w: nat, aged: set<nat>)
    requires w < |s.wants| && |s.owner| == |s.conns| && ListRefs(s.idleConn, |s.conns|)
    ensures var t := DoAskIdle(cfg, s, w, aged);
      && t.conns == s.conns && t.dials == s.dials && t.puts == s.puts
      && t.connsPerHost == s.connsPerHost && t.connsPerHostWait == s.connsPerHostWait
      && |t.wants| == |s.wants| && t.wants == s.wants[w := t.wants[w]] && t.wants[w].key == s.wants[w].key
      && (if !cfg.disableKeepAlives && t.wants[w].phase == Using then Accepts(s.wants, w) && t.wants[w].ready
          else t.wants[w] == s.wants[w].(phase := Missed))
      && (!cfg.idleTimeout ==> t.stale == s.stale)
  {
    var (t, delivered) := QueueForIdle(cfg, s, w, aged);
    QueueForIdleFrame(cfg, s, w, aged);
    assert s.wants[w := t.wants[w]][w := t.wants[w].(phase := Using)] == s.wants[w := t.wants[w].(phase := Using)];
    assert s.wants[w := t.wants[w]][w := t.wants[w].(phase := Missed)] == s.wants[w := t.wants[w].(phase := Missed)];
  }

  lemma OfferFrame(s: Pool, w: nat, k: Key, list: seq<nat>)
    requires w < |s.wants| && list != [] && list[|list| - 1] < |s.owner|
    ensures var (t, delivered) := Offer(s, w, k, list);
      && t.conns == s.conns && t.dials == s.dials && t.puts == s.puts && t.idleConnWait == s.idleConnWait
      && t.connsPerHost == s.connsPerHost && t.connsPerHostWait == s.connsPerHostWait && t.stale == s.stale
      && t.wants == s.wants[w := t.wants[w]] && t.wants[w].key == s.wants[w].key
      && (if delivered then Accepts(s.wants, w) && t.wants[w].ready else t.wants[w] == s.wants[w])
  {
  }

  lemma SearchedFrame(s: Pool, k: Key, tooOld: set<nat>)
    ensures var t := Searched(s, k, tooOld);
      && t.wants == s.wants && t.conns == s.conns && t.dials == s.dials && t.puts == s.puts
        && t.idleConnWait == s.idleConnWait
      && t.connsPerHost == s.connsPerHost && t.connsPerHostWait == s.connsPerHostWait && |t.owner| == |s.owner|
      && (tooOld == {} ==> t.stale == s.stale)
  {
  }

  lemma QueueForIdleFrame(cfg: Config, s: Pool, w: nat, aged: set<nat>)
    requires w < |s.wants| && |s.owner| == |s.conns| && ListRefs(s.idleConn, |s.conns|)
    ensures var (t, delivered) := QueueForIdle(cfg, s, w, aged);
      && t.conns == s.conns && t.dials == s.dials && t.puts == s.puts
      && t.connsPerHost == s.connsPerHost && t.connsPerHostWait == s.connsPerHostWait
      && t.wants == s.wants[w := t.wants[w]] && t.wants[w].key == s.wants[w].key
      && (if delivered then Accepts(s.wants, w) && !cfg.disableKeepAlives && t.wants[w].ready
          else t.wants[w] == s.wants[w])
      && (!cfg.idleTimeout ==> t.stale == s.stale)
  {
    if !cfg.disableKeepAlives {
      var k := s.wants[w].key;
      var list := UsablePrefix(s.conns, TooOld(cfg, aged), Entries(s.idleConn, k));
      UsablePrefixIsPrefix(s.conns, TooOld(cfg, aged), Entries(s.idleConn, k));
      SearchedFrame(s, k, TooOld(cfg, aged));
      if list != [] { OfferFrame(Searched(s, k, TooOld(cfg, aged)), w, k, list); }
    }
  }

  function DoTakeResult(s: Pool, w: nat): (t: Pool)
    requires w < |s.wants|
  {
    if s.wants[w].pc.Some? then SetPhase(s, w, Using) else CancelAndEnd(s, w)
  }

  function DoCancel(s: Pool, w: nat): (t: Pool)
    requires w < |s.wants| && (s.wants[w].pc.Some? ==> s.wants[w].pc.value < |s.owner|)
  {
    if s.wants[w].pc.Some? then StartPut(CancelAndEnd(s, w), s.wants[w].pc.value) else CancelAndEnd(s, w)
  }

  function DoDialBegin(s: Pool, d: nat): (t: Pool)
    requires d < |s.dials| && s.dials[d].w < |s.wants|
  {
    SetDial(s, d, if s.wants[s.dials[d].w].ctx then Dialing(s.dials[d].w) else Abandoned(s.dials[d].w))
  }

  function DoDialOk(s: Pool, d: nat): (t: Pool)
    requires d < |s.dials| && s.dials[d].w < |s.wants|
  {
    var w := s.dials[d].w;
    s.(conns := s.conns + [Conn(s.wants[w].key, false)], owner := s.owner + [ByDial(d)],
      dials := s.dials[d := Dialed(w, |s.conns|)])
  }

  function DoDialErr(s: Pool, d: nat): (t: Pool)
    requires d < |s.dials| && s.dials[d].w < |s.wants|
  {
    SetDial(DeliverError(s, s.dials[d].w), d, Failing(s.dials[d].w))
  }

  function DoDialDeliver(s: Pool, d: nat): (t: Pool)
    requires d < |s.dials| && s.dials[d].Dialed? && s.dials[d].w < |s.wants| && s.dials[d].c < |s.owner|
  {
    var w, c := s.dials[d].w, s.dials[d].c;
    var t := SetDial(s, d, Finished(w));
    if Accepts(s.wants, w) then Deliver(t, w, c) else StartPut(t, c)
  }

  function DoDialGiveBack(cfg: Config, s: Pool, d: nat): (t: Pool)
    requires d < |s.dials| && s.dials[d].w < |s.wants|
  {
    DecConnsPerHost(cfg, SetDial(s, d, Finished(s.dials[d].w)), s.wants[s.dials[d].w].key)
  }

  function DoPutCheck(cfg: Config, s: Pool, p: nat): (t: Pool)
    requires p < |s.puts| && s.puts[p].c < |s.conns|
  {
    var refused := cfg.disableKeepAlives || cfg.maxIdleConnsPerHost < 0 || s.conns[s.puts[p].c].closed;
    s.(puts := s.puts[p := s.puts[p].(stage := if refused then Closing else Inserting)])
  }

  function DoPutInsert(cfg: Config, s: Pool, p: nat): (t: Pool)
    requires p < |s.puts| && s.puts[p].c < |s.conns| && |s.owner| == |s.conns|
    requires Below(s.idleLRU, |s.conns|)
  {
    var c := s.puts[p].c;
    var (t, ok) := TryPutIdle(cfg, SetStage(s, p, Over, InHand), c);
    if ok then t
    else t.(puts := s.puts[p := Put(c, Closing)], owner := t.owner[c := ByPut(p)])
  }

  function DoPutClose(cfg: Config, s: Pool, p: nat): (t: Pool)
    requires p < |s.puts| && s.puts[p].c < |s.conns| && |s.owner| == |s.conns|
  {
    var t := CloseConn(cfg, s, s.puts[p].c);
    t.(puts := s.puts[p := s.puts[p].(stage := Over)], owner := s.owner[s.puts[p].c := Gone])
  }

  function DoStale(cfg: Config, s: Pool, c: nat): (t: Pool)
    requires c < |s.conns| && |s.owner| == |s.conns|
  {
    var t := CloseIfStillIdle(cfg, s, c);
    t.(stale := t.stale - {c})
  }

  /** One section of one goroutine; an event that is not enabled changes nothing. */
  ghost function Step(cfg: Config, s: Pool, e: Event): (t: Pool) {
    if !Enabled(s, e) then s
    else match e
      case NewRequest(key) => s.(wants := s.wants + [Want(key, true, None, false, false, Asking)])
      case AskIdle(w, aged) => DoAskIdle(cfg, s, w, aged)
      case AskDial(w) => QueueForDial(cfg, SetPhase(s, w, Waiting), w)
      case TakeResult(w) => DoTakeResult(s, w)
      case CancelRequest(w) => DoCancel(s, w)
      case GiveBack(w) => StartPut(SetPhase(s, w, Done), s.wants[w].pc.value)
      case RequestFails(w) => SetOwner(SetPhase(s, w, Done), s.wants[w].pc.value, Gone)
      case DialBegin(d) => DoDialBegin(s, d)
      case DialOk(d) => DoDialOk(s, d)
      case DialErr(d) => DoDialErr(s, d)
      case DialDeliver(d) => DoDialDeliver(s, d)
      case DialGiveBack(d) => DoDialGiveBack(cfg, s, d)
      case PutCheck(p) => DoPutCheck(cfg, s, p)
      case PutInsert(p) => DoPutInsert(cfg, s, p)
      case PutClose(p) => DoPutClose(cfg, s, p)
      case Break(c) => CloseConn(cfg, s, c)
      case ReadLoopExit(c) => RemoveIdle(s, c)
      case TimerFires(c) => if cfg.idleTimeout then CloseIfStillIdle(cfg, s, c) else s
      case StaleFires(c) => DoStale(cfg, s, c)
      case CloseIdle(listed) => CloseIdleSection(s, listed)
  }

  // ---- every goroutine keeps the invariant ----

  /** Requests that change nothing but how far their goroutine got. */
  lemma PhaseKeeps(cfg: Config, s: Pool, w: nat, phase: Phase, hand: Option<nat>)
    requires InvWith(cfg, s, hand) && w < |s.wants|
    requires s.wants[w].phase != Done && phase != Done && (phase == Using ==> s.wants[w].pc.Some?)
    ensures InvWith(cfg, SetPhase(s, w, phase), hand)
  {
    var t := SetPhase(s, w, phase);
    assert SettledOnce(s.wants[w]);
    SettlingKeepsQueues(cfg, s, t);
    forall x | 0 <= x < |t.owner| ensures HeldAsRecorded(t, x, hand) {
      assert HeldAsRecorded(s, x, hand);
    }
  }

  /** A round trip ends and leaves its connection in the hands of the acting goroutine. */
  lemma EndUseKeeps(cfg: Config, s: Pool, w: nat)
    requires InvWith(cfg, s, None) && w < |s.wants| && s.wants[w].phase == Using && s.wants[w].pc.Some?
    ensures InvWith(cfg, SetOwner(SetPhase(s, w, Done), s.wants[w].pc.value, InHand), s.wants[w].pc)
  {
    var c := s.wants[w].pc.value;
    var t := SetOwner(SetPhase(s, w, Done), c, InHand);
    assert SettledOnce(s.wants[w]);
    SettlingKeepsQueues(cfg, s, t);
    forall x | 0 <= x < |t.owner| ensures HeldAsRecorded(t, x, Some(c)) {
      assert HeldAsRecorded(s, x, None);
    }
  }

  lemma StartPutKeeps(cfg: Config, s: Pool, c: nat)
    requires InvWith(cfg, s, Some(c)) && c < |s.owner|
    ensures InvWith(cfg, StartPut(s, c), None)
  {
    var t := StartPut(s, c);
    forall x | 0 <= x < |t.owner| ensures HeldAsRecorded(t, x, None) {
      assert HeldAsRecorded(s, x, Some(c));
    }
  }

  lemma DropClosedKeeps(cfg: Config, s: Pool, c: nat)
    requires InvWith(cfg, s, Some(c)) && c < |s.owner| && s.conns[c].closed
    ensures InvWith(cfg, SetOwner(s, c, Gone), None)
  {
    var t := SetOwner(s, c, Gone);
    forall x | 0 <= x < |t.owner| ensures HeldAsRecorded(t, x, None) {
      assert HeldAsRecorded(s, x, Some(c));
    }
  }

  lemma NewRequestKeeps(cfg: Config, s: Pool, key: Key)
    requires Inv(cfg, s)
    ensures Inv(cfg, s.(wants := s.wants + [Want(key, true, None, false, false, Asking)]))
  {
    var t := s.(wants := s.wants + [Want(key, true, None, false, false, Asking)]);
    forall k ensures Load(t, k) == Load(s, k) {
      assert Permits(t.dials, t.wants, k) == Permits(s.dials, s.wants, k);
    }
    if cfg.maxConnsPerHost > 0 {
      forall k ensures Count(t.connsPerHost, k) == Load(t, k) {
        assert Load(t, k) == Load(s, k);
      }
    }
    forall x | 0 <= x < |t.owner| ensures HeldAsRecorded(t, x, None) {
      assert HeldAsRecorded(s, x, None);
    }
  }

  lemma GrantKeeps(cfg: Config, s: Pool, w: nat)
    requires Inv(cfg, s) && w < |s.wants| && cfg.maxConnsPerHost > 0
    requires Count(s.connsPerHost, s.wants[w].key) < cfg.maxConnsPerHost
    ensures CountsOk(cfg, QueueForDial(cfg, s, w))
  {
    var t := QueueForDial(cfg, s, w);
    forall k' ensures Count(t.connsPerHost, k') == Load(t, k') {
      PermitsOfStarted(s.dials, s.wants, w, k');
      assert Count(s.connsPerHost, k') == Load(s, k');
    }
    forall k' ensures Count(t.connsPerHost, k') <= cfg.maxConnsPerHost {
      assert Count(s.connsPerHost, k') <= cfg.maxConnsPerHost;
    }
  }

  lemma WaitForPermitKeeps(cfg: Config, s: Pool, w: nat)
    requires Inv(cfg, s) && w < |s.wants| && cfg.maxConnsPerHost > 0
    requires Count(s.connsPerHost, s.wants[w].key) >= cfg.maxConnsPerHost
    ensures CountsOk(cfg, QueueForDial(cfg, s, w)) && QueuesOk(QueueForDial(cfg, s, w))
  {
    var k := s.wants[w].key;
    SettledQueue(s.wants, s.connsPerHostWait, k);
    assert Count(s.connsPerHost, k) <= cfg.maxConnsPerHost;
    StoreKeyed(s.wants, s.connsPerHostWait, k, DropSettled(s.wants, Entries(s.connsPerHostWait, k)) + [w]);
    forall k' ensures Count(s.connsPerHost, k') == Load(QueueForDial(cfg, s, w), k') {
      assert Count(s.connsPerHost, k') == Load(s, k');
    }
  }

  lemma QueueForDialKeeps(cfg: Config, s: Pool, w: nat)
    requires Inv(cfg, s) && w < |s.wants|
    ensures Inv(cfg, QueueForDial(cfg, s, w))
  {
    if cfg.maxConnsPerHost > 0 {
      if Count(s.connsPerHost, s.wants[w].key) < cfg.maxConnsPerHost {
        GrantKeeps(cfg, s, w);
      } else {
        WaitForPermitKeeps(cfg, s, w);
      }
    }
    QueueForDialOwned(cfg, s, w);
  }

  lemma QueueForDialOwned(cfg: Config, s: Pool, w: nat)
    requires Shape(s) && Owned(s, None) && w < |s.wants|
    ensures Shape(QueueForDial(cfg, s, w)) && Owned(QueueForDial(cfg, s, w), None)
  {
    QueueForDialFrame(cfg, s, w);
    CountsFrame(s, QueueForDial(cfg, s, w));
  }

  lemma QueueForDialFrame(cfg: Config, s: Pool, w: nat)
    requires w < |s.wants|
    ensures var t := QueueForDial(cfg, s, w);
      && OnlyCounts(s, t) && t.conns == s.conns && (t.dials == s.dials || t.dials == s.dials + [Start(w)])
  {
    var t := QueueForDial(cfg, s, w);
    assert t == s.(connsPerHost := t.connsPerHost, connsPerHostWait := t.connsPerHostWait, dials := t.dials);
    assert t.dials == s.dials || t.dials == s.dials + [Start(w)];
    CountsOnly(s, t);
  }

  lemma CountsOnly(s: Pool, t: Pool)
    requires t == s.(connsPerHost := t.connsPerHost, connsPerHostWait := t.connsPerHostWait, dials := t.dials)
    requires s.dials <= t.dials && forall d :: |s.dials| <= d < |t.dials| ==> t.dials[d].Start?
    ensures OnlyCounts(s, t) && t.conns == s.conns
  {
  }

  lemma CountsFrame(s: Pool, t: Pool)
    requires Shape(s) && Owned(s, None) && OnlyCounts(s, t) && t.conns == s.conns
      && DialRefs(t.dials, |s.wants|, |s.conns|)
    ensures Shape(t) && Owned(t, None)
  {
    OwnedFrame(s, t, None);
  }

  // ---- dialConnFor ----

  lemma DialBeginKeeps(cfg: Config, s: Pool, d: nat)
    requires Inv(cfg, s) && d < |s.dials| && s.dials[d].Start?
    ensures Inv(cfg, DoDialBegin(s, d))
  {
    var t := DoDialBegin(s, d);
    DialStateKeeps(cfg, s, d, t.dials[d]);
  }

  /** A dial goroutine that keeps its permit and holds no connection before or after. */
  lemma DialStateKeeps(cfg: Config, s: Pool, d: nat, dial: Dial)
    requires InvWith(cfg, s, None) && d < |s.dials| && dial.w == s.dials[d].w
    requires HoldsPermit(s.dials[d]) && HoldsPermit(dial)
    ensures InvWith(cfg, SetDial(s, d, dial), None)
  {
    var t := SetDial(s, d, dial);
    if cfg.maxConnsPerHost > 0 {
      forall k ensures Count(t.connsPerHost, k) == Load(t, k) {
        assert Permits(t.dials, t.wants, k) == Permits(s.dials, s.wants, k);
        assert Count(s.connsPerHost, k) == Load(s, k);
      }
    }
    forall x | 0 <= x < |t.owner| ensures HeldAsRecorded(t, x, None) {
      assert HeldAsRecorded(s, x, None);
    }
  }

  lemma NewConnLoad(s: Pool, d: nat, k: Key)
    requires Shape(s) && d < |s.dials| && s.dials[d].Dialing?
    ensures Load(DoDialOk(s, d), k) == Load(s, k)
  {
    var t := DoDialOk(s, d);
    if s.wants[s.dials[d].w].key == k {
      assert Permits(s.dials, s.wants, k) == Permits(t.dials, t.wants, k) + {d};
      assert OpenConns(t.conns, k) == OpenConns(s.conns, k) + {|s.conns|};
    } else {
      assert Permits(s.dials, s.wants, k) == Permits(t.dials, t.wants, k);
      assert OpenConns(t.conns, k) == OpenConns(s.conns, k);
    }
  }

  lemma DialOkKeeps(cfg: Config, s: Pool, d: nat)
    requires Inv(cfg, s) && d < |s.dials| && s.dials[d].Dialing?
    ensures Inv(cfg, DoDialOk(s, d))
  {
    var t := DoDialOk(s, d);
    if cfg.maxConnsPerHost > 0 {
      forall k ensures Count(t.connsPerHost, k) == Load(t, k) {
        NewConnLoad(s, d, k);
        assert Count(s.connsPerHost, k) == Load(s, k);
      }
    }
    forall x | 0 <= x < |t.owner| ensures HeldAsRecorded(t, x, None) {
      if x < |s.owner| { assert HeldAsRecorded(s, x, None); }
    }
  }

  lemma DialErrKeeps(cfg: Config, s: Pool, d: nat)
    requires Inv(cfg, s) && d < |s.dials| && s.dials[d].Dialing?
    ensures Inv(cfg, DoDialErr(s, d))
  {
    DeliverErrorKeeps(cfg, s, s.dials[d].w, None);
    DialStateKeeps(cfg, DeliverError(s, s.dials[d].w), d, Failing(s.dials[d].w));
  }

  /** The dial goroutine ends and its connection is in the hands of the section. */
  lemma DialEndsKeeps(cfg: Config, s: Pool, d: nat)
    requires InvWith(cfg, s, None) && d < |s.dials| && s.dials[d].Dialed?
    ensures InvWith(cfg, SetOwner(SetDial(s, d, Finished(s.dials[d].w)), s.dials[d].c, InHand), Some(s.dials[d].c))
  {
    var c := s.dials[d].c;
    var t := SetOwner(SetDial(s, d, Finished(s.dials[d].w)), c, InHand);
    if cfg.maxConnsPerHost > 0 {
      forall k ensures Count(t.connsPerHost, k) == Load(t, k) {
        assert Permits(t.dials, t.wants, k) == Permits(s.dials, s.wants, k);
        assert Count(s.connsPerHost, k) == Load(s, k);
      }
    }
    forall x | 0 <= x < |t.owner| ensures HeldAsRecorded(t, x, Some(c)) {
      assert HeldAsRecorded(s, x, None);
    }
  }

  lemma DialDeliverKeeps(cfg: Config, s: Pool, d: nat)
    requires Inv(cfg, s) && d < |s.dials| && s.dials[d].Dialed?
    ensures Inv(cfg, DoDialDeliver(s, d))
  {
    var w, c := s.dials[d].w, s.dials[d].c;
    var t := SetDial(s, d, Finished(w));
    DialEndsKeeps(cfg, s, d);
    if Accepts(s.wants, w) {
      DeliverKeeps(cfg, SetOwner(t, c, InHand), w, c);
      DeliverOverwritesOwner(t, w, c, InHand);
    } else {
      StartPutKeeps(cfg, SetOwner(t, c, InHand), c);
      assert t.owner[c := InHand][c := ByPut(|t.puts|)] == t.owner[c := ByPut(|t.puts|)];
    }
  }

  lemma PermitsOfFailed(dials: seq<Dial>, wants: seq<Want>, d: nat, k: Key)
    requires d < |dials| && dials[d].Failing? && dials[d].w < |wants|
    ensures |Permits(dials, wants, k)| ==
      |Permits(dials[d := Finished(dials[d].w)], wants, k)| + if k == wants[dials[d].w].key then 1 else 0
  {
    var after := Permits(dials[d := Finished(dials[d].w)], wants, k);
    if k == wants[dials[d].w].key {
      assert Permits(dials, wants, k) == after + {d};
    } else {
      assert Permits(dials, wants, k) == after;
    }
  }

  lemma DialGiveBackKeeps(cfg: Config, s: Pool, d: nat)
    requires Inv(cfg, s) && d < |s.dials| && s.dials[d].Failing?
    ensures Inv(cfg, DoDialGiveBack(cfg, s, d))
  {
    var k := s.wants[s.dials[d].w].key;
    var t := SetDial(s, d, Finished(s.dials[d].w));
    DecShape(cfg, t, k);
    DecFrame(cfg, t, k);
    if cfg.maxConnsPerHost > 0 {
      forall k' ensures Count(t.connsPerHost, k') == Load(t, k') + if k' == k then 1 else 0 {
        assert Count(s.connsPerHost, k') == Load(s, k');
        PermitsOfFailed(s.dials, s.wants, d, k');
      }
      GivenBackKeeps(cfg, t, k);
    }
    assert Owned(t, None) by {
      forall x | 0 <= x < |t.owner| ensures HeldAsRecorded(t, x, None) {
        assert HeldAsRecorded(s, x, None);
      }
    }
    OwnedFrame(t, DecConnsPerHost(cfg, t, k), None);
  }

  // ---- putOrCloseIdleConn ----

  /** A putting goroutine ends and its connection is in the hands of the section. */
  lemma PutEndsKeeps(cfg: Config, s: Pool, p: nat)
    requires InvWith(cfg, s, None) && p < |s.puts| && s.puts[p].stage != Over
    ensures InvWith(cfg, SetStage(s, p, Over, InHand), Some(s.puts[p].c))
  {
    var c := s.puts[p].c;
    var t := SetStage(s, p, Over, InHand);
    forall x | 0 <= x < |t.owner| ensures HeldAsRecorded(t, x, Some(c)) {
      assert HeldAsRecorded(s, x, None);
    }
  }

  lemma PutResumesKeeps(cfg: Config, s: Pool, p: nat, stage: Stage)
    requires p < |s.puts| && stage != Over && s.puts[p].stage == Over && InvWith(cfg, s, Some(s.puts[p].c))
    ensures InvWith(cfg, SetStage(s, p, stage, ByPut(p)), None)
  {
    var c := s.puts[p].c;
    var t := SetStage(s, p, stage, ByPut(p));
    forall x | 0 <= x < |t.owner| ensures HeldAsRecorded(t, x, None) {
      assert HeldAsRecorded(s, x, Some(c));
    }
  }

  lemma PutCheckKeeps(cfg: Config, s: Pool, p: nat)
    requires Inv(cfg, s) && p < |s.puts| && s.puts[p].stage == Checking
    ensures Inv(cfg, DoPutCheck(cfg, s, p))
  {
    var t := DoPutCheck(cfg, s, p);
    forall x | 0 <= x < |t.owner| ensures HeldAsRecorded(t, x, None) {
      assert HeldAsRecorded(s, x, None);
    }
  }

  lemma PutInsertKeeps(cfg: Config, s: Pool, p: nat)
    requires Inv(cfg, s) && p < |s.puts| && s.puts[p].stage == Inserting
    ensures Inv(cfg, DoPutInsert(cfg, s, p))
  {
    var s1 := SetStage(s, p, Over, InHand);
    PutEndsKeeps(cfg, s, p);
    TryPutIdleKeeps(cfg, s1, s.puts[p].c);
    if !TryPutIdle(cfg, s1, s.puts[p].c).1 { PutRefusedKeeps(cfg, s, p); }
  }

  lemma PutRefusedKeeps(cfg: Config, s: Pool, p: nat)
    requires p < |s.puts| && s.puts[p].stage == Inserting && s.puts[p].c < |s.conns| && |s.owner| == |s.conns|
    requires Below(s.idleLRU, |s.conns|)
    requires var s1 := SetStage(s, p, Over, InHand); var (t, ok) := TryPutIdle(cfg, s1, s.puts[p].c);
      !ok && InvWith(cfg, t, Some(s.puts[p].c)) && GlobalCap(cfg, t)
    ensures Inv(cfg, DoPutInsert(cfg, s, p))
  {
    var c := s.puts[p].c;
    var s1 := SetStage(s, p, Over, InHand);
    var t := TryPutIdle(cfg, s1, c).0;
    assert t == AfterPops(s1, s1.conns[c].key);
    PutResumesKeeps(cfg, t, p, Closing);
    assert t.puts[p := Put(c, Closing)] == s.puts[p := Put(c, Closing)];
  }

  lemma PutCloseKeeps(cfg: Config, s: Pool, p: nat)
    requires Inv(cfg, s) && p < |s.puts| && s.puts[p].stage == Closing
    ensures Inv(cfg, DoPutClose(cfg, s, p))
  {
    var c := s.puts[p].c;
    var t := CloseConn(cfg, s, c);
    CloseConnKeeps(cfg, s, c, None);
    CloseConnFrame(cfg, s, c);
    PutEndsKeeps(cfg, t, p);
    DropClosedKeeps(cfg, SetStage(t, p, Over, InHand), c);
    assert s.owner[c := InHand][c := Gone] == s.owner[c := Gone];
  }

  // ---- CloseIdleConnections ----

  lemma CloseIdleOwner(s: Pool, listed: seq<nat>, c: nat)
    requires Shape(s) && Owned(s, None) && Enumerates(listed, s) && c < |s.owner|
    ensures var t := CloseIdleSection(s, listed);
      && HeldAsRecorded(t, c, None)
      && (s.owner[c] == Idle <==> c in listed)
      && (s.owner[c] !in {Idle, LeftBehind} ==> t.owner[c] == s.owner[c])
  {
    assert HeldAsRecorded(s, c, None);
    var t := CloseIdleSection(s, listed);
    if c in listed {
      assert s.owner[c] == Idle by {
        var k := s.conns[c].key;
        var i :| 0 <= i < |s.idleConn[k]| && s.idleConn[k][i] == c;
      }
      assert t.puts[|s.puts| + IndexOf(listed, c)] == Put(c, Closing);
    }
  }

  lemma CloseIdlePuts(s: Pool, listed: seq<nat>)
    requires Shape(s) && Owned(s, None) && Enumerates(listed, s)
    ensures var t := CloseIdleSection(s, listed); PutRefs(t.puts, |t.owner|) && PutsOwn(t.puts, t.owner)
  {
    var t := CloseIdleSection(s, listed);
    forall p | 0 <= p < |t.puts|
      ensures t.puts[p].c < |t.owner| && (t.puts[p].stage != Over ==> t.owner[t.puts[p].c] == ByPut(p))
    {
      if p < |s.puts| {
        assert t.puts[p] == s.puts[p];
        CloseIdleOwner(s, listed, s.puts[p].c);
      } else {
        var i := p - |s.puts|;
        assert t.puts[p] == Put(listed[i], Closing) && listed[i] in listed;
        assert IndexOf(listed, listed[i]) == i;
      }
    }
  }

  lemma CloseIdleOwned(s: Pool, listed: seq<nat>)
    requires Shape(s) && Owned(s, None) && Enumerates(listed, s)
    ensures Shape(CloseIdleSection(s, listed)) && Owned(CloseIdleSection(s, listed), None)
  {
    var t := CloseIdleSection(s, listed);
    CloseIdlePuts(s, listed);
    forall c | 0 <= c < |s.owner|
      ensures HeldAsRecorded(t, c, None)
      ensures s.owner[c] !in {Idle, LeftBehind} ==> t.owner[c] == s.owner[c]
    {
      CloseIdleOwner(s, listed, c);
    }
  }

  lemma CloseIdleKeeps(cfg: Config, s: Pool, listed: seq<nat>)
    requires Inv(cfg, s) && Enumerates(listed, s)
    ensures Inv(cfg, CloseIdleSection(s, listed))
  {
    CloseIdleOwned(s, listed);
  }

  // ---- every step, every run ----

  lemma AskIdleKeeps(cfg: Config, s: Pool, w: nat, aged: set<nat>)
    requires Inv(cfg, s) && w < |s.wants| && s.wants[w].phase == Asking
    ensures Inv(cfg, DoAskIdle(cfg, s, w, aged))
  {
    QueueForIdleKeeps(cfg, s, w, aged);
    var (t, delivered) := QueueForIdle(cfg, s, w, aged);
    AskerStays(cfg, s, w, aged);
    PhaseKeeps(cfg, t, w, if delivered then Using else Missed, None);
  }

  lemma GiveBackKeeps(cfg: Config, s: Pool, w: nat)
    requires Inv(cfg, s) && w < |s.wants| && s.wants[w].phase == Using && s.wants[w].pc.Some?
    ensures Inv(cfg, StartPut(SetPhase(s, w, Done), s.wants[w].pc.value))
  {
    var c := s.wants[w].pc.value;
    var t := SetPhase(s, w, Done);
    EndUseKeeps(cfg, s, w);
    StartPutKeeps(cfg, SetOwner(t, c, InHand), c);
    assert t.owner[c := InHand][c := ByPut(|t.puts|)] == t.owner[c := ByPut(|t.puts|)];
  }

  lemma RequestFailsKeeps(cfg: Config, s: Pool, w: nat)
    requires Inv(cfg, s) && w < |s.wants| && s.wants[w].phase == Using && s.wants[w].pc.Some?
    requires s.conns[s.wants[w].pc.value].closed
    ensures Inv(cfg, SetOwner(SetPhase(s, w, Done), s.wants[w].pc.value, Gone))
  {
    var c := s.wants[w].pc.value;
    var t := SetPhase(s, w, Done);
    EndUseKeeps(cfg, s, w);
    DropClosedKeeps(cfg, SetOwner(t, c, InHand), c);
    assert t.owner[c := InHand][c := Gone] == t.owner[c := Gone];
  }

  lemma CancelStepKeeps(cfg: Config, s: Pool, w: nat)
    requires Inv(cfg, s) && w < |s.wants| && s.wants[w].phase == Waiting
    ensures Inv(cfg, DoCancel(s, w))
    ensures s.wants[w].ready ==> Inv(cfg, DoTakeResult(s, w))
  {
    CancelKeeps(cfg, s, w);
    if s.wants[w].pc.Some? {
      StartPutKeeps(cfg, CancelAndEnd(s, w), s.wants[w].pc.value);
      PhaseKeeps(cfg, s, w, Using, None);
    }
  }

  lemma AskDialKeeps(cfg: Config, s: Pool, w: nat)
    requires Inv(cfg, s) && w < |s.wants| && s.wants[w].phase == Missed
    ensures Inv(cfg, QueueForDial(cfg, SetPhase(s, w, Waiting), w))
  {
    PhaseKeeps(cfg, s, w, Waiting, None);
    QueueForDialKeeps(cfg, SetPhase(s, w, Waiting), w);
  }

  lemma RequestStepKeeps(cfg: Config, s: Pool, e: Event)
    requires Inv(cfg, s) && Enabled(s, e)
    requires OfRequest(e)
    ensures Inv(cfg, Step(cfg, s, e))
  {
    match e
    case NewRequest(key) => NewRequestKeeps(cfg, s, key);
    case AskIdle(w, aged) => AskIdleKeeps(cfg, s, w, aged);
    case AskDial(w) => AskDialKeeps(cfg, s, w);
    case TakeResult(w) => CancelStepKeeps(cfg, s, w);
    case CancelRequest(w) => CancelStepKeeps(cfg, s, w);
    case GiveBack(w) => GiveBackKeeps(cfg, s, w);
    case RequestFails(w) => RequestFailsKeeps(cfg, s, w);
  }

  lemma AskerStays(cfg: Config, s: Pool, w: nat, aged: set<nat>)
    requires Inv(cfg, s) && w < |s.wants|
    ensures QueueForIdle(cfg, s, w, aged).0.wants[w].phase == s.wants[w].phase
  {
  }

  lemma DialStepKeeps(cfg: Config, s: Pool, e: Event)
    requires Inv(cfg, s) && Enabled(s, e)
    requires e.DialBegin? || e.DialOk? || e.DialErr? || e.DialDeliver? || e.DialGiveBack?
    ensures Inv(cfg, Step(cfg, s, e))
  {
    match e
    case DialBegin(d) => DialBeginKeeps(cfg, s, d);
    case DialOk(d) => DialOkKeeps(cfg, s, d);
    case DialErr(d) => DialErrKeeps(cfg, s, d);
    case DialDeliver(d) => DialDeliverKeeps(cfg, s, d);
    case DialGiveBack(d) => DialGiveBackKeeps(cfg, s, d);
  }

  lemma StaleKeeps(cfg: Config, s: Pool, c: nat)
    requires Inv(cfg, s) && c < |s.conns|
    ensures Inv(cfg, DoStale(cfg, s, c))
  {
    var t := CloseIfStillIdle(cfg, s, c);
    CloseIfStillIdleKeeps(cfg, s, c);
    var t' := DoStale(cfg, s, c);
    forall x | 0 <= x < |t'.owner| ensures HeldAsRecorded(t', x, None) {
      assert HeldAsRecorded(t, x, None);
    }
  }

  lemma PutStepKeeps(cfg: Config, s: Pool, e: Event)
    requires Inv(cfg, s) && Enabled(s, e) && (e.PutCheck? || e.PutInsert? || e.PutClose?)
    ensures Inv(cfg, Step(cfg, s, e))
  {
    match e
    case PutCheck(p) => PutCheckKeeps(cfg, s, p);
    case PutInsert(p) => PutInsertKeeps(cfg, s, p);
    case PutClose(p) => PutCloseKeeps(cfg, s, p);
  }

  lemma BreakKeeps(cfg: Config, s: Pool, c: nat)
    requires Inv(cfg, s) && c < |s.conns|
    ensures Inv(cfg, CloseConn(cfg, s, c))
  {
    CloseConnKeeps(cfg, s, c, None);
    CloseConnFrame(cfg, s, c);
  }

  lemma ReadLoopExitKeeps(cfg: Config, s: Pool, c: nat)
    requires Inv(cfg, s) && c < |s.conns| && s.conns[c].closed
    ensures Inv(cfg, RemoveIdle(s, c))
  {
    RemoveIdleKeeps(cfg, s, c, None);
    WithoutMembers(s.idleLRU, c);
  }

  lemma PoolStepKeeps(cfg: Config, s: Pool, e: Event)
    requires Inv(cfg, s) && Enabled(s, e)
    requires e.Break? || e.ReadLoopExit? || e.TimerFires? || e.StaleFires? || e.CloseIdle?
    ensures Inv(cfg, Step(cfg, s, e))
  {
    match e
    case Break(c) => BreakKeeps(cfg, s, c);
    case ReadLoopExit(c) => ReadLoopExitKeeps(cfg, s, c);
    case TimerFires(c) => CloseIfStillIdleKeeps(cfg, s, c);
    case StaleFires(c) => StaleKeeps(cfg, s, c);
    case CloseIdle(listed) => CloseIdleKeeps(cfg, s, listed);
  }

  /** The invariant is inductive: no section of any goroutine breaks it. */
  lemma StepKeeps(cfg: Config, s: Pool, e: Event)
    requires Inv(cfg, s)
    ensures Inv(cfg, Step(cfg, s, e))
  {
    if Enabled(s, e) {
      if OfRequest(e) {
        RequestStepKeeps(cfg, s, e);
      } else if e.DialBegin? || e.DialOk? || e.DialErr? || e.DialDeliver? || e.DialGiveBack? {
        DialStepKeeps(cfg, s, e);
      } else if e.PutCheck? || e.PutInsert? || e.PutClose? {
        PutStepKeeps(cfg, s, e);
      } else {
        PoolStepKeeps(cfg, s, e);
      }
    }
  }

  /** The pool after a run of a fresh Transport; every reachable pool is one of these. */
  ghost function Run(cfg: Config, events: seq<Event>): (t: Pool) {
    if events == [] then EMPTY_POOL
    else Step(cfg, Run(cfg, events[..|events| - 1]), events[|events| - 1])
  }

  /** The invariant holds in every reachable pool; in particular no panic or log.Fatalf is ever reached. */
  lemma {:induction false} RunKeeps(cfg: Config, events: seq<Event>)
    ensures Inv(cfg, Run(cfg, events))
  {
    if events != [] {
      var n := |events| - 1;
      RunKeeps(cfg, events[..n]);
      StepKeeps(cfg, Run(cfg, events[..n]), events[n]);
    }
  }
}
