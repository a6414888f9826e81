/**
  The state of the HTTP/1 connection pool and its lock-protected sections, as
  functions on values (http/transport.go).

  `wantConn`, `persistConn` and goroutine objects live in arenas (sequences);
  an object is named by its index. `Owner` records, for every connection, which
  of those places is responsible for it; it is never read by a section.
 */
module PoolState {
  import opened Options

  /** connectMethodKey */
  datatype Key = Key(proxy: string, scheme: string, addr: string, onlyH1: bool)

  /** The Transport fields that stay fixed during a run; `idleTimeout` is "IdleConnTimeout > 0". */
  datatype Config = Config(
    disableKeepAlives: bool, maxIdleConns: int, maxIdleConnsPerHost: int, maxConnsPerHost: int, idleTimeout: bool)
  {
    /** maxIdleConnsPerHost(): zero stands for DefaultMaxIdleConnsPerHost. */
    function IdlePerHost(): (n: int) {
      if maxIdleConnsPerHost != 0 then maxIdleConnsPerHost else 2
    }
  }

  /** Where the getConn goroutine of a wantConn stands. */
  datatype Phase = Asking | Missed | Waiting | Using | Done

  /** wantConn: `ctx` is "ctx != nil", `err` is "err != nil", `ready` is "the channel is closed". */
  datatype Want = Want(key: Key, ctx: bool, pc: Option<nat>, err: bool, ready: bool, phase: Phase)

  /** persistConn: `closed` is "closed != nil". */
  datatype Conn = Conn(key: Key, closed: bool)

  /** A dialConnFor goroutine. Abandoned is one that returned at the nil-context test. */
  datatype Dial =
    | Start(w: nat)
    | Dialing(w: nat)
    | Dialed(w: nat, c: nat)
    | Failing(w: nat)
    | Abandoned(w: nat)
    | Finished(w: nat)

  datatype Stage = Checking | Inserting | Closing | Over

  /** One call of putOrCloseIdleConn, or one pending close of CloseIdleConnections (which begins at Closing). */
  datatype Put = Put(c: nat, stage: Stage)

  /**
    Who is responsible for a connection. InHand: the goroutine executing the
    current section. LeftBehind: dropped from its idle list but still in the LRU.
    Orphan: open, and in no list, LRU, wantConn or goroutine. Gone: closed.
   */
  datatype Owner =
    | ByDial(d: nat)
    | ByWant(w: nat)
    | ByPut(p: nat)
    | Idle
    | InHand
    | LeftBehind
    | Orphan
    | Gone

  datatype Pool = Pool(
    idleConn: map<Key, seq<nat>>,
    idleLRU: seq<nat>,                 // front (newest) first
    idleConnWait: map<Key, seq<nat>>,
    closeIdle: bool,
    connsPerHost: map<Key, int>,
    connsPerHostWait: map<Key, seq<nat>>,
    wants: seq<Want>,
    conns: seq<Conn>,
    dials: seq<Dial>,
    puts: seq<Put>,
    stale: set<nat>,                   // connections with a closeConnIfStillIdle goroutine pending
    owner: seq<Owner>,
    fault: bool)                       // some panic or log.Fatalf was reached

  const EMPTY_POOL := Pool(map[], [], map[], false, map[], map[], [], [], [], [], {}, [], false)

  // ---- queues and lists ----

  function Entries(m: map<Key, seq<nat>>, k: Key): (list: seq<nat>) {
    if k in m then m[k] else []
  }

  function Count(m: map<Key, int>, k: Key): (n: int) {
    if k in m then m[k] else 0
  }

  /** m[k] = q, or delete(m, k) when q is empty. */
  function Store(m: map<Key, seq<nat>>, k: Key, q: seq<nat>): (entries: map<Key, seq<nat>>) {
    if q == [] then m - {k} else m[k := q]
  }

  predicate IsWaiting(wants: seq<Want>, w: nat) {
    w < |wants| && !wants[w].ready
  }

  /** The first result of tryDeliver: nothing was delivered before. */
  predicate Accepts(wants: seq<Want>, w: nat) {
    w < |wants| && wants[w].pc == None && !wants[w].err
  }

  /** cleanFront: drop the maximal prefix of entries that no longer wait. */
  function DropSettled(wants: seq<Want>, q: seq<nat>): (list: seq<nat>) {
    if q == [] || IsWaiting(wants, q[0]) then q else DropSettled(wants, q[1..])
  }

  /** The queue as the delivery loop of tryPutIdleConn leaves it just before a delivery succeeds. */
  function DropTaken(wants: seq<Want>, q: seq<nat>): (rest: seq<nat>)
    ensures rest != [] ==> Accepts(wants, rest[0])
  {
    if q == [] || Accepts(wants, q[0]) then q else DropTaken(wants, q[1..])
  }

  /** A list without the first occurrence of c. */
  function Without(s: seq<nat>, c: nat): (list: seq<nat>) {
    if s == [] then [] else if s[0] == c then s[1..] else [s[0]] + Without(s[1..], c)
  }

  /** The idle list with the broken and too old connections at its end dropped. */
  function UsablePrefix(conns: seq<Conn>, tooOld: set<nat>, list: seq<nat>): (all: seq<nat>) {
    if list == [] then []
    else
      var c := list[|list| - 1];
      if (c < |conns| && conns[c].closed) || c in tooOld then UsablePrefix(conns, tooOld, list[..|list| - 1])
      else list
  }

  // ---- sections that touch one object ----

  /** tryDeliver(c, nil) on a wantConn that accepts it. */
  function Deliver(s: Pool, w: nat, c: nat): (t: Pool)
    requires w < |s.wants| && c < |s.owner|
  {
    s.(wants := s.wants[w := s.wants[w].(ctx := false, pc := Some(c), ready := true)],
       owner := s.owner[c := ByWant(w)],
       fault := s.fault || s.wants[w].ready)
  }

  /** tryDeliver(nil, err). */
  function DeliverError(s: Pool, w: nat): (t: Pool)
    requires w < |s.wants|
  {
    if !Accepts(s.wants, w) then s
    else s.(wants := s.wants[w := s.wants[w].(ctx := false, err := true, ready := true)],
            fault := s.fault || s.wants[w].ready)
  }

  /** wantConn.cancel up to its unlock; the result is the connection to give back. */
  function CancelWant(s: Pool, w: nat): (r: (Pool, Option<nat>))
    requires w < |s.wants|
  {
    var want := s.wants[w];
    var closes := want.pc == None && !want.err;
    var s1 := s.(wants := s.wants[w := want.(ctx := false, pc := None, err := true, ready := true)],
                 fault := s.fault || (closes && want.ready));
    (if want.pc.Some? && want.pc.value < |s.owner|
     then s1.(owner := s.owner[want.pc.value := InHand]) else s1, want.pc)
  }

  function SetOwner(s: Pool, c: nat, o: Owner): (t: Pool)
    requires c < |s.owner|
  {
    s.(owner := s.owner[c := o])
  }

  // ---- sections under connsPerHostMu ----

  /** decConnsPerHost: hand the count to the first request still waiting for one, or give it up. */
  function DecConnsPerHost(cfg: Config, s: Pool, k: Key): (t: Pool) {
    var n := Count(s.connsPerHost, k);
    var full := Entries(s.connsPerHostWait, k);
    var q := DropSettled(s.wants, full);
    if cfg.maxConnsPerHost <= 0 then s
    else if n == 0 then s.(fault := true)
    else s.(
      connsPerHostWait := if full == [] then s.connsPerHostWait
                          else Store(s.connsPerHostWait, k, if q == [] then [] else q[1..]),
      dials := if q == [] then s.dials else s.dials + [Start(q[0])],
      connsPerHost := if q != [] then s.connsPerHost else if n == 1 then s.connsPerHost - {k}
        else s.connsPerHost[k := n - 1])
  }

  /** queueForDial */
  function QueueForDial(cfg: Config, s: Pool, w: nat): (t: Pool)
    requires w < |s.wants|
  {
    var k := s.wants[w].key;
    var n := Count(s.connsPerHost, k);
    if cfg.maxConnsPerHost <= 0 then s.(dials := s.dials + [Start(w)])
    else if n < cfg.maxConnsPerHost then
      s.(connsPerHost := s.connsPerHost[k := n + 1], dials := s.dials + [Start(w)])
    else
      s.(connsPerHostWait :=
        s.connsPerHostWait[k := DropSettled(s.wants, Entries(s.connsPerHostWait, k)) + [w]])
  }

  /** persistConn.close, that is closeLocked. */
  function CloseConn(cfg: Config, s: Pool, c: nat): (t: Pool)
    requires c < |s.conns|
    ensures t.owner == s.owner && |t.conns| == |s.conns|
  {
    if s.conns[c].closed then s
    else DecConnsPerHost(cfg, s.(conns := s.conns[c := s.conns[c].(closed := true)]), s.conns[c].key)
  }

  // ---- sections under idleMu ----

  /** removeIdleConnLocked. A connection taken off the LRU here is closed or about to be. */
  function RemoveIdle(s: Pool, c: nat): (t: Pool)
    requires c < |s.conns| && c < |s.owner|
  {
    var k := s.conns[c].key;
    s.(idleLRU := Without(s.idleLRU, c),
       idleConn := if c in Entries(s.idleConn, k) then Store(s.idleConn, k, Without(s.idleConn[k], c)) else s.idleConn,
       owner := if s.owner[c] in {Idle, LeftBehind} then s.owner[c := Gone] else s.owner)
  }

  /** What tryPutIdleConn does when it did not deliver: append to the list and the LRU. */
  function Insert(s: Pool, c: nat): (t: Pool)
    requires c < |s.conns| && c < |s.owner|
  {
    var k := s.conns[c].key;
    var idles := Entries(s.idleConn, k);
    s.(idleConn := s.idleConn[k := idles + [c]],
       idleLRU := [c] + s.idleLRU,
       owner := s.owner[c := Idle],
       fault := s.fault || c in idles || c in s.idleLRU)
  }

  /** The global cap: drop and close the oldest LRU entry when there are too many. */
  function Evict(cfg: Config, s: Pool): (t: Pool)
    requires forall i :: 0 <= i < |s.idleLRU| ==> s.idleLRU[i] < |s.conns|
    requires |s.owner| == |s.conns|
    ensures |t.owner| == |s.owner|
  {
    if cfg.maxIdleConns == 0 || |s.idleLRU| <= cfg.maxIdleConns || s.idleLRU == [] then s
    else
      var oldest := s.idleLRU[|s.idleLRU| - 1];
      RemoveIdle(CloseConn(cfg, s.(idleLRU := s.idleLRU[..|s.idleLRU| - 1]), oldest), oldest)
  }

  /** The pool after the delivery loop of tryPutIdleConn popped what it pops. */
  function AfterPops(s: Pool, k: Key): (t: Pool) {
    var rest := DropTaken(s.wants, Entries(s.idleConnWait, k));
    if k !in s.idleConnWait then s
    else s.(idleConnWait := Store(s.idleConnWait, k, if rest == [] then [] else rest[1..]))
  }

  /** tryPutIdleConn from the point where it takes idleMu; false is any of its errors. */
  function TryPutIdle(cfg: Config, s: Pool, c: nat): (r: (Pool, bool))
    requires c < |s.conns| && |s.owner| == |s.conns|
    requires forall i :: 0 <= i < |s.idleLRU| ==> s.idleLRU[i] < |s.conns|
    ensures |r.0.owner| == |s.owner|
  {
    var k := s.conns[c].key;
    var rest := DropTaken(s.wants, Entries(s.idleConnWait, k));
    var s1 := AfterPops(s, k);
    if rest != [] then (Deliver(s1, rest[0], c), true)
    else if s1.closeIdle || |Entries(s1.idleConn, k)| >= cfg.IdlePerHost() then (s1, false)
    else (Evict(cfg, Insert(s1, c)), true)
  }

  /** What the clock finds idle for too long; without a timeout nothing is. */
  function TooOld(cfg: Config, aged: set<nat>): (found: set<nat>) {
    if cfg.idleTimeout then aged else {}
  }

  /** The search loop of queueForIdleConn: the unusable end of the list of k is dropped. */
  function Searched(s: Pool, k: Key, tooOld: set<nat>): (t: Pool) {
    var full := Entries(s.idleConn, k);
    var list := UsablePrefix(s.conns, tooOld, full);
    UsablePrefixIsPrefix(s.conns, tooOld, full);
    DropIdle(s.(closeIdle := false), k, list, full[|list|..], tooOld)
  }

  /** The newest connection of a searched list is offered to w. */
  function Offer(s: Pool, w: nat, k: Key, list: seq<nat>): (r: (Pool, bool))
    requires w < |s.wants| && list != [] && list[|list| - 1] < |s.owner|
  {
    var c := list[|list| - 1];
    if Accepts(s.wants, w) then
      (Deliver(s.(idleLRU := Without(s.idleLRU, c), idleConn := Store(s.idleConn, k, list[..|list| - 1])), w, c), true)
    else (s, false)
  }

  /** w registers for the next connection that becomes idle. */
  function Enlist(s: Pool, w: nat): (t: Pool)
    requires w < |s.wants|
  {
    var k := s.wants[w].key;
    s.(idleConnWait := s.idleConnWait[k := DropSettled(s.wants, Entries(s.idleConnWait, k)) + [w]])
  }

  /** queueForIdleConn; `aged` is the set of connections that its clock reading finds idle for longer than
      the timeout. */
  function QueueForIdle(cfg: Config, s: Pool, w: nat, aged: set<nat>): (r: (Pool, bool))
    requires w < |s.wants| && |s.owner| == |s.conns|
    requires forall k, i :: k in s.idleConn && 0 <= i < |s.idleConn[k]| ==> s.idleConn[k][i] < |s.conns|
    ensures |r.0.wants| == |s.wants|
  {
    if cfg.disableKeepAlives then (s, false)
    else
      var k := s.wants[w].key;
      var list := UsablePrefix(s.conns, TooOld(cfg, aged), Entries(s.idleConn, k));
      UsablePrefixIsPrefix(s.conns, TooOld(cfg, aged), Entries(s.idleConn, k));
      var s1 := Searched(s, k, TooOld(cfg, aged));
      if list == [] then (Enlist(s1, w), false) else Offer(s1, w, k, list)
  }

  /** The connections in `dropped` leave their list; the too old ones get a closeConnIfStillIdle goroutine. */
  function DropIdle(s: Pool, k: Key, list: seq<nat>, dropped: seq<nat>, tooOld: set<nat>): (t: Pool) {
    s.(idleConn := Store(s.idleConn, k, list),
       stale := s.stale + (set c | c in dropped && c in tooOld),
       owner := seq(|s.owner|, i requires 0 <= i < |s.owner| => if i in dropped then LeftBehind else s.owner[i]))
  }

  lemma {:induction false} UsablePrefixIsPrefix(conns: seq<Conn>, tooOld: set<nat>, list: seq<nat>)
    ensures UsablePrefix(conns, tooOld, list) <= list
    ensures forall i :: |UsablePrefix(conns, tooOld, list)| <= i < |list| ==>
      (list[i] < |conns| && conns[list[i]].closed) || list[i] in tooOld
    decreases |list|
  {
    if list != [] {
      UsablePrefixIsPrefix(conns, tooOld, list[..|list| - 1]);
    }
  }

  /** closeConnIfStillIdle */
  function CloseIfStillIdle(cfg: Config, s: Pool, c: nat): (t: Pool)
    requires c < |s.conns| && |s.owner| == |s.conns|
  {
    if c !in s.idleLRU then s else CloseConn(cfg, RemoveIdle(s, c), c)
  }

  /** The section of CloseIdleConnections under idleMu; the listed connections become pending closes. */
  function CloseIdleSection(s: Pool, listed: seq<nat>): (t: Pool)
    requires forall c :: c in listed ==> c < |s.owner|
  {
    s.(idleConn := map[], closeIdle := true, idleLRU := [],
       puts := s.puts + seq(|listed|, i requires 0 <= i < |listed| => Put(listed[i], Closing)),
       owner := seq(|s.owner|, c requires 0 <= c < |s.owner| =>
         if c in listed then ByPut(|s.puts| + IndexOf(listed, c))
         else if s.owner[c] == LeftBehind then (if c < |s.conns| && s.conns[c].closed then Gone else Orphan)
         else s.owner[c]))
  }

  function IndexOf(s: seq<nat>, c: nat): (i: nat)
    requires c in s
    ensures i < |s| && s[i] == c && c !in s[..i]
  {
    if s[0] == c then 0 else 1 + IndexOf(s[1..], c)
  }
}
