/**
  What holds of the pool between any two lock-protected sections, and why each
  section keeps it.
 */
module PoolInvariant {
  import opened Options
  import opened PoolState

  // ---- the invariant, one concern at a time ----

  ghost predicate WantRefs(wants: seq<Want>, n: nat) {
    forall w :: 0 <= w < |wants| && wants[w].pc.Some? ==> wants[w].pc.value < n
  }

  ghost predicate DialRefs(dials: seq<Dial>, wants: nat, n: nat) {
    forall d :: 0 <= d < |dials| ==> dials[d].w < wants && (dials[d].Dialed? ==> dials[d].c < n)
  }

  ghost predicate PutRefs(puts: seq<Put>, n: nat) {
    forall p :: 0 <= p < |puts| ==> puts[p].c < n
  }

  ghost predicate ListRefs(lists: map<Key, seq<nat>>, n: nat) {
    forall k, i :: k in lists && 0 <= i < |lists[k]| ==> lists[k][i] < n
  }

  ghost predicate Below(s: seq<nat>, n: nat) {
    forall i :: 0 <= i < |s| ==> s[i] < n
  }

  /** Every index names an object. */
  ghost predicate Shape(s: Pool) {
    && |s.owner| == |s.conns|
    && WantRefs(s.wants, |s.conns|)
    && DialRefs(s.dials, |s.wants|, |s.conns|)
    && PutRefs(s.puts, |s.conns|)
    && ListRefs(s.idleConn, |s.conns|)
    && Below(s.idleLRU, |s.conns|)
  }

  /** A wantConn is settled exactly once, and its channel is closed exactly then. */
  ghost predicate SettledOnce(w: Want) {
    && (w.ready <==> w.pc.Some? || w.err)
    && !(w.pc.Some? && w.err)
    && (w.ctx <==> !w.ready)
    && (w.phase == Using ==> w.pc.Some?)
    && (w.phase == Done ==> w.ready)
  }

  ghost predicate WantsSettleOnce(wants: seq<Want>) {
    forall w :: 0 <= w < |wants| ==> SettledOnce(wants[w])
  }

  /** The place that `owner` names for connection c really holds c. */
  ghost predicate HeldAsRecorded(s: Pool, c: nat, hand: Option<nat>)
    requires c < |s.owner| && c < |s.conns|
  {
    match s.owner[c]
    case ByDial(d) => d < |s.dials| && s.dials[d].Dialed? && s.dials[d].c == c
    case ByWant(w) => w < |s.wants| && s.wants[w].pc == Some(c) && s.wants[w].phase != Done
    case ByPut(p) => p < |s.puts| && s.puts[p].c == c && s.puts[p].stage != Over
    case Idle => c in Entries(s.idleConn, s.conns[c].key)
    case InHand => hand == Some(c)
    case LeftBehind => c in s.idleLRU && (s.conns[c].closed || c in s.stale)
    case Orphan => true
    case Gone => s.conns[c].closed
  }

  ghost predicate AllHeld(s: Pool, hand: Option<nat>)
    requires |s.owner| == |s.conns|
  {
    forall c :: 0 <= c < |s.owner| ==> HeldAsRecorded(s, c, hand)
  }

  ghost predicate ListsOwn(lists: map<Key, seq<nat>>, conns: seq<Conn>, owner: seq<Owner>)
    requires |owner| == |conns| && ListRefs(lists, |conns|)
  {
    forall k, i :: k in lists && 0 <= i < |lists[k]| ==> conns[lists[k][i]].key == k && owner[lists[k][i]] == Idle
  }

  ghost predicate LruOwns(lru: seq<nat>, owner: seq<Owner>)
    requires Below(lru, |owner|)
  {
    forall i :: 0 <= i < |lru| ==> owner[lru[i]] in {Idle, LeftBehind}
  }

  ghost predicate WantsOwn(wants: seq<Want>, conns: seq<Conn>, owner: seq<Owner>)
    requires |owner| == |conns| && WantRefs(wants, |conns|)
  {
    forall w :: 0 <= w < |wants| && wants[w].pc.Some? && wants[w].phase != Done ==>
      owner[wants[w].pc.value] == ByWant(w) && conns[wants[w].pc.value].key == wants[w].key
  }

  ghost predicate DialsOwn(dials: seq<Dial>, wants: seq<Want>, conns: seq<Conn>, owner: seq<Owner>)
    requires |owner| == |conns| && DialRefs(dials, |wants|, |conns|)
  {
    forall d :: 0 <= d < |dials| && dials[d].Dialed? ==>
      owner[dials[d].c] == ByDial(d) && conns[dials[d].c].key == wants[dials[d].w].key
  }

  ghost predicate PutsOwn(puts: seq<Put>, owner: seq<Owner>)
    requires PutRefs(puts, |owner|)
  {
    forall p :: 0 <= p < |puts| && puts[p].stage != Over ==> owner[puts[p].c] == ByPut(p)
  }

  /** `owner` and the places agree, except for the connection that the executing section has in hand. */
  ghost predicate Owned(s: Pool, hand: Option<nat>)
    requires Shape(s)
  {
    && AllHeld(s, hand)
    && (hand.Some? ==> hand.value < |s.owner| && s.owner[hand.value] == InHand)
    && ListsOwn(s.idleConn, s.conns, s.owner)
    && LruOwns(s.idleLRU, s.owner)
    && WantsOwn(s.wants, s.conns, s.owner)
    && DialsOwn(s.dials, s.wants, s.conns, s.owner)
    && PutsOwn(s.puts, s.owner)
  }

  /** `list` (oldest first) read backwards is a subsequence of `lru` (newest first). */
  ghost predicate Ordered(list: seq<nat>, lru: seq<nat>)
    decreases |lru|
  {
    list == [] ||
    (lru != []
      && (if lru[0] == list[|list| - 1] then Ordered(list[..|list| - 1], lru[1..]) else Ordered(list, lru[1..])))
  }

  ghost predicate Distinct(s: seq<nat>) {
    forall i, j :: 0 <= i < j < |s| ==> s[i] != s[j]
  }

  ghost predicate ListsOk(cfg: Config, s: Pool) {
    && Distinct(s.idleLRU)
    && (forall k :: k in s.idleConn ==>
          s.idleConn[k] != [] && |s.idleConn[k]| <= cfg.IdlePerHost() && Ordered(s.idleConn[k], s.idleLRU))
  }

  /** A waiting queue holds wantConns of its own key. */
  ghost predicate Keyed(wants: seq<Want>, queues: map<Key, seq<nat>>) {
    forall k, i :: k in queues && 0 <= i < |queues[k]| ==> queues[k][i] < |wants| && wants[queues[k][i]].key == k
  }

  /** No request waits while a pooled connection for its key sits idle. */
  ghost predicate NoIdleWhileWaiting(wants: seq<Want>, queues: map<Key, seq<nat>>, lists: map<Key, seq<nat>>) {
    forall k, i :: k in queues && k in lists && 0 <= i < |queues[k]| ==> !IsWaiting(wants, queues[k][i])
  }

  ghost predicate QueuesOk(s: Pool) {
    && Keyed(s.wants, s.idleConnWait)
    && Keyed(s.wants, s.connsPerHostWait)
    && NoIdleWhileWaiting(s.wants, s.idleConnWait, s.idleConn)
  }

  /** A dial goroutine that is counted in connsPerHost; an abandoned one never gives its count back. */
  predicate HoldsPermit(d: Dial) {
    d.Start? || d.Dialing? || d.Failing? || d.Abandoned?
  }

  ghost function Permits(dials: seq<Dial>, wants: seq<Want>, k: Key): (found: set<nat>) {
    set d | 0 <= d < |dials| && HoldsPermit(dials[d]) && dials[d].w < |wants| && wants[dials[d].w].key == k
  }

  ghost function OpenConns(conns: seq<Conn>, k: Key): (found: set<nat>) {
    set c | 0 <= c < |conns| && !conns[c].closed && conns[c].key == k
  }

  /** What connsPerHost[k] should count. */
  ghost function Load(s: Pool, k: Key): (n: nat) {
    |Permits(s.dials, s.wants, k)| + |OpenConns(s.conns, k)|
  }

  ghost predicate WithinLimit(counts: map<Key, int>, limit: int) {
    forall k :: Count(counts, k) <= limit
  }

  /** Wherever a request still waits for a permit, the limit is reached. */
  ghost predicate AtLimitWhereWaiting(counts: map<Key, int>, limit: int, wants: seq<Want>, queues: map<Key, seq<nat>>) {
    forall k, i :: k in queues && 0 <= i < |queues[k]| && IsWaiting(wants, queues[k][i]) ==> Count(counts, k) == limit
  }

  ghost predicate CountsOk(cfg: Config, s: Pool) {
    cfg.maxConnsPerHost > 0 ==>
      && (forall k :: Count(s.connsPerHost, k) == Load(s, k))
      && WithinLimit(s.connsPerHost, cfg.maxConnsPerHost)
      && AtLimitWhereWaiting(s.connsPerHost, cfg.maxConnsPerHost, s.wants, s.connsPerHostWait)
  }

  ghost predicate InvWith(cfg: Config, s: Pool, hand: Option<nat>) {
    && Shape(s)
    && WantsSettleOnce(s.wants)
    && Owned(s, hand)
    && ListsOk(cfg, s)
    && QueuesOk(s)
    && CountsOk(cfg, s)
    && !s.fault
  }

  /** The global idle cap; it is exceeded only inside tryPutIdleConn. */
  ghost predicate GlobalCap(cfg: Config, s: Pool) {
    cfg.maxIdleConns != 0 ==> |s.idleLRU| <= if cfg.maxIdleConns > 0 then cfg.maxIdleConns else 0
  }

  ghost predicate Inv(cfg: Config, s: Pool) {
    InvWith(cfg, s, None) && GlobalCap(cfg, s)
  }

  // ---- lists ----

  lemma {:induction false} DropSettledShape(wants: seq<Want>, q: seq<nat>) returns (n: nat)
    ensures n <= |q| && DropSettled(wants, q) == q[n..]
    ensures forall i :: 0 <= i < n ==> !IsWaiting(wants, q[i])
    ensures n < |q| ==> IsWaiting(wants, q[n])
  {
    if q == [] || IsWaiting(wants, q[0]) {
      n := 0;
    } else {
      var m := DropSettledShape(wants, q[1..]);
      n := m + 1;
      assert q[1..][m..] == q[n..];
      forall i | 0 <= i < n ensures !IsWaiting(wants, q[i]) {
        assert i > 0 ==> q[i] == q[1..][i - 1];
      }
    }
  }

  lemma {:induction false} WithoutAbsent(s: seq<nat>, c: nat)
    requires c !in s
    ensures Without(s, c) == s
  {
    if s != [] {
      WithoutAbsent(s[1..], c);
    }
  }

  lemma {:induction false} WithoutAt(s: seq<nat>, c: nat) returns (i: nat)
    requires c in s
    ensures i < |s| && s[i] == c && c !in s[..i]
    ensures Without(s, c) == s[..i] + s[i + 1..]
  {
    if s[0] == c {
      i := 0;
    } else {
      var j := WithoutAt(s[1..], c);
      i := j + 1;
      assert s[..i] == [s[0]] + s[1..][..j];
    }
  }

  lemma WithoutMembers(s: seq<nat>, c: nat)
    requires Distinct(s)
    ensures Distinct(Without(s, c))
    ensures forall x :: x in Without(s, c) <==> x in s && x != c
    ensures |Without(s, c)| == if c in s then |s| - 1 else |s|
  {
    if c in s {
      var i := WithoutAt(s, c);
    } else {
      WithoutAbsent(s, c);
    }
  }

  // ---- idle lists against the LRU ----

  lemma {:induction false} OrderedMembers(list: seq<nat>, lru: seq<nat>)
    requires Ordered(list, lru) && Distinct(lru)
    ensures forall x :: x in list ==> x in lru
    ensures Distinct(list)
    decreases |lru|
  {
    if list != [] {
      var n := |list| - 1;
      if lru[0] == list[n] {
        OrderedMembers(list[..n], lru[1..]);
        assert list == list[..n] + [list[n]];
        forall i | 0 <= i < n ensures list[i] != list[n] {
          assert list[i] in list[..n];
        }
      } else {
        OrderedMembers(list, lru[1..]);
      }
    }
  }

  lemma {:induction false} OrderedPrefix(list: seq<nat>, n: nat, lru: seq<nat>)
    requires Ordered(list, lru) && n <= |list|
    ensures Ordered(list[..n], lru)
    decreases |lru|, |list|
  {
    if n < |list| {
      if lru[0] == list[|list| - 1] {
        OrderedPrefix(list[..|list| - 1], n, lru[1..]);
        assert list[..|list| - 1][..n] == list[..n];
        OrderedDeeper(list[..n], lru);
      } else {
        OrderedPrefix(list, n, lru[1..]);
        OrderedDeeper(list[..n], lru);
      }
    } else {
      assert list[..n] == list;
    }
  }

  lemma {:induction false} OrderedDeeper(list: seq<nat>, lru: seq<nat>)
    requires lru != [] && Ordered(list, lru[1..])
    ensures Ordered(list, lru)
    decreases |lru|, 0
  {
    if list != [] && lru[0] == list[|list| - 1] {
      OrderedInit(list, lru[1..]);
    }
  }

  lemma {:induction false} OrderedInit(list: seq<nat>, lru: seq<nat>)
    requires list != [] && Ordered(list, lru)
    ensures Ordered(list[..|list| - 1], lru)
    decreases |lru|, 1
  {
    if lru[0] == list[|list| - 1] {
      OrderedDeeper(list[..|list| - 1], lru);
    } else {
      OrderedInit(list, lru[1..]);
      OrderedDeeper(list[..|list| - 1], lru);
    }
  }

  /** Taking c off the LRU, and off the list if it is there, keeps the order. */
  lemma {:induction false} OrderedWithout(list: seq<nat>, lru: seq<nat>, c: nat)
    requires Ordered(list, lru) && Distinct(lru)
    ensures Ordered(Without(list, c), Without(lru, c))
    decreases |lru|
  {
    if list != [] {
      var n := |list| - 1;
      OrderedMembers(list, lru);
      if lru[0] == c {
        assert c !in lru[1..];
        if list[n] == c {
          var i := WithoutAt(list, c);
          assert i == n;
          assert Without(list, c) == list[..n];
        } else {
          OrderedMembers(list, lru[1..]);
          WithoutAbsent(list, c);
        }
      } else {
        if lru[0] == list[n] {
          OrderedWithout(list[..n], lru[1..], c);
          WithoutInit(list, c);
        } else {
          OrderedWithout(list, lru[1..], c);
          OrderedDeeper(Without(list, c), [lru[0]] + Without(lru[1..], c));
        }
      }
    }
  }

  lemma {:induction false} WithoutInit(list: seq<nat>, c: nat)
    requires list != [] && list[|list| - 1] != c
    ensures Without(list, c) == Without(list[..|list| - 1], c) + [list[|list| - 1]]
  {
    if |list| > 1 && list[0] != c {
      WithoutInit(list[1..], c);
      assert list[1..][..|list| - 2] == list[..|list| - 1][1..];
    } else if |list| > 1 {
      assert list[..|list| - 1][1..] + [list[|list| - 1]] == list[1..];
    }
  }
}
