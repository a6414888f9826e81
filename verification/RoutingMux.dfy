/** Matching a request against the patterns registered so far: host, method and path together (http/routing_tree.go). */
module RoutingMux {
  import opened Options
  import opened GoBytes
  import opened UrlEscape
  import opened Strings
  import opened RoutingPattern
  import opened RoutingTree
  import opened RoutingPrecedence

  // ---- registered patterns ----

  /** The tree after registering the patterns one after the other; false when a registration panicked. */
  function Register(t: Tree, ps: seq<Pattern>): (r: (Tree, bool))
    decreases |ps|
  {
    if ps == [] then (t, true)
    else
      var (t', ok) := AddPattern(t, ps[0]);
      if ok then Register(t', ps[1..]) else (t', false)
  }

  predicate AllShaped(ps: seq<Pattern>) {
    forall i :: 0 <= i < |ps| ==> Shaped(ps[i].segments)
  }

  predicate AllWellFormed(ps: seq<Pattern>) {
    forall i :: 0 <= i < |ps| ==> WellFormed(ps[i].segments)
  }

  lemma WellFormedAreShaped(ps: seq<Pattern>)
    requires AllWellFormed(ps)
    ensures AllShaped(ps)
  {
    forall i | 0 <= i < |ps| ensures Shaped(ps[i].segments) {
      WellFormedIsClean(ps[i].segments);
    }
  }

  /** The tree holds the patterns of ps, each at its own keys, besides what `before` held. */
  ghost predicate Holds(t: Tree, before: Tree, ps: seq<Pattern>) {
    forall ks, p :: At(t, ks) == Some(p) <==> At(before, ks) == Some(p) || (p in ps && ks == FullKeys(p))
  }

  lemma {:induction false} RegisterHolds(t: Tree, ps: seq<Pattern>)
    requires AllShaped(ps) && Register(t, ps).1
    ensures Holds(Register(t, ps).0, t, ps)
    decreases |ps|
  {
    if ps != [] {
      var p := ps[0];
      var t' := AddPattern(t, p).0;
      AddPatternAt(t, p);
      RegisterHolds(t', ps[1..]);
      var r := Register(t, ps).0;
      assert ps == [p] + ps[1..];
      forall ks, q ensures At(r, ks) == Some(q) <==> At(t, ks) == Some(q) || (q in ps && ks == FullKeys(q)) {
        assert At(r, ks) == Some(q) <==> At(t', ks) == Some(q) || (q in ps[1..] && ks == FullKeys(q));
      }
    }
  }

  // ---- the nodes that registration adds ----

  predicate IsPrefix(keys: seq<Bytes>, all: seq<Bytes>) {
    |keys| <= |all| && all[..|keys|] == keys
  }

  lemma PrefixStep(key: Bytes, keys: seq<Bytes>, all: seq<Bytes>)
    requires all != [] && all[0] == key && IsPrefix(keys, all[1..])
    ensures IsPrefix([key] + keys, all)
  {
    assert all[..|keys| + 1] == [key] + all[1..][..|keys|];
  }

  lemma {:induction false} AddSegmentsNodes(t: Tree, segs: seq<Segment>, p: Pattern, keys: seq<Bytes>)
    requires NodeAt(AddSegments(t, segs, p).0, keys).Some?
    ensures NodeAt(t, keys).Some? || IsPrefix(keys, Keys(segs))
    decreases |segs|
  {
    if segs != [] && !(segs[0].multi && |segs| != 1) && keys != [] && keys[0] == Key(segs[0]) {
      KeysStep(segs);
      AddSegmentsNodes(Kid(t, keys[0]), segs[1..], p, keys[1..]);
      assert keys == [keys[0]] + keys[1..];
      if IsPrefix(keys[1..], Keys(segs[1..])) {
        PrefixStep(keys[0], keys[1..], Keys(segs));
      } else if keys[0] !in t.kids {
        assert keys[1..] == [];
      }
    }
  }

  /** Every node of the tree leads to a pattern of ps. */
  ghost predicate Grown(t: Tree, ps: seq<Pattern>) {
    forall keys :: keys != [] && NodeAt(t, keys).Some? ==> exists p :: p in ps && IsPrefix(keys, FullKeys(p))
  }

  lemma AddPatternNodes(t: Tree, p: Pattern, keys: seq<Bytes>)
    requires NodeAt(AddPattern(t, p).0, keys).Some?
    ensures NodeAt(t, keys).Some? || IsPrefix(keys, FullKeys(p))
  {
    var host := Kid(t, p.host);
    if |keys| >= 1 && keys[0] == p.host {
      var below := keys[1..];
      assert keys == [p.host] + below;
      if |below| >= 1 && below[0] == p.verb {
        assert below == [p.verb] + below[1..];
        AddSegmentsNodes(Kid(host, p.verb), p.segments, p, below[1..]);
        assert FullKeys(p)[1..][1..] == Keys(p.segments);
        if IsPrefix(below[1..], Keys(p.segments)) {
          PrefixStep(p.verb, below[1..], FullKeys(p)[1..]);
          PrefixStep(p.host, below, FullKeys(p));
        }
      } else if below == [] {
        PrefixStep(p.host, [], FullKeys(p));
      }
    }
  }

  lemma {:induction false} RegisterGrows(t: Tree, ps: seq<Pattern>, earlier: seq<Pattern>)
    requires Grown(t, earlier)
    ensures Grown(Register(t, ps).0, earlier + ps)
    decreases |ps|
  {
    if ps == [] {
      assert earlier + ps == earlier;
    } else {
      var t' := AddPattern(t, ps[0]).0;
      forall keys | keys != [] && NodeAt(t', keys).Some?
        ensures exists p :: p in earlier + [ps[0]] && IsPrefix(keys, FullKeys(p))
      {
        AddPatternNodes(t, ps[0], keys);
        if NodeAt(t, keys).Some? {
          var p :| p in earlier && IsPrefix(keys, FullKeys(p));
          assert p in earlier + [ps[0]];
        } else {
          assert ps[0] in earlier + [ps[0]];
        }
      }
      if AddPattern(t, ps[0]).1 {
        RegisterGrows(t', ps[1..], earlier + [ps[0]]);
        assert earlier + [ps[0]] + ps[1..] == earlier + ps;
      } else {
        GrownByMore(t', earlier + [ps[0]], earlier + ps);
      }
    }
  }

  lemma GrownByMore(t: Tree, ps: seq<Pattern>, qs: seq<Pattern>)
    requires Grown(t, ps) && ps <= qs
    ensures Grown(t, qs)
  {
    forall keys | keys != [] && NodeAt(t, keys).Some? ensures exists p :: p in qs && IsPrefix(keys, FullKeys(p)) {
      var p :| p in ps && IsPrefix(keys, FullKeys(p));
      assert p in qs;
    }
  }

  // ---- the subtree of one host and one method ----

  ghost predicate Built(t: Tree, ps: seq<Pattern>) {
    && AllShaped(ps)
    && (forall ks, p :: At(t, ks) == Some(p) <==> p in ps && ks == FullKeys(p))
    && Grown(t, ps)
  }

  lemma NothingBefore(t: Tree, ps: seq<Pattern>)
    requires Holds(t, EMPTY, ps)
    ensures forall ks, p :: At(t, ks) == Some(p) <==> p in ps && ks == FullKeys(p)
  {
    forall ks, p ensures At(t, ks) == Some(p) <==> p in ps && ks == FullKeys(p) {
      EmptyHoldsNothing(ks);
    }
  }

  lemma EmptyHasNoNodes()
    ensures Grown(EMPTY, [])
  {
  }

  /** Registering into an empty tree without a panic builds the tree of exactly these patterns. */
  lemma RegisterBuilds(ps: seq<Pattern>)
    requires AllShaped(ps) && Register(EMPTY, ps).1
    ensures Built(Register(EMPTY, ps).0, ps)
  {
    RegisterHolds(EMPTY, ps);
    NothingBefore(Register(EMPTY, ps).0, ps);
    EmptyHasNoNodes();
    RegisterGrows(EMPTY, ps, []);
    assert [] + ps == ps;
  }

  predicate HasPaths(t: Tree, host: Bytes, verb: Bytes) {
    host in t.kids && verb in t.kids[host].kids
  }

  function Paths(t: Tree, host: Bytes, verb: Bytes): (tree: Tree)
    requires HasPaths(t, host, verb)
  {
    t.kids[host].kids[verb]
  }

  lemma PathsAt(t: Tree, host: Bytes, verb: Bytes, ks: seq<Bytes>)
    ensures At(t, [host, verb] + ks) == if HasPaths(t, host, verb) then At(Paths(t, host, verb), ks) else None
  {
    var all := [host, verb] + ks;
    assert all[1..][1..] == ks;
  }

  lemma PathsHold(t: Tree, ps: seq<Pattern>, host: Bytes, verb: Bytes)
    requires Built(t, ps) && HasPaths(t, host, verb)
    ensures Placed(Paths(t, host, verb), 0)
    ensures forall ks, p :: At(Paths(t, host, verb), ks) == Some(p) ==>
      p in ps && p.host == host && p.verb == verb && Keys(p.segments) == ks
  {
    var n := Paths(t, host, verb);
    forall ks, p | At(n, ks) == Some(p)
      ensures p in ps && p.host == host && p.verb == verb && Keys(p.segments) == ks && PlacedAt(p, 0, ks)
    {
      PathsAt(t, host, verb, ks);
      assert At(t, [host, verb] + ks) == Some(p);
      SameKeys(host, verb, ks, p);
      assert p.segments[0..] == p.segments;
    }
  }

  lemma SameKeys(host: Bytes, verb: Bytes, ks: seq<Bytes>, p: Pattern)
    requires [host, verb] + ks == FullKeys(p)
    ensures host == p.host && verb == p.verb && ks == Keys(p.segments)
  {
    var full := FullKeys(p);
    assert full[0] == host && full[1] == verb && full[2..] == ks;
    assert ([p.host, p.verb] + Keys(p.segments))[2..] == Keys(p.segments);
  }

  /** The special keys do no harm below any host and method. */
  ghost predicate HarmlessMux(t: Tree) {
    forall host, verb :: HasPaths(t, host, verb) ==> Harmless(Paths(t, host, verb))
  }

  lemma {:induction false} NodeAtLeaf(t: Tree, keys: seq<Bytes>)
    ensures At(t, keys) == match NodeAt(t, keys) case None => None case Some(n) => n.leaf
    decreases |keys|
  {
    if keys != [] && keys[0] in t.kids { NodeAtLeaf(t.kids[keys[0]], keys[1..]); }
  }

  lemma {:induction false} NodeAtKid(t: Tree, keys: seq<Bytes>, key: Bytes)
    requires NodeAt(t, keys).Some?
    ensures var n := NodeAt(t, keys).value;
      NodeAt(t, keys + [key]) == if key in n.kids then Some(n.kids[key]) else None
    decreases |keys|
  {
    if keys == [] {
      assert keys + [key] == [key] && [key][1..] == [];
    } else {
      NodeAtKid(t.kids[keys[0]], keys[1..], key);
      assert (keys + [key])[1..] == keys[1..] + [key];
    }
  }

  lemma PathsNode(t: Tree, host: Bytes, verb: Bytes, ks: seq<Bytes>)
    requires HasPaths(t, host, verb)
    ensures NodeAt(t, [host, verb] + ks) == NodeAt(Paths(t, host, verb), ks)
  {
    var all := [host, verb] + ks;
    assert all[1..][1..] == ks;
  }

  /** The key at the end of a path of keys is that of a pattern's segment. */
  lemma NodeOfPattern(t: Tree, ps: seq<Pattern>, host: Bytes, verb: Bytes, ks: seq<Bytes>, key: Bytes)
    returns (p: Pattern)
    requires Built(t, ps) && HasPaths(t, host, verb) && NodeAt(Paths(t, host, verb), ks + [key]).Some?
    ensures p in ps && p.host == host && p.verb == verb && |ks| < |p.segments|
    ensures Key(p.segments[|ks|]) == key && Keys(p.segments)[..|ks|] == ks
  {
    PathsNode(t, host, verb, ks + [key]);
    var all := [host, verb] + (ks + [key]);
    p :| p in ps && IsPrefix(all, FullKeys(p));
    var full := FullKeys(p);
    assert full[0] == all[0] && full[1] == all[1] && full[2 + |ks|] == all[2 + |ks|] == key;
    assert full[2..] == Keys(p.segments);
    assert all[2..][..|ks|] == ks && full[..|all|][2..] == Keys(p.segments)[..|ks| + 1];
  }

  /** The multi wildcard's child of a node, when all patterns are well formed. */
  lemma StarOfWellFormed(t: Tree, ps: seq<Pattern>, host: Bytes, verb: Bytes, ks: seq<Bytes>)
    requires Built(t, ps) && AllWellFormed(ps) && HasPaths(t, host, verb)
    requires NodeAt(Paths(t, host, verb), ks).Some? && "*" in NodeAt(Paths(t, host, verb), ks).value.kids
    ensures NodeAt(Paths(t, host, verb), ks).value.kids["*"].leaf.Some?
  {
    var paths := Paths(t, host, verb);
    NodeAtKid(paths, ks, "*");
    var p := NodeOfPattern(t, ps, host, verb, ks, "*");
    assert p.segments[|ks|].multi && |p.segments| == |ks| + 1;
    assert Keys(p.segments) == Keys(p.segments)[..|ks|] + [Key(p.segments[|ks|])];
    assert At(t, FullKeys(p)) == Some(p);
    PathsAt(t, host, verb, ks + ["*"]);
    NodeAtLeaf(paths, ks + ["*"]);
  }

  /** In a tree of well-formed patterns the special keys do no harm. */
  lemma WellFormedIsHarmless(t: Tree, ps: seq<Pattern>)
    requires Built(t, ps) && AllWellFormed(ps)
    ensures HarmlessMux(t)
  {
    forall host, verb, ks | HasPaths(t, host, verb) && SLASH !in ks && NodeAt(Paths(t, host, verb), ks).Some?
      ensures Fine(NodeAt(Paths(t, host, verb), ks).value)
    {
      var paths := Paths(t, host, verb);
      var n := NodeAt(paths, ks).value;
      if "*" in n.kids { StarOfWellFormed(t, ps, host, verb, ks); }
      forall key | key in n.kids && n.kids[key].leaf.Some? ensures Clean(n.kids[key].leaf.value.segments) {
        NodeAtKid(paths, ks, key);
        NodeAtLeaf(paths, ks + [key]);
        PathsHold(t, ps, host, verb);
        WellFormedIsClean(n.kids[key].leaf.value.segments);
      }
    }
  }

  predicate InTier(p: Pattern, host: Bytes, verb: Bytes, path: Bytes) {
    p.host == host && p.verb == verb && Binds(p.segments, path).Some?
  }

  /** The search below one host and one method. */
  function SearchTier(t: Tree, host: Bytes, verb: Bytes, path: Bytes): (r: Answer) {
    if HasPaths(t, host, verb) then Search(Paths(t, host, verb), path, []) else Nothing
  }

  ghost predicate TierAgrees(ps: seq<Pattern>, host: Bytes, verb: Bytes, path: Bytes, r: Answer) {
    match r
    case Nothing => forall q :: q in ps ==> !InTier(q, host, verb, path)
    case Found(p, values) =>
      && p in ps && InTier(p, host, verb, path) && Binds(p.segments, path) == Some(values)
      && forall q :: q in ps && InTier(q, host, verb, path) ==> Precedes(p.segments, q.segments)
    case Crash => false
  }

  /** A pattern that matches an unreserved path is read as it was written. */
  lemma {:induction false} BoundIsClean(segs: seq<Segment>, path: Bytes)
    requires MultiIsLast(segs) && Unreserved(path) && Binds(segs, path).Some?
    ensures Clean(segs)
    decreases |segs|
  {
    if segs != [] && !segs[0].multi {
      BoundIsClean(segs[1..], FirstSegment(path).1);
      assert segs == [segs[0]] + segs[1..];
      forall i | 0 <= i < |segs| && IsLiteral(segs[i])
        ensures segs[i].s != [] && (i == |segs| - 1 ==> segs[i].s != "*")
      {
        if i > 0 { assert segs[i] == segs[1..][i - 1]; }
      }
    }
  }

  lemma TierIsSearched(t: Tree, ps: seq<Pattern>, host: Bytes, verb: Bytes, path: Bytes)
    requires Built(t, ps) && HarmlessMux(t) && Unreserved(path) && path != []
    ensures TierAgrees(ps, host, verb, path, SearchTier(t, host, verb, path))
  {
    var r := SearchTier(t, host, verb, path);
    forall q | q in ps && InTier(q, host, verb, path)
      ensures HasPaths(t, host, verb) && Fits(Paths(t, host, verb), 0, Keys(q.segments), path)
      ensures At(Paths(t, host, verb), Keys(q.segments)) == Some(q)
    {
      assert At(t, FullKeys(q)) == Some(q);
      PathsAt(t, host, verb, Keys(q.segments));
      assert q.segments[0..] == q.segments;
      BoundIsClean(q.segments, path);
    }
    if HasPaths(t, host, verb) {
      PathsHold(t, ps, host, verb);
      SearchAgrees(Paths(t, host, verb), 0, path, []);
      if r.Found? {
        var keys, values :| IsBest(Paths(t, host, verb), 0, keys, path, r.pattern, values) && r.values == [] + values;
        assert [] + values == values;
        assert r.pattern.segments[0..] == r.pattern.segments;
        forall q | q in ps && InTier(q, host, verb, path) ensures Precedes(r.pattern.segments, q.segments) {
          assert Fits(Paths(t, host, verb), 0, Keys(q.segments), path);
          assert q.segments[0..] == q.segments;
        }
      }
    }
  }

  // ---- the whole search ----

  /** GET patterns answer HEAD requests. */
  predicate AcceptsVerb(p: Pattern, verb: Bytes) {
    p.verb == [] || p.verb == verb || (verb == "HEAD" && p.verb == "GET")
  }

  /** What the documentation of ServeMux says a pattern matches. */
  predicate MatchesRequest(p: Pattern, host: Bytes, verb: Bytes, path: Bytes) {
    (p.host == [] || p.host == host) && AcceptsVerb(p, verb) && Binds(p.segments, path).Some?
  }

  /** Patterns with a host come first, then those with the request's method, then GET for HEAD. */
  function Tier(p: Pattern, verb: Bytes): (n: nat) {
    (if p.host != [] then 0 else 3) + if p.verb == verb then 0 else if p.verb != [] then 1 else 2
  }

  predicate ComesFirst(p: Pattern, q: Pattern, verb: Bytes) {
    Tier(p, verb) < Tier(q, verb) || (Tier(p, verb) == Tier(q, verb) && Precedes(p.segments, q.segments))
  }

  /** What matching promises about the patterns ps: the first that matches, with its values, or that none does. */
  ghost predicate MatchAgrees(ps: seq<Pattern>, host: Bytes, verb: Bytes, path: Bytes, r: Answer) {
    match r
    case Nothing => forall q :: q in ps ==> !MatchesRequest(q, host, verb, path)
    case Found(p, values) =>
      && p in ps && MatchesRequest(p, host, verb, path) && Binds(p.segments, path) == Some(values)
      && forall q :: q in ps && MatchesRequest(q, host, verb, path) ==> ComesFirst(p, q, verb)
    case Crash => false
  }

  /** Among the patterns of one host. */
  ghost predicate HostAgrees(ps: seq<Pattern>, host: Bytes, verb: Bytes, path: Bytes, r: Answer) {
    match r
    case Nothing => forall q :: q in ps && q.host == host && AcceptsVerb(q, verb) ==> Binds(q.segments, path) == None
    case Found(p, values) =>
      && p in ps && p.host == host && AcceptsVerb(p, verb) && Binds(p.segments, path) == Some(values)
      && forall q :: q in ps && q.host == host && AcceptsVerb(q, verb) && Binds(q.segments, path).Some? ==>
           ComesFirst(p, q, verb)
    case Crash => false
  }

  lemma SearchMethodTiers(t: Tree, host: Bytes, verb: Bytes, path: Bytes)
    ensures var exact := SearchTier(t, host, verb, path);
      var get := if verb == "HEAD" then SearchTier(t, host, "GET", path) else Nothing;
      SearchMethod(t, host, verb, path) ==
        if exact != Nothing then exact else if get != Nothing then get else SearchTier(t, host, [], path)
  {
  }

  lemma HostIsSearched(t: Tree, ps: seq<Pattern>, host: Bytes, verb: Bytes, path: Bytes)
    requires Built(t, ps) && HarmlessMux(t) && Unreserved(path) && path != []
    ensures HostAgrees(ps, host, verb, path, SearchMethod(t, host, verb, path))
  {
    SearchMethodTiers(t, host, verb, path);
    TierIsSearched(t, ps, host, verb, path);
    TierIsSearched(t, ps, host, "GET", path);
    TierIsSearched(t, ps, host, [], path);
  }

  /** For every set of patterns that the tree accepted and whose special keys do no harm, in particular for well-formed
      ones, and every request with an unreserved path, match finds the first of the patterns that match, with the values
      of its wildcards, exactly when some pattern matches. */
  lemma MatchFindsFirst(t: Tree, ps: seq<Pattern>, host: Bytes, verb: Bytes, path: Bytes)
    requires Built(t, ps) && HarmlessMux(t) && Unreserved(path) && path != []
    ensures MatchAgrees(ps, host, verb, path, Match(t, host, verb, path))
  {
    if host != [] {
      HostIsSearched(t, ps, host, verb, path);
    }
    HostIsSearched(t, ps, [], verb, path);
  }

  /** The order leaves no choice: two registered patterns that match the same request never come first of each other. */
  lemma FirstIsUnique(t: Tree, ps: seq<Pattern>, p: Pattern, q: Pattern, host: Bytes, verb: Bytes, path: Bytes)
    requires Built(t, ps) && p in ps && q in ps
    requires MatchesRequest(p, host, verb, path) && MatchesRequest(q, host, verb, path)
    requires ComesFirst(p, q, verb) && ComesFirst(q, p, verb)
    ensures p == q
  {
    SameRankSameKeys(p.segments, q.segments, path);
    assert At(t, FullKeys(p)) == Some(p);
    assert At(t, FullKeys(q)) == Some(q);
  }

  lemma {:induction false} SameRankSameKeys(a: seq<Segment>, b: seq<Segment>, path: Bytes)
    requires Binds(a, path).Some? && Binds(b, path).Some?
    requires Precedes(a, b) && Precedes(b, a)
    ensures Keys(a) == Keys(b)
    decreases |a|
  {
    if a != [] && b != [] {
      SameFirstKey(a, b, path);
      if !a[0].multi {
        SameRankSameKeys(a[1..], b[1..], FirstSegment(path).1);
      }
      KeysStep(a);
      KeysStep(b);
      assert Keys(a) == [Key(a[0])] + Keys(a)[1..];
      assert Keys(b) == [Key(b[0])] + Keys(b)[1..];
    }
  }

  lemma SameFirstKey(a: seq<Segment>, b: seq<Segment>, path: Bytes)
    requires a != [] && b != [] && Binds(a, path).Some? && Binds(b, path).Some?
    requires Precedes(a, b) && Precedes(b, a)
    ensures Rank(a[0]) == Rank(b[0]) && Key(a[0]) == Key(b[0])
    ensures a[0].multi ==> a[1..] == [] && b[1..] == []
    ensures !a[0].multi ==>
      var rest := FirstSegment(path).1;
      Binds(a[1..], rest).Some? && Binds(b[1..], rest).Some?
        && (a[1..] == [] || b[1..] == [] || (Precedes(a[1..], b[1..]) && Precedes(b[1..], a[1..])))
  {
  }
}
