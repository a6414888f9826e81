/** Two answers ServeMux derives from the tree: whether a match is exact (http/server.go) and which methods would have
    matched (http/routing_tree.go). */
module RoutingAnswers {
  import opened Options
  import opened GoBytes
  import opened UrlEscape
  import opened Strings
  import opened RoutingPattern
  import opened RoutingTree
  import opened RoutingPrecedence
  import opened RoutingMux

  // ---- exactMatch ----

  /** strings.Count(s, "/") */
  function Slashes(s: Bytes): (n: nat) {
    if s == [] then 0 else (if s[0] == '/' then 1 else 0) + Slashes(s[1..])
  }

  /** exactMatch; None stands for a nil node. */
  predicate ExactMatch(n: Option<Pattern>, path: Bytes)
    requires n.Some? ==> n.value.segments != []
  {
    match n
    case None => false
    case Some(p) =>
      if !p.segments[|p.segments| - 1].multi then true
      else if path != [] && path[|path| - 1] != '/' then false
      else |p.segments| == Slashes(path)
  }

  /** What is left of the path after its first n segments. */
  function Rest(path: Bytes, n: nat): (text: Bytes)
    decreases n
  {
    if n == 0 || path == [] then path else Rest(FirstSegment(path).1, n - 1)
  }

  lemma {:induction false} NoSlashes(s: Bytes)
    requires '/' !in s
    ensures Slashes(s) == 0
  {
    if s != [] { NoSlashes(s[1..]); }
  }

  lemma {:induction false} SlashesConcat(a: Bytes, b: Bytes)
    ensures Slashes(a + b) == Slashes(a) + Slashes(b)
  {
    if a == [] {
      assert a + b == b;
    } else {
      assert (a + b)[1..] == a[1..] + b;
      SlashesConcat(a[1..], b);
    }
  }

  lemma SlashesAfter(name: Bytes, rest: Bytes)
    requires '/' !in name
    ensures Slashes(name + ['/'] + rest) == 1 + Slashes(rest)
  {
    NoSlashes(name);
    SlashesConcat(name + ['/'], rest);
    SlashesConcat(name, ['/']);
    assert Slashes(['/']) == 1;
  }

  /** Taking a segment off a path takes one slash off it and leaves its end alone. */
  lemma OneSlashLess(path: Bytes)
    requires path != [] && path[0] == '/' && path != "/"
    ensures var rest := FirstSegment(path).1;
      Slashes(path) == 1 + Slashes(rest) && (rest != [] ==> rest[|rest| - 1] == path[|path| - 1])
  {
    var cut := Cut(path[1..], '/');
    if cut.2 {
      SlashesAfter(cut.0, cut.1);
      var rest := FirstSegment(path).1;
      assert rest[|rest| - 1] == (cut.0 + ['/'] + cut.1)[|path| - 2];
    } else {
      NoSlashes(cut.0);
    }
  }

  lemma OnlySlashLeft(r: Bytes)
    requires r != [] && r[0] == '/'
    ensures r == "/" <==> r[|r| - 1] == '/' && Slashes(r) == 1
  {
    if |r| > 1 && r[|r| - 1] == '/' {
      var init := r[1..|r| - 1];
      assert r[1..] == init + ['/'];
      SlashesConcat(init, ['/']);
    }
  }

  lemma BoundStep(segs: seq<Segment>, path: Bytes)
    requires |segs| > 1 && MultiIsLast(segs) && path != [] && Binds(segs, path).Some?
    ensures path != "/" && FirstSegment(path).1 != [] && Binds(segs[1..], FirstSegment(path).1).Some?
    ensures MultiIsLast(segs[1..]) && segs[1..][|segs| - 2] == segs[|segs| - 1]
  {
    assert !segs[0].multi;
  }

  lemma {:induction false} BoundRest(segs: seq<Segment>, path: Bytes)
    requires segs != [] && MultiIsLast(segs) && segs[|segs| - 1].multi
    requires path != [] && path[0] == '/' && Binds(segs, path).Some?
    ensures var r := Rest(path, |segs| - 1);
      && r != [] && r[0] == '/' && r[|r| - 1] == path[|path| - 1]
      && Slashes(path) == |segs| - 1 + Slashes(r)
    decreases |segs|
  {
    if |segs| > 1 {
      var rest := FirstSegment(path).1;
      BoundStep(segs, path);
      OneSlashLess(path);
      BoundRest(segs[1..], rest);
      assert Rest(path, |segs| - 1) == Rest(rest, |segs[1..]| - 1);
    }
  }

  /** Counting slashes decides what it is meant to: a match is exact iff there is no multi wildcard or
      it matched nothing but the slash in front of it. */
  lemma ExactMatchExactly(p: Pattern, path: Bytes)
    requires p.segments != [] && MultiIsLast(p.segments)
    requires path != [] && path[0] == '/' && Binds(p.segments, path).Some?
    ensures ExactMatch(Some(p), path) <==>
      (!p.segments[|p.segments| - 1].multi || Rest(path, |p.segments| - 1) == "/")
  {
    if p.segments[|p.segments| - 1].multi {
      BoundRest(p.segments, path);
      OnlySlashLeft(Rest(path, |p.segments| - 1));
    }
  }

  // ---- matchingMethods ----

  /** The methods below one host, with their trees of paths. */
  function MethodTrees(t: Tree, host: Bytes): (m: map<Bytes, Tree>) {
    if host in t.kids then t.kids[host].kids - {[]} else map[]
  }

  /** matchingMethodsPath: the methods below one host that have a pattern for the path. */
  function MethodsAt(t: Tree, host: Bytes, path: Bytes): (found: set<Bytes>) {
    set verb | verb in MethodTrees(t, host) && Search(MethodTrees(t, host)[verb], path, []).Found?
  }

  /** Some search among them dereferences nil; the loop visits all of them. */
  predicate CrashesAt(t: Tree, host: Bytes, path: Bytes) {
    exists verb :: verb in MethodTrees(t, host) && Search(MethodTrees(t, host)[verb], path, []).Crash?
  }

  /** matchingMethods; None is a crash. */
  function MatchingMethods(t: Tree, host: Bytes, path: Bytes, methodSet: set<Bytes>): (r: Option<set<Bytes>>) {
    if (host != [] && CrashesAt(t, host, path)) || CrashesAt(t, [], path) then None
    else
      var all := methodSet + (if host != [] then MethodsAt(t, host, path) else {}) + MethodsAt(t, [], path);
      Some(if "GET" in all then all + {"HEAD"} else all)
  }

  lemma MethodsAtExactly(t: Tree, host: Bytes, path: Bytes, verb: Bytes)
    requires verb != []
    ensures verb in MethodsAt(t, host, path) <==> SearchTier(t, host, verb, path).Found?
    ensures SearchTier(t, host, verb, path).Crash? ==> CrashesAt(t, host, path)
  {
    if HasPaths(t, host, verb) {
      assert verb in MethodTrees(t, host) && MethodTrees(t, host)[verb] == Paths(t, host, verb);
    }
  }

  /** When no pattern without a method matches and no search crashes, the methods reported are exactly those for which
      match finds a node. */
  lemma ReportedExactly(t: Tree, host: Bytes, path: Bytes, verb: Bytes)
    requires SearchTier(t, [], [], path) == Nothing && (host != [] ==> SearchTier(t, host, [], path) == Nothing)
    requires verb != [] && MatchingMethods(t, host, path, {}).Some?
    ensures verb in MatchingMethods(t, host, path, {}).value <==> Match(t, host, verb, path).Found?
  {
    var get: Bytes := "GET";
    MethodsAtExactly(t, host, path, verb);
    MethodsAtExactly(t, [], path, verb);
    MethodsAtExactly(t, host, path, get);
    MethodsAtExactly(t, [], path, get);
    SearchMethodTiers(t, host, verb, path);
    SearchMethodTiers(t, [], verb, path);
  }

  lemma NoCrash(t: Tree, ps: seq<Pattern>, host: Bytes, path: Bytes)
    requires Built(t, ps) && HarmlessMux(t) && Unreserved(path) && path != []
    ensures !CrashesAt(t, host, path)
  {
    forall verb | verb in MethodTrees(t, host) ensures !Search(MethodTrees(t, host)[verb], path, []).Crash? {
      TierIsSearched(t, ps, host, verb, path);
      assert HasPaths(t, host, verb) && MethodTrees(t, host)[verb] == Paths(t, host, verb);
    }
  }

  /** In terms of the registered patterns: the reported methods are those some pattern accepts for this host
      and path. */
  lemma ReportedByPatterns(t: Tree, ps: seq<Pattern>, host: Bytes, path: Bytes, verb: Bytes)
    requires Built(t, ps) && HarmlessMux(t) && Unreserved(path) && path != [] && verb != []
    requires forall p :: p in ps && p.verb == [] ==> !MatchesRequest(p, host, verb, path)
    ensures MatchingMethods(t, host, path, {}).Some?
    ensures verb in MatchingMethods(t, host, path, {}).value <==>
      exists p :: p in ps && MatchesRequest(p, host, verb, path)
  {
    NoCrash(t, ps, host, path);
    NoCrash(t, ps, [], path);
    TierIsSearched(t, ps, [], [], path);
    TierIsSearched(t, ps, host, [], path);
    MatchFindsFirst(t, ps, host, verb, path);
    ReportedExactly(t, host, path, verb);
  }
}
