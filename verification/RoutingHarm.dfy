/** The tree's special keys and registered patterns: exactly which sets of patterns are matched right on every request
    path that has no reserved segment. */
module RoutingHarm {
  import opened Options
  import opened GoBytes
  import opened UrlEscape
  import opened Strings
  import opened RoutingPattern
  import opened RoutingTree
  import opened RoutingPrecedence
  import opened RoutingMux
  import opened RoutingReserved
  import opened RoutingParse

  // ---- a path that leads to a node ----

  lemma {:induction false} NoSlashWritten(s: Bytes)
    ensures '/' !in Escape(s, PathSegment)
  {
    if s != [] {
      NoSlashWritten(s[1..]);
    }
  }

  /** A segment of a path, written so that it decodes to this name. */
  function Named(name: Bytes, rest: Bytes): (text: Bytes) {
    ['/'] + Escape(name, PathSegment) + rest
  }

  lemma NameIsRead(name: Bytes, rest: Bytes)
    requires name != [] && (rest == [] || rest[0] == '/')
    ensures Named(name, rest) != "/" && FirstSegment(Named(name, rest)) == (name, rest)
  {
    var text := Escape(name, PathSegment);
    NoSlashWritten(name);
    RoundTripExactly(name, PathSegment);
    TextIsCut(text, rest);
    assert |text| >= 1;
  }

  lemma TextIsCut(text: Bytes, rest: Bytes)
    requires '/' !in text && text != [] && (rest == [] || rest[0] == '/')
    ensures var path := ['/'] + text + rest; path != "/" && FirstSegment(path) == (PathUnescape(text), rest)
  {
    var path := ['/'] + text + rest;
    assert path[1..] == text + rest;
    if rest == [] {
      assert text + rest == text;
      CutNowhere(text, '/');
    } else {
      assert rest == ['/'] + rest[1..];
      assert text + rest == text + ['/'] + rest[1..];
      CutAt(text, '/', rest[1..]);
    }
  }

  /** A name that no child of any node has. */
  ghost predicate Unused(t: Tree, novel: Bytes) {
    novel != [] && novel != "/" && novel != "*" && forall keys :: NodeAt(t, keys).Some? ==>
      novel !in NodeAt(t, keys).value.kids
  }

  lemma UnusedBelow(t: Tree, keys: seq<Bytes>, novel: Bytes)
    requires Unused(t, novel) && NodeAt(t, keys).Some?
    ensures Unused(NodeAt(t, keys).value, novel)
  {
    var n := NodeAt(t, keys).value;
    forall more | NodeAt(n, more).Some? ensures novel !in NodeAt(n, more).value.kids {
      NodeAtMore(t, keys, more);
    }
  }

  lemma OneKey(t: Tree, key: Bytes)
    ensures NodeAt(t, [key]) == if key in t.kids then Some(t.kids[key]) else None
  {
    var keys: seq<Bytes> := [key];
    assert keys[1..] == [];
  }

  lemma {:induction false} NodeAtMore(t: Tree, keys: seq<Bytes>, more: seq<Bytes>)
    requires NodeAt(t, keys).Some?
    ensures NodeAt(t, keys + more) == NodeAt(NodeAt(t, keys).value, more)
    decreases |keys|
  {
    if keys == [] {
      assert keys + more == more;
    } else {
      NodeAtMore(t.kids[keys[0]], keys[1..], more);
      assert (keys + more)[1..] == keys[1..] + more;
    }
  }

  /** The path whose segments are the keys, with an unused name for every wildcard. */
  function PathTo(keys: seq<Bytes>, novel: Bytes, tail: Bytes): (path: Bytes)
    ensures keys != [] ==> path != []
  {
    if keys == [] then tail
    else Named(if keys[0] == [] then novel else keys[0], PathTo(keys[1..], novel, tail))
  }

  function Collected(keys: seq<Bytes>, novel: Bytes, m: seq<Bytes>): (list: seq<Bytes>) {
    if keys == [] then m else Collected(keys[1..], novel, if keys[0] == [] then m + [novel] else m)
  }

  lemma PathBegins(keys: seq<Bytes>, novel: Bytes, tail: Bytes)
    requires tail == [] || tail[0] == '/'
    ensures var path := PathTo(keys, novel, tail); path == [] || path[0] == '/'
  {
  }

  /** The search goes down along the keys first, and what it finds there is the answer. */
  lemma {:induction false} Follows(t: Tree, keys: seq<Bytes>, novel: Bytes, tail: Bytes, m: seq<Bytes>)
    requires NodeAt(t, keys).Some? && SLASH !in keys && Unused(t, novel) && (tail == [] || tail[0] == '/')
    requires Search(NodeAt(t, keys).value, tail, Collected(keys, novel, m)) != Nothing
    ensures Search(t, PathTo(keys, novel, tail), m) == Search(NodeAt(t, keys).value, tail, Collected(keys, novel, m))
    decreases |keys|
  {
    if keys != [] {
      var key := keys[0];
      var name := if key == [] then novel else key;
      var rest := PathTo(keys[1..], novel, tail);
      OneKey(t, key);
      UnusedBelow(t, [key], novel);
      PathBegins(keys[1..], novel, tail);
      NameIsRead(name, rest);
      Follows(t.kids[key], keys[1..], novel, tail, if key == [] then m + [novel] else m);
      assert key in keys;
      if key == [] { assert novel !in t.kids by { assert NodeAt(t, []) == Some(t); } }
    }
  }

  lemma {:induction false} PathIsUnreserved(keys: seq<Bytes>, novel: Bytes, tail: Bytes)
    requires SLASH !in keys && novel != [] && novel != "/" && novel != "*"
    requires (tail == [] || tail[0] == '/') && Unreserved(tail)
    requires tail == [] && keys != [] ==> keys[|keys| - 1] != "*"
    ensures Unreserved(PathTo(keys, novel, tail))
    decreases |keys|
  {
    if keys != [] {
      var rest := PathTo(keys[1..], novel, tail);
      PathIsUnreserved(keys[1..], novel, tail);
      PathBegins(keys[1..], novel, tail);
      NameIsRead(if keys[0] == [] then novel else keys[0], rest);
      assert keys[0] in keys;
    }
  }

  // ---- where a node is not fine, a path goes wrong ----

  /** A nil dereference, or a pattern that is not read as it was written. */
  predicate Wrong(r: Answer) {
    r.Crash? || (r.Found? && !Clean(r.pattern.segments))
  }

  /** A path that neither a literal nor a single wildcard catches. */
  function Uncaught(t: Tree, novel: Bytes): (path: Bytes)
    requires !Catches(t)
    ensures path != [] && path[0] == '/'
  {
    if !HasLeaf(t, "/") then "/"
    else Named(novel, if !HasLeaf(t, []) then [] else Uncaught(t.kids[[]], novel))
  }

  lemma UnusedKid(t: Tree, key: Bytes, novel: Bytes)
    requires Unused(t, novel) && key in t.kids
    ensures Unused(t.kids[key], novel)
  {
    OneKey(t, key);
    UnusedBelow(t, [key], novel);
  }

  lemma {:induction false} UncaughtIsLeft(t: Tree, novel: Bytes, m: seq<Bytes>)
    requires !Catches(t) && Unused(t, novel)
    ensures Unreserved(Uncaught(t, novel)) && Search(t, Uncaught(t, novel), m) == SearchMulti(t, Uncaught(t, novel), m)
    decreases t
  {
    var path := Uncaught(t, novel);
    assert novel !in t.kids by { assert NodeAt(t, []) == Some(t); }
    if !HasLeaf(t, "/") {
      assert FirstSegment(path) == ("/", []);
    } else if !HasLeaf(t, []) {
      NameIsRead(novel, []);
    } else {
      var kid := t.kids[[]];
      UnusedKid(t, [], novel);
      UncaughtIsLeft(kid, novel, m + [novel]);
      NameIsRead(novel, Uncaught(kid, novel));
    }
  }

  /** A path that goes wrong below a child that leads to an unclean pattern. */
  lemma WrongLeaf(t: Tree, key: Bytes, novel: Bytes, m: seq<Bytes>) returns (path: Bytes)
    requires Unused(t, novel) && HasLeaf(t, key) && key != "*" && !Clean(t.kids[key].leaf.value.segments)
    ensures path != [] && path[0] == '/' && Unreserved(path) && Wrong(Search(t, path, m))
  {
    if key == "/" {
      path := "/";
      assert FirstSegment(path) == ("/", []);
    } else {
      path := PathTo([key], novel, []);
      OneKey(t, key);
      assert SLASH !in [key];
      Follows(t, [key], novel, [], m);
      PathIsUnreserved([key], novel, []);
    }
  }

  lemma WrongBelow(t: Tree, novel: Bytes, m: seq<Bytes>) returns (path: Bytes)
    requires Unused(t, novel) && !Fine(t)
    ensures path != [] && path[0] == '/' && Unreserved(path) && Wrong(Search(t, path, m))
  {
    if key :| key in t.kids && key != "*" && t.kids[key].leaf.Some? && !Clean(t.kids[key].leaf.value.segments) {
      path := WrongLeaf(t, key, novel, m);
    } else {
      path := Uncaught(t, novel);
      UncaughtIsLeft(t, novel, m);
    }
  }

  lemma HarmfulGoesWrong(t: Tree, novel: Bytes) returns (path: Bytes)
    requires Unused(t, novel) && !Harmless(t)
    ensures path != [] && Unreserved(path) && Wrong(Search(t, path, []))
  {
    var keys :| SLASH !in keys && NodeAt(t, keys).Some? && !Fine(NodeAt(t, keys).value);
    UnusedBelow(t, keys, novel);
    var tail := WrongBelow(NodeAt(t, keys).value, novel, Collected(keys, novel, []));
    path := PathTo(keys, novel, tail);
    Follows(t, keys, novel, tail, []);
    PathIsUnreserved(keys, novel, tail);
  }

  // ---- an unused name ----

  function Longest(keys: seq<Bytes>): (n: nat)
    ensures forall i :: 0 <= i < |keys| ==> |keys[i]| <= n
  {
    if keys == [] then 0
    else
      var n := Longest(keys[1..]);
      assert forall i :: 0 < i < |keys| ==> keys[i] == keys[1..][i - 1];
      if |keys[0]| > n then |keys[0]| else n
  }

  function LongestOf(ps: seq<Pattern>): (n: nat)
    ensures forall p :: p in ps ==> Longest(Keys(p.segments)) <= n
  {
    if ps == [] then 0
    else
      var n := LongestOf(ps[1..]);
      assert ps == [ps[0]] + ps[1..];
      if Longest(Keys(ps[0].segments)) > n then Longest(Keys(ps[0].segments)) else n
  }

  function Fresh(ps: seq<Pattern>): (text: Bytes) {
    seq(LongestOf(ps) + 2, _ => 'x')
  }

  lemma KeyIsShort(ps: seq<Pattern>, p: Pattern, i: nat)
    requires p in ps && i < |p.segments|
    ensures Key(p.segments[i]) != Fresh(ps)
  {
    assert Keys(p.segments)[i] == Key(p.segments[i]);
    assert |Keys(p.segments)[i]| <= LongestOf(ps);
  }

  lemma FreshIsUnused(t: Tree, ps: seq<Pattern>, host: Bytes, verb: Bytes)
    requires Built(t, ps) && HasPaths(t, host, verb)
    ensures Unused(Paths(t, host, verb), Fresh(ps))
  {
    var paths, novel := Paths(t, host, verb), Fresh(ps);
    forall keys | NodeAt(paths, keys).Some? ensures novel !in NodeAt(paths, keys).value.kids {
      NodeAtKid(paths, keys, novel);
      if novel in NodeAt(paths, keys).value.kids {
        var p := NodeOfPattern(t, ps, host, verb, keys, novel);
        KeyIsShort(ps, p, |keys|);
      }
    }
  }

  // ---- exactly which sets of patterns are matched right ----

  /** Every request whose path has no reserved segment gets the first pattern that matches it, or none if none does. */
  ghost predicate AlwaysRight(t: Tree, ps: seq<Pattern>) {
    forall host, verb, path :: path != [] && Unreserved(path) ==>
      MatchAgrees(ps, host, verb, path, Match(t, host, verb, path))
  }

  lemma OwnTierFirst(t: Tree, host: Bytes, verb: Bytes, path: Bytes)
    requires SearchTier(t, host, verb, path) != Nothing
    ensures Match(t, host, verb, path) == SearchTier(t, host, verb, path)
  {
    SearchMethodTiers(t, host, verb, path);
  }

  lemma WrongDisagrees(ps: seq<Pattern>, host: Bytes, verb: Bytes, path: Bytes, r: Answer)
    requires AllShaped(ps) && Unreserved(path) && Wrong(r)
    ensures !MatchAgrees(ps, host, verb, path, r)
  {
    if r.Found? && r.pattern in ps && Binds(r.pattern.segments, path).Some? {
      BoundIsClean(r.pattern.segments, path);
    }
  }

  /** Exactly the sets of patterns whose special keys do no harm are matched right on all unreserved paths; no other
      pattern of the set ever makes up for a harmful one that a path can lead to. */
  lemma MatchedRightExactly(ps: seq<Pattern>)
    requires AllShaped(ps) && Register(EMPTY, ps).1
    ensures var t := Register(EMPTY, ps).0; AlwaysRight(t, ps) <==> HarmlessMux(t)
  {
    var t := Register(EMPTY, ps).0;
    RegisterBuilds(ps);
    if HarmlessMux(t) {
      forall host, verb, path | path != [] && Unreserved(path)
        ensures MatchAgrees(ps, host, verb, path, Match(t, host, verb, path))
      {
        MatchFindsFirst(t, ps, host, verb, path);
      }
    } else {
      var host, verb :| HasPaths(t, host, verb) && !Harmless(Paths(t, host, verb));
      FreshIsUnused(t, ps, host, verb);
      var path := HarmfulGoesWrong(Paths(t, host, verb), Fresh(ps));
      OwnTierFirst(t, host, verb, path);
      WrongDisagrees(ps, host, verb, path, Match(t, host, verb, path));
    }
  }

  // ---- one pattern alone ----

  /** No literal "*" before the first "/" that is not last; and if there is no such "/", every literal is read
      as one. */
  predicate Readable(segs: seq<Segment>, clean: bool) {
    if segs == [] || segs[0].multi then clean
    else if segs[0] == END then |segs| > 1 || clean
    else !(IsLiteral(segs[0]) && segs[0].s == "*") && Readable(segs[1..], clean)
  }

  lemma OneKidHarmless(leaf: Option<Pattern>, key: Bytes, kid: Tree)
    ensures var t := Tree(leaf, map[key := kid]); Harmless(t) <==> Fine(t) && (key == SLASH || Harmless(kid))
  {
    var t := Tree(leaf, map[key := kid]);
    if Harmless(t) {
      HarmlessIsFine(t);
      if key != SLASH { HarmlessKid(t, key); }
    }
    if Fine(t) && (key == SLASH || Harmless(kid)) {
      forall keys | SLASH !in keys && NodeAt(t, keys).Some? ensures Fine(NodeAt(t, keys).value) {
        if keys != [] {
          assert keys[0] in keys && keys == [keys[0]] + keys[1..];
          assert NodeAt(kid, keys[1..]) == NodeAt(t, keys);
        }
      }
    }
  }

  lemma LeafHarmless(p: Pattern)
    ensures Harmless(Tree(Some(p), map[]))
  {
  }

  lemma {:induction false} ChainHarmless(p: Pattern, d: nat)
    requires Shaped(p.segments) && d <= |p.segments|
    ensures var segs := p.segments[d..];
      Harmless(Chain(segs, p)) && (segs == [] ==> Clean(p.segments)) <==> Readable(segs, Clean(p.segments))
    decreases |p.segments| - d
  {
    var segs := p.segments[d..];
    if segs == [] {
      LeafHarmless(p);
    } else {
      assert segs == [segs[0]] + p.segments[d + 1..];
      assert segs[0] == p.segments[d] && segs[1..] == p.segments[d + 1..];
      ChainStep(segs[0], segs[1..], p);
      OneKidHarmless(None, Key(segs[0]), Chain(segs[1..], p));
      ChainHarmless(p, d + 1);
      ChainLeaf(segs[1..], p);
      LeafHarmless(p);
      assert !Catches(Chain(segs, p));
    }
  }

  lemma ChainLeaf(segs: seq<Segment>, p: Pattern)
    requires MultiIsLast(segs)
    ensures Chain(segs, p).leaf == if segs == [] then Some(p) else None
  {
  }

  /** A pattern alone is matched right on every unreserved path exactly when it is readable. */
  lemma OnePatternExactly(p: Pattern)
    requires Shaped(p.segments)
    ensures Register(EMPTY, [p]).1
    ensures AlwaysRight(Register(EMPTY, [p]).0, [p]) <==> Readable(p.segments, Clean(p.segments))
  {
    AddPatternAt(EMPTY, p);
    EmptyHoldsNothing(FullKeys(p));
    assert [p][1..] == [];
    var t := AddPattern(EMPTY, p).0;
    var chain := Chain(p.segments, p);
    assert t == Tree(None, map[p.host := Tree(None, map[p.verb := chain])]);
    MatchedRightExactly([p]);
    assert HasPaths(t, p.host, p.verb) && Paths(t, p.host, p.verb) == chain;
    ChainHarmless(p, 0);
    assert p.segments[0..] == p.segments;
  }

  // ---- examples of each kind ----

  function Literal(s: Bytes): (r: Segment) {
    Segment(s, false, false)
  }

  /** A literal "*" at the end takes the multi wildcard's place: the pattern answers for every path. */
  lemma StarPatternMatchesAll(host: Bytes, verb: Bytes, path: Bytes)
    requires path != [] && path != "/" && FirstSegment(path).0 !in ["*", []]
    ensures var p := Pattern([], [], [Literal("*")]); var t := Register(EMPTY, [p]).0;
      && !Readable(p.segments, Clean(p.segments)) && !MatchesRequest(p, host, verb, path)
      && Match(t, host, verb, path) == Found(p, [PathUnescape(path[1..])])
  {
    var star := Literal("*");
    var p := Pattern([], [], [star]);
    OnePattern([star], host, verb, path);
    ChainStep(star, [], p);
    assert [star] + [] == [star];
    var t := Chain([star], p);
    var value := [PathUnescape(path[1..])];
    assert [] + value == value;
    assert LastName(p) == "*";
    assert Search(t, path, []) == Found(p, value);
  }

  const STAR_B := Pattern([], [], [Literal("*"), Literal("b")])

  lemma NoPatternCrashes(kid: Tree, path: Bytes, m: seq<Bytes>)
    requires kid.leaf == None && path != [] && FirstSegment(path).0 != "*"
    ensures Search(Tree(None, map["*" := kid]), path, m) == Crash
  {
  }

  lemma StarChain()
    ensures Chain(STAR_B.segments, STAR_B) == Tree(None, map["*" := Tree(None, map["b" := Tree(Some(STAR_B), map[])])])
  {
    ChainStep(Literal("b"), [], STAR_B);
    ChainStep(Literal("*"), [Literal("b")], STAR_B);
    assert [Literal("b")] + [] == [Literal("b")] && [Literal("*")] + [Literal("b")] == STAR_B.segments;
  }

  /** A literal "*" in front of "b" makes a node "*" without a pattern: a request for any other first segment
      dereferences nil. */
  lemma StarInTheMiddleCrashes(host: Bytes, verb: Bytes, path: Bytes, validName: Bytes -> bool)
    requires path != [] && FirstSegment(path).0 != "*"
    ensures ParseSegments("/*/b", {}, [], validName) == Parsed(STAR_B.segments)
    ensures Match(Register(EMPTY, [STAR_B]).0, host, verb, path) == Crash
  {
    StarIsParsed(validName);
    StarChain();
    OnePattern(STAR_B.segments, host, verb, path);
    NoPatternCrashes(Tree(None, map["b" := Tree(Some(STAR_B), map[])]), path, []);
  }

  lemma PlainName(name: Bytes, rest: Bytes)
    requires name != [] && '/' !in name && '%' !in name && (rest == [] || rest[0] == '/')
    ensures var path := ['/'] + name + rest; path != "/" && FirstSegment(path) == (name, rest)
  {
    TextIsCut(name, rest);
    DecodeNothing(name, PathSegment);
    NothingToCheck(name);
  }

  lemma {:induction false} NothingToCheck(s: Bytes)
    requires '%' !in s
    ensures Check(s, PathSegment) == None
  {
    if s != [] { NothingToCheck(s[1..]); }
  }

  lemma LiteralsStep(name: Bytes, rest: Bytes)
    requires name != [] && '/' !in name && '%' !in name && (rest == [] || rest[0] == '/')
    ensures Literals(['/'] + name + rest) == [Literal(name)] + Literals(rest)
  {
    PlainName(name, rest);
  }

  lemma StarLiterals()
    ensures Literals(['/'] + ['*'] + (['/'] + ['b'] + [])) == STAR_B.segments
  {
    LiteralsStep(['b'], []);
    LiteralsStep(['*'], ['/'] + ['b'] + []);
  }

  lemma StarIsParsed(validName: Bytes -> bool)
    ensures ParseSegments("/*/b", {}, [], validName) == Parsed(STAR_B.segments)
  {
    var path: Bytes := "/*/b";
    StarLiterals();
    assert path == ['/'] + ['*'] + (['/'] + ['b'] + []);
    LiteralsAreParsed(path, [], validName);
    assert [] + Literals(path) == Literals(path);
  }

  const REST_ONLY := Pattern([], [], [REST])

  /** A multi wildcard in the same place makes that pattern harmless: the condition is on the set, not on
      each pattern. */
  lemma MultiMakesStarHarmless()
    ensures !Readable(STAR_B.segments, Clean(STAR_B.segments)) && Register(EMPTY, [STAR_B, REST_ONLY]).1
    ensures AlwaysRight(Register(EMPTY, [STAR_B, REST_ONLY]).0, [STAR_B, REST_ONLY])
  {
    TreeOfBoth();
    BothAreHarmless();
    MatchedRightExactly([STAR_B, REST_ONLY]);
  }

  function PathsOfBoth(): (tree: Tree) {
    Tree(None, map["*" := Tree(Some(REST_ONLY), map["b" := Tree(Some(STAR_B), map[])])])
  }

  function OnlyPaths(paths: Tree): (tree: Tree) {
    var none: Bytes := [];
    Tree(None, map[none := Tree(None, map[none := paths])])
  }

  lemma OnlyPathsHarmless(paths: Tree)
    requires Harmless(paths)
    ensures HarmlessMux(OnlyPaths(paths))
  {
  }

  lemma BothAreHarmless()
    ensures HarmlessMux(OnlyPaths(PathsOfBoth()))
  {
    var leaf := Tree(Some(STAR_B), map[]);
    var star := Tree(Some(REST_ONLY), map["b" := leaf]);
    LeafHarmless(STAR_B);
    OneKidHarmless(Some(REST_ONLY), "b", leaf);
    assert Harmless(star);
    OneKidHarmless(None, "*", star);
    OnlyPathsHarmless(PathsOfBoth());
  }

  lemma TreeOfBoth()
    ensures Register(EMPTY, [STAR_B, REST_ONLY]) == (OnlyPaths(PathsOfBoth()), true)
  {
    var none: Bytes := [];
    StarChain();
    var chain := Chain(STAR_B.segments, STAR_B);
    var t := AddPattern(EMPTY, STAR_B).0;
    AddPatternAt(EMPTY, STAR_B);
    EmptyHoldsNothing(FullKeys(STAR_B));
    assert t == OnlyPaths(chain);
    assert [REST][1..] == [];
    var star := Tree(Some(REST_ONLY), map["b" := Tree(Some(STAR_B), map[])]);
    assert AddSegments(Kid(chain, "*"), [], REST_ONLY) == (star, true);
    assert WithKid(chain, "*", star) == PathsOfBoth();
    assert AddSegments(chain, [REST], REST_ONLY) == (PathsOfBoth(), true);
    assert Kid(t, none) == Tree(None, map[none := chain]) && Kid(Kid(t, none), none) == chain;
    assert WithKid(Kid(t, none), none, PathsOfBoth()) == Tree(None, map[none := PathsOfBoth()]);
    assert WithKid(t, none, Tree(None, map[none := PathsOfBoth()])) == OnlyPaths(PathsOfBoth());
    assert AddPattern(t, REST_ONLY) == (OnlyPaths(PathsOfBoth()), true);
    assert [STAR_B, REST_ONLY][1..] == [REST_ONLY] && [REST_ONLY][1..] == [];
    assert Register(t, [REST_ONLY]) == (OnlyPaths(PathsOfBoth()), true);
  }
}
