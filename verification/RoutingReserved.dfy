/** The tree's special keys and request paths: exactly which paths can be matched against every set of patterns. */
module RoutingReserved {
  import opened Options
  import opened GoBytes
  import opened UrlEscape
  import opened Strings
  import opened RoutingPattern
  import opened RoutingTree
  import opened RoutingPrecedence
  import opened RoutingMux

  const REST := Segment("rest", true, true)
  const END := Segment("/", false, false)

  /** A single wildcard with a name of its own. */
  function Wild(i: nat): (r: Segment) {
    Segment(seq(i + 1, _ => 'x'), true, false)
  }

  /** A pattern that matches the path and binds a value for every segment of it but a trailing slash. */
  function Covering(path: Bytes, i: nat): (segs: seq<Segment>)
    ensures |segs| == 0 <==> path == []
    decreases |path|
  {
    if path == [] then []
    else if path == "/" then [END]
    else
      var (name, rest) := FirstSegment(path);
      if rest == [] && name == "*" then [REST] else [Wild(i)] + Covering(rest, i + 1)
  }

  /** The number of segments of the path but for a trailing slash. */
  function Names(path: Bytes): (n: nat)
    decreases |path|
  {
    if path == [] || path == "/" then 0 else 1 + Names(FirstSegment(path).1)
  }

  lemma {:induction false} CoveringIsWellFormed(path: Bytes, i: nat)
    ensures path != [] ==> WellFormed(Covering(path, i))
    decreases |path|
  {
    if path != [] && path != "/" {
      var (name, rest) := FirstSegment(path);
      if !(rest == [] && name == "*") {
        CoveringIsWellFormed(rest, i + 1);
        WildInFront(i, Covering(rest, i + 1));
      }
    }
  }

  lemma WildInFront(i: nat, more: seq<Segment>)
    requires more == [] || WellFormed(more)
    ensures WellFormed([Wild(i)] + more)
  {
    var segs := [Wild(i)] + more;
    forall k | 0 < k < |segs| ensures segs[k] == more[k - 1] && (k == |segs| - 1 <==> k - 1 == |more| - 1) {
    }
  }

  lemma {:induction false} CoveringBinds(path: Bytes, i: nat)
    ensures Binds(Covering(path, i), path).Some? && |Binds(Covering(path, i), path).value| == Names(path)
    decreases |path|
  {
    if path == "/" {
      assert [END][1..] == [];
    } else if path != [] {
      var (name, rest) := FirstSegment(path);
      if !(rest == [] && name == "*") {
        CoveringBinds(rest, i + 1);
        assert ([Wild(i)] + Covering(rest, i + 1))[1..] == Covering(rest, i + 1);
      }
    }
  }

  /** Whether a search finds something does not depend on the values collected before. */
  lemma {:induction false} SearchIgnoresMatches(t: Tree, path: Bytes, m: seq<Bytes>, m': seq<Bytes>)
    ensures Search(t, path, m) == Nothing <==> Search(t, path, m') == Nothing
    decreases |path|
  {
    if path != [] {
      var (name, rest) := FirstSegment(path);
      if name in t.kids { SearchIgnoresMatches(t.kids[name], rest, m, m'); }
      if [] in t.kids { SearchIgnoresMatches(t.kids[[]], rest, m + [name], m' + [name]); }
    }
  }

  /** The chain of nodes that holds only p. */
  function Chain(segs: seq<Segment>, p: Pattern): (tree: Tree) {
    AddSegments(EMPTY, segs, p).0
  }

  lemma ChainStep(seg: Segment, segs: seq<Segment>, p: Pattern)
    requires seg.multi ==> segs == []
    ensures Chain([seg] + segs, p) == Tree(None, map[Key(seg) := Chain(segs, p)])
  {
    assert ([seg] + segs)[1..] == segs && ([seg] + segs)[0] == seg;
  }

  /** A search that finds too few values, if anything, when the path has a reserved segment. */
  predicate Loses(t: Tree, path: Bytes, m: seq<Bytes>) {
    match Search(t, path, m)
    case Found(_, values) => |values| <= |m| + Names(path) && (!Unreserved(path) ==> |values| < |m| + Names(path))
    case _ => true
  }

  lemma EndLoses(p: Pattern, m: seq<Bytes>)
    ensures Loses(Chain([END], p), "/", m)
  {
    ChainStep(END, [], p);
    assert [END] + [] == [END];
    var slash: Bytes := "/";
    var t := Chain([END], p);
    assert FirstSegment(slash) == ("/", []);
    assert [] !in t.kids && "*" !in t.kids;
  }

  /** A last "*" runs into the multi wildcard's own key and leaves without the value. */
  lemma StarLoses(path: Bytes, p: Pattern, m: seq<Bytes>)
    requires path != [] && path != "/" && FirstSegment(path) == ("*", [])
    ensures Loses(Chain([REST], p), path, m)
  {
    ChainStep(REST, [], p);
    assert [REST] + [] == [REST];
    var t := Chain([REST], p);
    assert Search(t.kids["*"], [], m) == Found(p, m);
    assert Search(t, path, m) == Found(p, m);
  }

  lemma WildLoses(sub: Tree, path: Bytes, m: seq<Bytes>)
    requires path != [] && path != "/" && !(FirstSegment(path).1 == [] && FirstSegment(path).0 == "*")
    requires var (name, rest) := FirstSegment(path); Loses(sub, rest, m) && Loses(sub, rest, m + [name])
    ensures Loses(Tree(None, map[[] := sub]), path, m)
  {
    var (name, rest) := FirstSegment(path);
    SearchIgnoresMatches(sub, rest, m, m + [name]);
    var t := Tree(None, map[[] := sub]);
    var literal := SearchKid(t, name, rest, m);
    if name == [] {
      assert literal == Search(sub, rest, m);
    } else {
      assert literal == Nothing;
      assert Search(t, path, m) == if name != "/" then Search(sub, rest, m + [name]) else Nothing;
    }
  }

  /** Searching a covering pattern loses a value, or everything, wherever a reserved segment stands in the path. */
  lemma {:induction false} CoveringLoses(path: Bytes, i: nat, p: Pattern, m: seq<Bytes>)
    ensures Loses(Chain(Covering(path, i), p), path, m)
    decreases |path|
  {
    if path == [] {
    } else if path == "/" {
      EndLoses(p, m);
    } else {
      var (name, rest) := FirstSegment(path);
      if rest == [] && name == "*" {
        StarLoses(path, p, m);
      } else {
        ChainStep(Wild(i), Covering(rest, i + 1), p);
        CoveringLoses(rest, i + 1, p, m);
        CoveringLoses(rest, i + 1, p, m + [name]);
        WildLoses(Chain(Covering(rest, i + 1), p), path, m);
      }
    }
  }

  lemma OnePattern(segs: seq<Segment>, host: Bytes, verb: Bytes, path: Bytes)
    requires MultiIsLast(segs)
    ensures var p := Pattern([], [], segs); var (t, ok) := Register(EMPTY, [p]);
      && ok && Match(t, host, verb, path) == Search(Chain(segs, p), path, [])
  {
    var p := Pattern([], [], segs);
    var none: Bytes := [];
    AddPatternAt(EMPTY, p);
    EmptyHoldsNothing(FullKeys(p));
    var t := AddPattern(EMPTY, p).0;
    assert t == Tree(None, map[none := Tree(None, map[none := Chain(segs, p)])]);
    assert [p][1..] == [];
    assert Register(EMPTY, [p]) == (t, true);
    var n := t.kids[none];
    assert SearchMethod(t, none, verb, path) == SearchKid(n, none, path, []);
  }

  /** Some well-formed pattern is matched wrongly on a path with a reserved segment, whatever the host and method. */
  lemma ReservedIsMismatched(host: Bytes, verb: Bytes, path: Bytes) returns (ps: seq<Pattern>)
    requires path != [] && !Unreserved(path)
    ensures AllWellFormed(ps) && Register(EMPTY, ps).1
    ensures !MatchAgrees(ps, host, verb, path, Match(Register(EMPTY, ps).0, host, verb, path))
  {
    var segs := Covering(path, 0);
    CoveringIsWellFormed(path, 0);
    CoveringBinds(path, 0);
    var p := Pattern([], [], segs);
    ps := [p];
    OnePattern(segs, host, verb, path);
    CoveringLoses(path, 0, p, []);
    assert p in ps && MatchesRequest(p, host, verb, path);
  }

  /** Exactly the unreserved paths are matched right against every set of well-formed patterns. */
  lemma MatchedRightExactly(host: Bytes, verb: Bytes, path: Bytes)
    requires path != []
    ensures Unreserved(path) <==> forall ps :: AllWellFormed(ps) && Register(EMPTY, ps).1 ==>
      MatchAgrees(ps, host, verb, path, Match(Register(EMPTY, ps).0, host, verb, path))
  {
    if Unreserved(path) {
      forall ps | AllWellFormed(ps) && Register(EMPTY, ps).1
        ensures MatchAgrees(ps, host, verb, path, Match(Register(EMPTY, ps).0, host, verb, path))
      {
        WellFormedAreShaped(ps);
        RegisterBuilds(ps);
        WellFormedIsHarmless(Register(EMPTY, ps).0, ps);
        MatchFindsFirst(Register(EMPTY, ps).0, ps, host, verb, path);
      }
    } else {
      var ps := ReservedIsMismatched(host, verb, path);
    }
  }
}
