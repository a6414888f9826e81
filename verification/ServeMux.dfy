/** ServeMux's tree in use (http/routing_tree.go, http/server.go): registering, and the search with its one slice of
    wildcard values, whose backing array all branches share. */
module ServeMuxClass {
  import opened Options
  import opened GoBytes
  import opened UrlEscape
  import opened RoutingPattern
  import opened RoutingTree
  import opened RoutingPrecedence
  import opened RoutingMux
  import opened RoutingAnswers

  /** A Go slice: a length over a backing array that other slices may share. */
  datatype Slice = Slice(buf: array<Bytes>, len: nat)

  ghost predicate InBounds(s: Slice) {
    s.len <= s.buf.Length
  }

  function Values(s: Slice): (list: seq<Bytes>)
    requires s.len <= s.buf.Length
    reads s.buf
  {
    s.buf[..s.len]
  }

  /** append(s, x): in place while there is room, into a larger copy otherwise. */
  method Append(s: Slice, x: Bytes) returns (r: Slice)
    requires InBounds(s)
    modifies s.buf
    ensures InBounds(r) && Values(r) == old(Values(s)) + [x]
    ensures r.buf == s.buf || fresh(r.buf)
    ensures Values(s) == old(Values(s))
  {
    if s.len < s.buf.Length {
      s.buf[s.len] := x;
      return Slice(s.buf, s.len + 1);
    }
    var buf := new Bytes[2 * s.len + 1];
    for i := 0 to s.len
      invariant buf[..i] == s.buf[..i]
      invariant s.buf[..] == old(s.buf[..])
    {
      buf[i] := s.buf[i];
    }
    buf[s.len] := x;
    return Slice(buf, s.len + 1);
  }

  method FindChild(t: Tree, key: Bytes) returns (c: Option<Tree>)
    ensures c == if key in t.kids then Some(t.kids[key]) else None
  {
    return if key in t.kids then Some(t.kids[key]) else None;
  }

  /** What matchPath returns for a node, unless it crashes: the leaf's pattern and the values in the returned slice. */
  ghost predicate Returns(crashed: bool, found: Option<Pattern>, values: seq<Bytes>, r: Answer) {
    match r
    case Nothing => !crashed && found == None
    case Found(p, v) => !crashed && found == Some(p) && values == v
    case Crash => crashed
  }

  /** matchPath. Failed branches append into the array they share with `matches`, but never below its length. crashed is
      the dereference of a nil pattern. */
  method MatchPath(n: Option<Tree>, path: Bytes, matches: Slice)
    returns (crashed: bool, found: Option<Pattern>, m: Slice)
    requires InBounds(matches)
    modifies matches.buf
    ensures InBounds(m) && (m.buf == matches.buf || fresh(m.buf))
    ensures Values(matches) == old(Values(matches))
    ensures Returns(crashed, found, Values(m), if n.Some? then Search(n.value, path, old(Values(matches))) else Nothing)
    decreases |path|
  {
    crashed, found, m := false, None, matches;
    if n == None {
      return;
    }
    var t := n.value;
    if path == [] {
      found := t.leaf;
      return;
    }
    ghost var before := Values(matches);
    var (seg, rest) := FirstSegment(path);
    var literal := FindChild(t, seg);
    crashed, found, m := MatchPath(literal, rest, matches);
    assert Returns(crashed, found, Values(m), SearchKid(t, seg, rest, before));
    if crashed || found.Some? {
      return;
    }
    if seg != "/" {
      var more := Append(matches, seg);
      assert Values(more) == before + [seg];
      var single := FindChild(t, []);
      crashed, found, m := MatchPath(single, rest, more);
      assert Returns(crashed, found, Values(m), SearchKid(t, [], rest, before + [seg]));
      if crashed || found.Some? {
        return;
      }
    }
    m := matches;
    var c := FindChild(t, "*");
    if c.Some? {
      if c.value.leaf == None {
        crashed := true;
        return;
      }
      if LastName(c.value.leaf.value) != [] {
        m := Append(matches, PathUnescape(path[1..]));
      }
      found := c.value.leaf;
    }
  }

  class ServeMux {
    var tree: Tree
    var patterns: seq<Pattern>

    /** The tree holds exactly the registered patterns. */
    ghost predicate Valid()
      reads this
    {
      forall ks, p :: At(tree, ks) == Some(p) <==> p in patterns && ks == FullKeys(p)
    }

    constructor ()
      ensures Valid() && patterns == []
    {
      tree, patterns := EMPTY, [];
      new;
      forall ks ensures At(tree, ks) == None { EmptyHoldsNothing(ks); }
    }

    /** register; false is the panic of set, when the place in the tree is taken. */
    method Register(p: Pattern) returns (ok: bool)
      requires Valid() && p.segments != [] && MultiIsLast(p.segments)
      modifies this
      ensures Valid() && patterns == if ok then old(patterns) + [p] else old(patterns)
      ensures ok <==> forall q :: q in old(patterns) ==> FullKeys(q) != FullKeys(p)
    {
      AddPatternAt(tree, p);
      if At(tree, FullKeys(p)) != None {
        assert At(tree, FullKeys(p)).value in patterns;
      }
      var (t, added) := AddPattern(tree, p);
      assert forall ks :: At(t, ks) == if added && ks == FullKeys(p) then Some(p) else At(tree, ks);
      tree := t;
      if !added {
        return false;
      }
      patterns := patterns + [p];
      return true;
    }

    /** matchMethodAndPath on the child of the root for this host */
    method MatchMethodAndPath(n: Option<Tree>, verb: Bytes, path: Bytes)
      returns (crashed: bool, found: Option<Pattern>, m: Slice)
      ensures InBounds(m) && fresh(m.buf)
      ensures Returns(crashed, found, Values(m),
        if n.Some? then SearchMethod(Tree(None, map[[] := n.value]), [], verb, path) else Nothing)
    {
      var buf := new Bytes[0];
      crashed, found, m := false, None, Slice(buf, 0);
      if n == None {
        return;
      }
      var c := FindChild(n.value, verb);
      crashed, found, m := MatchPath(c, path, Slice(buf, 0));
      if crashed || found.Some? {
        return;
      }
      if verb == "HEAD" {
        c := FindChild(n.value, "GET");
        crashed, found, m := MatchPath(c, path, Slice(buf, 0));
        if crashed || found.Some? {
          return;
        }
      }
      c := FindChild(n.value, []);
      crashed, found, m := MatchPath(c, path, Slice(buf, 0));
    }

    method Match(host: Bytes, verb: Bytes, path: Bytes) returns (crashed: bool, found: Option<Pattern>, m: Slice)
      ensures InBounds(m) && fresh(m.buf)
      ensures Returns(crashed, found, Values(m), RoutingTree.Match(tree, host, verb, path))
    {
      if host != [] {
        var n := FindChild(tree, host);
        crashed, found, m := MatchMethodAndPath(n, verb, path);
        if crashed || found.Some? {
          return;
        }
      }
      var n := FindChild(tree, []);
      crashed, found, m := MatchMethodAndPath(n, verb, path);
    }

    /** matchingMethodsPath: adds the methods below one host to the set, in whatever order the children come. */
    method MatchingMethodsPath(host: Bytes, path: Bytes, methodSet: set<Bytes>) returns (crashed: bool, r: set<Bytes>)
      ensures crashed <==> CrashesAt(tree, host, path)
      ensures !crashed ==> r == methodSet + MethodsAt(tree, host, path)
    {
      crashed, r := false, methodSet;
      var n := FindChild(tree, host);
      if n == None {
        return;
      }
      ghost var all := MethodTrees(tree, host);
      var left := n.value.kids.Keys - {[]};
      while left != {}
        invariant left <= all.Keys
        invariant r == methodSet + (MethodsAt(tree, host, path) - left)
        invariant forall verb :: verb in all && verb !in left ==> !Search(all[verb], path, []).Crash?
      {
        var verb :| verb in left;
        var buf := new Bytes[0];
        var nilPattern, found, _ := MatchPath(Some(n.value.kids[verb]), path, Slice(buf, 0));
        if nilPattern {
          assert verb in all && Search(all[verb], path, []).Crash?;
          return true, r;
        }
        if found.Some? {
          r := r + {verb};
        }
        left := left - {verb};
      }
    }

    method MatchingMethods(host: Bytes, path: Bytes, methodSet: set<Bytes>) returns (crashed: bool, r: set<Bytes>)
      ensures RoutingAnswers.MatchingMethods(tree, host, path, methodSet) == if crashed then None else Some(r)
    {
      crashed, r := false, methodSet;
      if host != [] {
        crashed, r := MatchingMethodsPath(host, path, r);
        if crashed {
          return;
        }
      }
      assert methodSet + {} == methodSet;
      crashed, r := MatchingMethodsPath([], path, r);
      if crashed {
        return;
      }
      if "GET" in r {
        r := r + {"HEAD"};
      }
    }
  }
}
