/** The tree search agrees with a scan of the registered patterns: it finds the first match in the precedence order,
    with the values of its wildcards. */
module RoutingPrecedence {
  import opened Options
  import opened GoBytes
  import opened UrlEscape
  import opened Strings
  import opened RoutingPattern
  import opened RoutingTree

  // ---- what a tree holds ----

  /** The pattern at the end of a path of keys. */
  function At(t: Tree, keys: seq<Bytes>): (r: Option<Pattern>)
    decreases |keys|
  {
    if keys == [] then t.leaf
    else if keys[0] in t.kids then At(t.kids[keys[0]], keys[1..])
    else None
  }

  lemma KeysStep(segs: seq<Segment>)
    requires segs != []
    ensures Keys(segs) != [] && Keys(segs)[0] == Key(segs[0]) && Keys(segs)[1..] == Keys(segs[1..])
  {
  }

  lemma EmptyHoldsNothing(keys: seq<Bytes>)
    ensures At(EMPTY, keys) == None
  {
  }

  lemma {:induction false} AddSegmentsAt(t: Tree, segs: seq<Segment>, p: Pattern, keys: seq<Bytes>)
    requires MultiIsLast(segs)
    ensures var (t', ok) := AddSegments(t, segs, p);
      && (ok <==> At(t, Keys(segs)) == None)
      && At(t', keys) == if ok && keys == Keys(segs) then Some(p) else At(t, keys)
    decreases |segs|
  {
    if segs != [] {
      var key := Key(segs[0]);
      KeysStep(segs);
      EmptyHoldsNothing(Keys(segs[1..]));
      if keys != [] {
        EmptyHoldsNothing(keys[1..]);
        AddSegmentsAt(Kid(t, key), segs[1..], p, keys[1..]);
        assert keys == [keys[0]] + keys[1..];
        assert Keys(segs) == [key] + Keys(segs[1..]);
      } else {
        AddSegmentsAt(Kid(t, key), segs[1..], p, []);
      }
    }
  }

  function FullKeys(p: Pattern): (list: seq<Bytes>) {
    [p.host, p.verb] + Keys(p.segments)
  }

  /** after holds what before holds, and p at keys when added. */
  ghost predicate HoldsAlso(before: Tree, after: Tree, keys: seq<Bytes>, p: Pattern, added: bool) {
    forall ks :: At(after, ks) == if added && ks == keys then Some(p) else At(before, ks)
  }

  lemma HoldsAlsoAbove(t: Tree, key: Bytes, kid: Tree, keys: seq<Bytes>, p: Pattern, added: bool)
    requires HoldsAlso(Kid(t, key), kid, keys, p, added)
    ensures HoldsAlso(t, WithKid(t, key, kid), [key] + keys, p, added)
  {
    var t' := WithKid(t, key, kid);
    forall ks ensures At(t', ks) == if added && ks == [key] + keys then Some(p) else At(t, ks) {
      if ks != [] && ks[0] == key {
        KidAt(t, key, ks[1..]);
        assert ks == [key] + ks[1..];
        assert ([key] + keys)[1..] == keys;
      }
    }
  }

  /** Registering a pattern changes what the tree holds at that pattern's own keys and nowhere else,
      and fails exactly when the place is taken. */
  lemma AddPatternAt(t: Tree, p: Pattern)
    requires MultiIsLast(p.segments)
    ensures AddPattern(t, p).1 <==> At(t, FullKeys(p)) == None
    ensures HoldsAlso(t, AddPattern(t, p).0, FullKeys(p), p, AddPattern(t, p).1)
  {
    var host := Kid(t, p.host);
    var paths, ok := AddSegments(Kid(host, p.verb), p.segments, p).0, AddSegments(Kid(host, p.verb), p.segments, p).1;
    var keys := Keys(p.segments);
    forall ks ensures At(paths, ks) == if ok && ks == keys then Some(p) else At(Kid(host, p.verb), ks) {
      AddSegmentsAt(Kid(host, p.verb), p.segments, p, ks);
    }
    AddSegmentsAt(Kid(host, p.verb), p.segments, p, []);
    KidAt(host, p.verb, keys);
    KidAt(t, p.host, [p.verb] + keys);
    HoldsAlsoAbove(host, p.verb, paths, keys, p, ok);
    HoldsAlsoAbove(t, p.host, WithKid(host, p.verb, paths), [p.verb] + keys, p, ok);
    assert [p.host] + ([p.verb] + keys) == FullKeys(p);
  }

  lemma KidAt(t: Tree, key: Bytes, keys: seq<Bytes>)
    ensures At(Kid(t, key), keys) == At(t, [key] + keys)
  {
    EmptyHoldsNothing(keys);
    assert ([key] + keys)[1..] == keys;
  }

  // ---- the search on one subtree ----

  ghost predicate PlacedAt(p: Pattern, d: nat, keys: seq<Bytes>) {
    Shaped(p.segments) && |p.segments| == d + |keys| && Keys(p.segments[d..]) == keys
  }

  /** Every pattern in the subtree stands where its segments from d on put it. */
  ghost predicate Placed(t: Tree, d: nat) {
    forall keys :: At(t, keys).Some? ==> PlacedAt(At(t, keys).value, d, keys)
  }

  lemma PlacedKid(t: Tree, d: nat, key: Bytes)
    requires Placed(t, d) && key in t.kids
    ensures Placed(t.kids[key], d + 1)
  {
    forall keys | At(t.kids[key], keys).Some? ensures PlacedAt(At(t.kids[key], keys).value, d + 1, keys) {
      var more := [key] + keys;
      assert more[1..] == keys;
      assert At(t, more) == At(t.kids[key], keys);
      var p := At(t, more).value;
      KeysStep(p.segments[d..]);
      assert p.segments[d..][1..] == p.segments[d + 1..];
    }
  }

  lemma HarmlessKid(t: Tree, key: Bytes)
    requires Harmless(t) && key in t.kids && key != SLASH
    ensures Harmless(t.kids[key])
  {
    forall keys | SLASH !in keys && NodeAt(t.kids[key], keys).Some? ensures Fine(NodeAt(t.kids[key], keys).value) {
      var more := [key] + keys;
      assert more[1..] == keys;
      assert SLASH !in more;
      assert NodeAt(t, more) == NodeAt(t.kids[key], keys);
    }
  }

  lemma HarmlessIsFine(t: Tree)
    requires Harmless(t)
    ensures Fine(t)
  {
    assert NodeAt(t, []) == Some(t);
  }

  /** What catches every path finds something on every path. */
  lemma {:induction false} CatchesFinds(t: Tree, path: Bytes, matches: seq<Bytes>)
    requires Catches(t) && path != [] && Unreserved(path)
    ensures var (name, rest) := FirstSegment(path);
      SearchKid(t, name, rest, matches) != Nothing
        || (name != "/" && SearchKid(t, [], rest, matches + [name]) != Nothing)
    decreases |path|
  {
    var (name, rest) := FirstSegment(path);
    if path != "/" && rest != [] && "*" !in t.kids[[]].kids {
      CatchesFinds(t.kids[[]], rest, matches + [name]);
    }
  }

  /** The pattern at keys is read as written and matches the path from its segment d on. */
  ghost predicate Fits(t: Tree, d: nat, keys: seq<Bytes>, path: Bytes) {
    && At(t, keys).Some? && d <= |At(t, keys).value.segments| && Clean(At(t, keys).value.segments)
    && Binds(At(t, keys).value.segments[d..], path).Some?
  }

  ghost predicate NothingFits(t: Tree, d: nat, path: Bytes) {
    forall keys :: !Fits(t, d, keys, path)
  }

  /** p at keys fits, with these values, and precedes everything else that fits. */
  ghost predicate IsBest(t: Tree, d: nat, keys: seq<Bytes>, path: Bytes, p: Pattern, values: seq<Bytes>) {
    && At(t, keys) == Some(p) && d <= |p.segments| && Clean(p.segments) && Binds(p.segments[d..], path) == Some(values)
    && forall other :: Fits(t, d, other, path) ==> Precedes(p.segments[d..], At(t, other).value.segments[d..])
  }

  /** Where a fitting pattern continues, by the kind of its next segment. */
  lemma FitsBelow(t: Tree, d: nat, keys: seq<Bytes>, path: Bytes)
    requires Placed(t, d) && path != [] && Unreserved(path) && Fits(t, d, keys, path)
    ensures keys != [] && keys[0] in t.kids
    ensures var segs := At(t, keys).value.segments[d..]; var (name, rest) := FirstSegment(path);
      && segs != []
      && match Rank(segs[0])
         case 0 => keys[0] == name && Fits(t.kids[name], d + 1, keys[1..], rest)
         case 1 => keys[0] == [] && name != "/" && Fits(t.kids[[]], d + 1, keys[1..], rest)
         case _ => keys == ["*"]
  {
    var p := At(t, keys).value;
    var segs := p.segments[d..];
    assert PlacedAt(p, d, keys);
    assert segs != [];
    KeysStep(segs);
    assert segs[1..] == p.segments[d + 1..];
    assert segs[0] == p.segments[d];
    if segs[0].multi {
      assert keys == ["*"];
    }
  }

  /** A pattern found below the literal child matches with that literal. */
  lemma LiteralBinds(t: Tree, d: nat, keys: seq<Bytes>, path: Bytes)
    requires Placed(t, d) && path != [] && Unreserved(path)
    requires var (name, rest) := FirstSegment(path); name in t.kids && Fits(t.kids[name], d + 1, keys, rest)
    ensures var (name, rest) := FirstSegment(path);
      && Fits(t, d, [name] + keys, path)
      && var segs := At(t, [name] + keys).value.segments;
         Rank(segs[d]) == 0 && Binds(segs[d..], path) == Binds(segs[d + 1..], rest)
  {
    var (name, rest) := FirstSegment(path);
    var more := [name] + keys;
    assert more[1..] == keys;
    var p := At(t, more).value;
    assert PlacedAt(p, d, more);
    var segs := p.segments[d..];
    KeysStep(segs);
    assert segs[1..] == p.segments[d + 1..];
    assert segs[0] == p.segments[d];
  }

  lemma SingleBinds(t: Tree, d: nat, keys: seq<Bytes>, path: Bytes)
    requires Placed(t, d) && path != [] && Unreserved(path) && [] in t.kids
    requires var (name, rest) := FirstSegment(path); name != "/" && Fits(t.kids[[]], d + 1, keys, rest)
    ensures var (name, rest) := FirstSegment(path);
      && Fits(t, d, [[]] + keys, path)
      && var segs := At(t, [[]] + keys).value.segments;
         Rank(segs[d]) == 1 && Binds(segs[d..], path) == Some([name] + Binds(segs[d + 1..], rest).value)
  {
    var none: Bytes := [];
    var more := [none] + keys;
    assert more[1..] == keys;
    var p := At(t, more).value;
    assert PlacedAt(p, d, more);
    var segs := p.segments[d..];
    KeysStep(segs);
    assert segs[1..] == p.segments[d + 1..];
    assert segs[0] == p.segments[d];
  }

  lemma MultiBinds(t: Tree, d: nat, path: Bytes)
    requires Placed(t, d) && path != [] && HasLeaf(t, "*") && Clean(t.kids["*"].leaf.value.segments)
    ensures var p := t.kids["*"].leaf.value;
      && At(t, ["*"]) == Some(p) && |p.segments| == d + 1 && Rank(p.segments[d]) == 2
      && Binds(p.segments[d..], path) == Some(if LastName(p) != [] then [PathUnescape(path[1..])] else [])
  {
    var keys: seq<Bytes> := ["*"];
    assert keys[1..] == [];
    var p := At(t, keys).value;
    assert PlacedAt(p, d, keys);
    KeysStep(p.segments[d..]);
    assert p.segments[d..][0] == p.segments[d];
  }

  /** What the search promises: the best pattern that fits with its values, or that nothing fits. */
  ghost predicate Agrees(t: Tree, d: nat, path: Bytes, matches: seq<Bytes>, r: Answer) {
    match r
    case Nothing => NothingFits(t, d, path)
    case Found(p, found) => exists keys, values :: IsBest(t, d, keys, path, p, values) && found == matches + values
    case Crash => false
  }

  lemma LeafAgrees(t: Tree, d: nat, matches: seq<Bytes>)
    requires Placed(t, d) && (t.leaf.Some? ==> Clean(t.leaf.value.segments))
    ensures Agrees(t, d, [], matches, Search(t, [], matches))
  {
    forall keys | Fits(t, d, keys, []) ensures keys == [] {
      assert PlacedAt(At(t, keys).value, d, keys);
    }
    if t.leaf.Some? {
      var p := t.leaf.value;
      assert At(t, []) == Some(p);
      assert PlacedAt(p, d, []);
      assert p.segments[d..] == [];
      assert IsBest(t, d, [], [], p, []);
      assert matches == matches + [];
    }
  }

  /** The best below the literal child is the best. */
  lemma LiteralIsBest(t: Tree, d: nat, keys: seq<Bytes>, path: Bytes, p: Pattern, values: seq<Bytes>)
    requires Placed(t, d) && path != [] && Unreserved(path)
    requires var (name, rest) := FirstSegment(path);
      name in t.kids && IsBest(t.kids[name], d + 1, keys, rest, p, values)
    ensures IsBest(t, d, [FirstSegment(path).0] + keys, path, p, values)
  {
    var (name, rest) := FirstSegment(path);
    assert Fits(t.kids[name], d + 1, keys, rest);
    LiteralBinds(t, d, keys, path);
    forall other | Fits(t, d, other, path) ensures Precedes(p.segments[d..], At(t, other).value.segments[d..]) {
      FitsBelow(t, d, other, path);
      var q := At(t, other).value;
      assert q.segments[d..][1..] == q.segments[d + 1..] && p.segments[d..][1..] == p.segments[d + 1..];
    }
  }

  /** The best below the single wildcard is the best when nothing below the literal child fits. */
  lemma SingleIsBest(t: Tree, d: nat, keys: seq<Bytes>, path: Bytes, p: Pattern, values: seq<Bytes>)
    requires Placed(t, d) && path != [] && Unreserved(path) && [] in t.kids
    requires var (name, rest) := FirstSegment(path);
      && name != "/" && IsBest(t.kids[[]], d + 1, keys, rest, p, values)
      && (name in t.kids ==> NothingFits(t.kids[name], d + 1, rest))
    ensures IsBest(t, d, [[]] + keys, path, p, [FirstSegment(path).0] + values)
  {
    var (name, rest) := FirstSegment(path);
    assert Fits(t.kids[[]], d + 1, keys, rest);
    SingleBinds(t, d, keys, path);
    forall other | Fits(t, d, other, path) ensures Precedes(p.segments[d..], At(t, other).value.segments[d..]) {
      FitsBelow(t, d, other, path);
      var q := At(t, other).value;
      assert q.segments[d..][1..] == q.segments[d + 1..] && p.segments[d..][1..] == p.segments[d + 1..];
    }
  }

  /** When neither child has anything that fits, only the multi wildcard is left. */
  lemma OnlyMulti(t: Tree, d: nat, path: Bytes)
    requires Placed(t, d) && path != [] && Unreserved(path)
    requires var (name, rest) := FirstSegment(path);
      && (name in t.kids ==> NothingFits(t.kids[name], d + 1, rest))
      && ([] in t.kids && name != "/" ==> NothingFits(t.kids[[]], d + 1, rest))
    ensures forall other :: Fits(t, d, other, path) ==> other == ["*"] && HasLeaf(t, "*")
  {
    forall other | Fits(t, d, other, path) ensures other == ["*"] && HasLeaf(t, "*") {
      FitsBelow(t, d, other, path);
    }
  }

  lemma MultiAgrees(t: Tree, d: nat, path: Bytes, matches: seq<Bytes>)
    requires Placed(t, d) && path != []
    requires "*" in t.kids ==> HasLeaf(t, "*") && Clean(t.kids["*"].leaf.value.segments)
    requires forall other :: Fits(t, d, other, path) ==> other == ["*"] && HasLeaf(t, "*")
    ensures Agrees(t, d, path, matches, SearchMulti(t, path, matches))
  {
    if "*" in t.kids {
      MultiBinds(t, d, path);
      var p := t.kids["*"].leaf.value;
      var values := if LastName(p) != [] then [PathUnescape(path[1..])] else [];
      SamePrecedes(p.segments[d..]);
      assert IsBest(t, d, ["*"], path, p, values);
      assert matches + [] == matches;
    }
  }

  lemma {:induction false} SamePrecedes(a: seq<Segment>)
    ensures Precedes(a, a)
  {
    if a != [] {
      SamePrecedes(a[1..]);
    }
  }

  /** On an unreserved path, the backtracking search below any node that the special keys do no harm to finds the best
      pattern, with its values. */
  lemma {:induction false} SearchAgrees(t: Tree, d: nat, path: Bytes, matches: seq<Bytes>)
    requires Placed(t, d) && Unreserved(path)
    requires if path == [] then t.leaf.Some? ==> Clean(t.leaf.value.segments) else Harmless(t)
    ensures Agrees(t, d, path, matches, Search(t, path, matches))
    decreases |path|
  {
    if path == [] {
      LeafAgrees(t, d, matches);
    } else {
      var (name, rest) := FirstSegment(path);
      HarmlessIsFine(t);
      if name in t.kids {
        PlacedKid(t, d, name);
        if rest != [] { HarmlessKid(t, name); }
        SearchAgrees(t.kids[name], d + 1, rest, matches);
      }
      if [] in t.kids {
        PlacedKid(t, d, []);
        if rest != [] { HarmlessKid(t, []); }
        SearchAgrees(t.kids[[]], d + 1, rest, matches + [name]);
      }
      SearchStep(t, d, path, matches);
    }
  }

  lemma FoundLiteral(t: Tree, d: nat, path: Bytes, matches: seq<Bytes>, f: Answer)
    requires Placed(t, d) && path != [] && Unreserved(path) && f.Found?
    requires var (name, rest) := FirstSegment(path); name in t.kids && Agrees(t.kids[name], d + 1, rest, matches, f)
    ensures Agrees(t, d, path, matches, f)
  {
    var (name, rest) := FirstSegment(path);
    var keys, values :| IsBest(t.kids[name], d + 1, keys, rest, f.pattern, values) && f.values == matches + values;
    LiteralIsBest(t, d, keys, path, f.pattern, values);
  }

  lemma RegroupValues(a: seq<Bytes>, b: seq<Bytes>, c: seq<Bytes>)
    ensures (a + b) + c == a + (b + c)
  {
  }

  lemma FoundSingle(t: Tree, d: nat, path: Bytes, matches: seq<Bytes>, f: Answer)
    requires Placed(t, d) && path != [] && Unreserved(path) && [] in t.kids && f.Found?
    requires var (name, rest) := FirstSegment(path);
      && name != "/" && Agrees(t.kids[[]], d + 1, rest, matches + [name], f)
      && (name in t.kids ==> NothingFits(t.kids[name], d + 1, rest))
    ensures Agrees(t, d, path, matches, f)
  {
    var (name, rest) := FirstSegment(path);
    var keys, values :| IsBest(t.kids[[]], d + 1, keys, rest, f.pattern, values)
      && f.values == (matches + [name]) + values;
    SingleIsBest(t, d, keys, path, f.pattern, values);
    RegroupValues(matches, [name], values);
  }

  lemma SearchStep(t: Tree, d: nat, path: Bytes, matches: seq<Bytes>)
    requires Placed(t, d) && path != [] && Unreserved(path) && Fine(t)
    requires var (name, rest) := FirstSegment(path);
      && (name in t.kids ==> Agrees(t.kids[name], d + 1, rest, matches, Search(t.kids[name], rest, matches)))
      && ([] in t.kids ==>
        Agrees(t.kids[[]], d + 1, rest, matches + [name], Search(t.kids[[]], rest, matches + [name])))
    ensures Agrees(t, d, path, matches, Search(t, path, matches))
  {
    var (name, rest) := FirstSegment(path);
    var literal := SearchKid(t, name, rest, matches);
    var single := if name != "/" then SearchKid(t, [], rest, matches + [name]) else Nothing;
    if literal != Nothing {
      FoundLiteral(t, d, path, matches, literal);
    } else if single != Nothing {
      FoundSingle(t, d, path, matches, single);
    } else {
      if Catches(t) { CatchesFinds(t, path, matches); }
      OnlyMulti(t, d, path);
      MultiAgrees(t, d, path, matches);
    }
  }
}
