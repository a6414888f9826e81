/** Dot segments (url/url.go, resolvePath) and the algorithm of section 5.2.4 of RFC 3986 they come from. */
module UrlPath {
  import opened Options
  import opened GoBytes
  import opened UrlEscape
  import opened Strings

  // ---- paths as lists of segments ----

  predicate NoSlash(segs: seq<Bytes>) {
    forall k :: 0 <= k < |segs| ==> '/' !in segs[k]
  }

  /** The pieces between the slashes; the empty text has one empty piece. */
  function Split(s: Bytes): (segs: seq<Bytes>)
    ensures segs != [] && NoSlash(segs)
    decreases |s|
  {
    var (elem, rest, found) := Cut(s, '/');
    if found then [elem] + Split(rest) else [elem]
  }

  /** Every segment with a slash in front of it. */
  function Slashed(segs: seq<Bytes>): (text: Bytes) {
    if segs == [] then [] else ['/'] + segs[0] + Slashed(segs[1..])
  }

  lemma {:induction false} SplitIsSlashed(s: Bytes)
    ensures Slashed(Split(s)) == ['/'] + s
    decreases |s|
  {
    var (elem, rest, found) := Cut(s, '/');
    if found {
      SplitIsSlashed(rest);
      assert Split(s)[1..] == Split(rest);
      Regroup(['/'] + elem, ['/'], rest);
      Regroup(['/'], elem, ['/']);
      Regroup(['/'], elem + ['/'], rest);
    } else {
      assert Slashed([elem]) == ['/'] + elem;
    }
  }

  lemma SplitCons(elem: Bytes, rest: Bytes)
    requires '/' !in elem
    ensures Split(elem + ['/'] + rest) == [elem] + Split(rest)
  {
    CutAt(elem, '/', rest);
  }

  lemma SplitOne(elem: Bytes)
    requires '/' !in elem
    ensures Split(elem) == [elem]
  {
    CutNowhere(elem, '/');
  }

  function Join(segs: seq<Bytes>): (text: Bytes)
    requires segs != []
  {
    if |segs| == 1 then segs[0] else segs[0] + ['/'] + Join(segs[1..])
  }

  lemma {:induction false} SlashedIsJoin(segs: seq<Bytes>)
    requires segs != []
    ensures Slashed(segs) == ['/'] + Join(segs)
  {
    if |segs| == 1 {
      assert ['/'] + segs[0] + [] == ['/'] + segs[0];
    } else {
      SlashedIsJoin(segs[1..]);
      Regroup(['/'] + segs[0], ['/'], Join(segs[1..]));
      Regroup(['/'], segs[0], ['/']);
      Regroup(['/'], segs[0] + ['/'], Join(segs[1..]));
    }
  }

  lemma {:induction false} SplitJoin(segs: seq<Bytes>)
    requires segs != [] && NoSlash(segs)
    ensures Split(Join(segs)) == segs
  {
    if |segs| == 1 {
      SplitOne(segs[0]);
    } else {
      TailHasNoSlash(segs);
      SplitJoin(segs[1..]);
      SplitCons(segs[0], Join(segs[1..]));
    }
  }

  lemma SplitAgain(segs: seq<Bytes>)
    requires segs != [] && NoSlash(segs)
    ensures Slashed(segs) != [] && Slashed(segs)[0] == '/' && Split(Slashed(segs)[1..]) == segs
  {
    SlashedIsJoin(segs);
    SplitJoin(segs);
    assert Slashed(segs)[1..] == Join(segs);
  }

  lemma TailHasNoSlash(segs: seq<Bytes>)
    requires segs != [] && NoSlash(segs)
    ensures NoSlash(segs[1..])
  {
  }

  lemma {:induction false} SlashedSnoc(segs: seq<Bytes>, last: Bytes)
    ensures Slashed(segs + [last]) == Slashed(segs) + (['/'] + last)
  {
    if segs == [] {
      assert [last][1..] == [];
    } else {
      assert (segs + [last])[1..] == segs[1..] + [last];
      SlashedSnoc(segs[1..], last);
      Regroup(['/'] + segs[0], Slashed(segs[1..]), ['/'] + last);
    }
  }

  predicate IsDot(elem: Bytes) {
    elem == "." || elem == ".."
  }

  predicate NoDots(segs: seq<Bytes>) {
    forall k :: 0 <= k < |segs| ==> !IsDot(segs[k])
  }

  // ---- resolvePath ----

  /** What one segment does to the written ones. */
  function Next(stack: seq<Bytes>, elem: Bytes): (list: seq<Bytes>) {
    if elem == "." then if stack == [] then [[]] else stack
    else if elem == ".." then if |stack| <= 1 then [] else stack[..|stack| - 1]
    else stack + [elem]
  }

  function Walk(stack: seq<Bytes>, segs: seq<Bytes>): (list: seq<Bytes>)
    decreases |segs|
  {
    if segs == [] then stack else Walk(Next(stack, segs[0]), segs[1..])
  }

  /** The path that base and ref make before dot segments are applied. */
  function Merged(base: Bytes, ref: Bytes): (text: Bytes) {
    if ref == [] then base
    else if ref[0] != '/' then base[..LastIndex(base, '/') + 1] + ref
    else ref
  }

  /** The builder: a slash, and the written segments with a slash between them. */
  function Built(stack: seq<Bytes>): (text: Bytes) {
    if stack == [] then ['/'] else Slashed(stack)
  }

  /** The last line of resolvePath. */
  function OneSlash(r: Bytes): (text: Bytes) {
    if |r| > 1 && r[1] == '/' then r[1..] else r
  }

  function Finished(stack: seq<Bytes>, last: Bytes): (text: Bytes) {
    OneSlash(if IsDot(last) then Built(stack) + ['/'] else Built(stack))
  }

  function ResolvePath(base: Bytes, ref: Bytes): (text: Bytes) {
    var full := Merged(base, ref);
    if full == [] then []
    else
      var segs := Split(full);
      Finished(Walk([], segs), segs[|segs| - 1])
  }

  lemma NextHasNoSlash(stack: seq<Bytes>, elem: Bytes)
    requires NoSlash(stack) && '/' !in elem
    ensures NoSlash(Next(stack, elem))
  {
  }

  /** Popping a segment, as resolvePath does it: cut the builder at its last slash but the first. */
  lemma PopText(stack: seq<Bytes>)
    requires NoSlash(stack)
    ensures Built(stack) != []
    ensures var str := Built(stack)[1..]; var index := LastIndex(str, '/');
      if index == -1 then |stack| <= 1 else |stack| > 1 && ['/'] + str[..index] == Built(stack[..|stack| - 1])
  {
    if |stack| == 1 {
      assert Slashed(stack) == ['/'] + stack[0];
      assert Built(stack)[1..] == stack[0];
    } else if |stack| > 1 {
      var init, last := stack[..|stack| - 1], stack[|stack| - 1];
      assert init + [last] == stack;
      SlashedSnoc(init, last);
      var str := Built(stack)[1..];
      var n := |Slashed(init)| - 1;
      assert Slashed(init)[0] == '/';
      assert str[n] == '/' && str[n + 1..] == last;
      LastIndexAt(str, n, '/');
      assert ['/'] + str[..n] == Slashed(init);
    }
  }

  lemma PushText(stack: seq<Bytes>, elem: Bytes)
    ensures Built(stack + [elem]) == if stack == [] then ['/'] + elem else Built(stack) + (['/'] + elem)
  {
    SlashedSnoc(stack, elem);
    assert [] + (['/'] + elem) == ['/'] + elem;
  }

  /** The body of the loop of resolvePath: one segment. */
  method WriteSegment(dst: Bytes, first: bool, elem: Bytes, ghost stack: seq<Bytes>) returns (dst': Bytes, first': bool)
    requires NoSlash(stack) && dst == Built(stack) && (first <==> stack == [])
    ensures dst' == Built(Next(stack, elem)) && (first' <==> Next(stack, elem) == [])
  {
    dst', first' := dst, first;
    if elem == "." {
      assert stack == [] ==> Slashed([[]]) == ['/'] by { SlashedSnoc([], []); }
      first' := false;
    } else if elem == ".." {
      PopText(stack);
      var str := dst[1..];
      var index := LastIndex(str, '/');
      dst' := ['/'];
      if index == -1 {
        first' := true;
      } else {
        dst' := dst' + str[..index];
      }
    } else {
      PushText(stack, elem);
      if !first {
        Regroup(dst, ['/'], elem);
        dst' := dst' + ['/'];
      }
      dst' := dst' + elem;
      first' := false;
    }
  }

  /** The loop of resolvePath: one pass over the segments, with the path under construction in a string builder. */
  method WriteSegments(full: Bytes) returns (dst: Bytes, elem: Bytes)
    ensures dst == Built(Walk([], Split(full))) && elem == Split(full)[|Split(full)| - 1]
  {
    ghost var stack: seq<Bytes> := [];
    elem := [];
    var remaining := full;
    dst := ['/'];
    var first, found := true, true;
    while found
      invariant NoSlash(stack) && dst == Built(stack) && (first <==> stack == [])
      invariant Remains(full, stack, remaining, found, elem)
      decreases found, |remaining|
    {
      var cut := Cut(remaining, '/');
      SegmentTaken(full, stack, remaining, elem);
      elem, remaining, found := cut.0, cut.1, cut.2;
      dst, first := WriteSegment(dst, first, elem, stack);
      NextHasNoSlash(stack, elem);
      stack := Next(stack, elem);
    }
  }

  /** What is left to do: to walk over the remaining segments, or, when none is left, nothing. */
  ghost predicate Remains(full: Bytes, stack: seq<Bytes>, remaining: Bytes, found: bool, elem: Bytes) {
    var segs, todo := Split(full), Split(remaining);
    if found then Walk(stack, todo) == Walk([], segs) && todo[|todo| - 1] == segs[|segs| - 1]
    else stack == Walk([], segs) && elem == segs[|segs| - 1]
  }

  lemma SegmentTaken(full: Bytes, stack: seq<Bytes>, remaining: Bytes, elem: Bytes)
    requires Remains(full, stack, remaining, true, elem)
    ensures var (e, rest, found) := Cut(remaining, '/'); Remains(full, Next(stack, e), rest, found, e)
  {
    SplitByCut(remaining);
    WalkOne(stack, Split(remaining));
  }

  /** The end of resolvePath: the slash after a last dot segment, and no slash twice at the front. */
  method Finish(dst: Bytes, elem: Bytes, ghost stack: seq<Bytes>) returns (r: Bytes)
    requires dst == Built(stack)
    ensures r == Finished(stack, elem)
  {
    r := dst;
    if elem == "." || elem == ".." {
      r := r + ['/'];
    }
    if |r| > 1 && r[1] == '/' {
      r := r[1..];
    }
  }

  method ResolvePathInto(base: Bytes, ref: Bytes) returns (r: Bytes)
    ensures r == ResolvePath(base, ref)
  {
    var full;
    if ref == [] {
      full := base;
    } else if ref[0] != '/' {
      var i := LastIndex(base, '/');
      full := base[..i + 1] + ref;
    } else {
      full := ref;
    }
    if full == [] {
      return [];
    }
    var dst, elem := WriteSegments(full);
    r := Finish(dst, elem, Walk([], Split(full)));
  }

  lemma WalkOne(stack: seq<Bytes>, todo: seq<Bytes>)
    requires todo != []
    ensures Walk(stack, todo) == Walk(Next(stack, todo[0]), todo[1..])
    ensures |todo| > 1 ==> todo[1..][|todo| - 2] == todo[|todo| - 1]
  {
  }

  lemma SplitByCut(s: Bytes)
    ensures var (elem, rest, found) := Cut(s, '/');
      Split(s)[0] == elem && Split(s)[1..] == if found then Split(rest) else []
  {
  }

  // ---- what the result looks like ----

  /** The segments of the result, after the first slash. */
  function Kept(stack: seq<Bytes>, last: Bytes): (t: seq<Bytes>)
    ensures t != []
  {
    var s := if stack == [] then [[]] else if IsDot(last) then stack + [[]] else stack;
    if |s| > 1 && s[0] == [] then s[1..] else s
  }

  lemma FinishedIsKept(stack: seq<Bytes>, last: Bytes)
    requires NoSlash(stack) && (stack == [] ==> IsDot(last))
    ensures Finished(stack, last) == Slashed(Kept(stack, last))
  {
    var s := if stack == [] then [[]] else if IsDot(last) then stack + [[]] else stack;
    assert Slashed([[]]) == ['/'] by { SlashedSnoc([], []); }
    SlashedSnoc(stack, []);
    if |s| > 1 {
      StripFirst(s);
    } else if s[0] != [] {
      assert Slashed(s) == ['/'] + s[0];
    }
  }

  /** Dropping the second of two leading slashes drops an empty first segment. */
  lemma StripFirst(s: seq<Bytes>)
    requires |s| > 1 && '/' !in s[0]
    ensures OneSlash(Slashed(s)) == Slashed(if s[0] == [] then s[1..] else s)
  {
    var rest := Slashed(s[1..]);
    assert rest != [] && rest[0] == '/';
    if s[0] == [] {
      assert Slashed(s) == ['/'] + rest;
    } else {
      assert Slashed(s)[1] == s[0][0];
    }
  }

  lemma {:induction false} WalkIsClean(stack: seq<Bytes>, segs: seq<Bytes>)
    requires NoSlash(stack) && NoSlash(segs) && NoDots(stack)
    ensures NoSlash(Walk(stack, segs)) && NoDots(Walk(stack, segs))
    ensures segs != [] && Walk(stack, segs) == [] ==> IsDot(segs[|segs| - 1])
    decreases |segs|
  {
    if segs != [] {
      NextHasNoSlash(stack, segs[0]);
      WalkIsClean(Next(stack, segs[0]), segs[1..]);
    }
  }

  lemma KeptIsClean(stack: seq<Bytes>, last: Bytes)
    requires NoSlash(stack) && NoDots(stack)
    ensures NoSlash(Kept(stack, last)) && NoDots(Kept(stack, last))
  {
  }

  lemma ResultIsKept(base: Bytes, ref: Bytes) returns (t: seq<Bytes>)
    requires Merged(base, ref) != []
    ensures t != [] && NoSlash(t) && NoDots(t) && ResolvePath(base, ref) == Slashed(t)
  {
    var segs := Split(Merged(base, ref));
    var stack, last := Walk([], segs), segs[|segs| - 1];
    WalkIsClean([], segs);
    FinishedIsKept(stack, last);
    KeptIsClean(stack, last);
    t := Kept(stack, last);
  }

  /** The result is empty or starts with a slash, and has no dot segment. */
  lemma ResultHasNoDots(base: Bytes, ref: Bytes)
    ensures var r := ResolvePath(base, ref);
      if Merged(base, ref) == [] then r == [] else r != [] && r[0] == '/' && NoDots(Split(r[1..])) && NoDots(Split(r))
  {
    if Merged(base, ref) != [] {
      var t := ResultIsKept(base, ref);
      SplitAgain(t);
      var r := Slashed(t);
      assert Cut(r, '/') == ([], r[1..], true);
      assert Split(r) == [[]] + t;
    }
  }

  /** A list of segments without dots is written as it is read. */
  lemma {:induction false} WalkPushes(stack: seq<Bytes>, segs: seq<Bytes>)
    requires NoDots(segs)
    ensures Walk(stack, segs) == stack + segs
    decreases |segs|
  {
    if segs == [] {
      assert stack + segs == stack;
    } else {
      WalkPushes(stack + [segs[0]], segs[1..]);
      assert stack + [segs[0]] + segs[1..] == stack + segs;
    }
  }

  /** Resolving a resolved path changes nothing. */
  lemma ResultIsFixed(base: Bytes, ref: Bytes)
    ensures ResolvePath(ResolvePath(base, ref), []) == ResolvePath(base, ref)
  {
    if Merged(base, ref) != [] {
      var t := ResultIsKept(base, ref);
      SplitAgain(t);
      var r := Slashed(t);
      var segs := [[]] + t;
      assert Cut(r, '/') == ([], r[1..], true);
      assert Split(r) == segs;
      WalkPushes([], segs);
      assert [] + segs == segs;
      assert segs[1..] == t;
      StripFirst(segs);
      assert !IsDot(t[|t| - 1]);
      assert segs[|segs| - 1] == t[|t| - 1];
    }
  }
}
