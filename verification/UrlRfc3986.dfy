/** resolvePath against the "remove dot segments" algorithm of section 5.2.4 of RFC 3986, as the RFC states it
    on text. */
module UrlRfc3986 {
  import opened Options
  import opened GoBytes
  import opened UrlEscape
  import opened Strings
  import opened UrlPath

  predicate StartsWith(s: Bytes, prefix: Bytes) {
    |prefix| <= |s| && s[..|prefix|] == prefix
  }

  /** Step C: the last segment leaves the output buffer together with the slash in front of it. */
  function RemoveLast(output: Bytes): (text: Bytes) {
    var i := LastIndex(output, '/');
    if i < 0 then [] else output[..i]
  }

  /** Steps A to E of section 5.2.4, with the RFC's input and output buffers. */
  function RemoveDots(input: Bytes, output: Bytes): (text: Bytes)
    decreases |input|
  {
    if input == [] then output
    else if StartsWith(input, "../") then RemoveDots(input[3..], output)
    else if StartsWith(input, "./") then RemoveDots(input[2..], output)
    else if StartsWith(input, "/./") then RemoveDots(input[2..], output)
    else if input == "/." then RemoveDots(['/'], output)
    else if StartsWith(input, "/../") then RemoveDots(input[3..], RemoveLast(output))
    else if input == "/.." then RemoveDots(['/'], RemoveLast(output))
    else if input == "." || input == ".." then output
    else
      var n := 1 + |Cut(input[1..], '/').0|;
      RemoveDots(input[n..], output + input[..n])
  }

  // ---- the RFC's algorithm on segments ----

  /** What one segment does to the segments in the output buffer. */
  function RfcNext(out: seq<Bytes>, elem: Bytes): (list: seq<Bytes>) {
    if elem == "." then out
    else if elem == ".." then if out == [] then [] else out[..|out| - 1]
    else out + [elem]
  }

  function RfcWalk(out: seq<Bytes>, segs: seq<Bytes>): (list: seq<Bytes>)
    decreases |segs|
  {
    if segs == [] then out else RfcWalk(RfcNext(out, segs[0]), segs[1..])
  }

  /** A last dot segment leaves an empty segment behind. */
  function RfcOut(out: seq<Bytes>, segs: seq<Bytes>): (list: seq<Bytes>)
    requires segs != []
  {
    RfcWalk(out, segs) + if IsDot(segs[|segs| - 1]) then [[]] else []
  }

  lemma RemoveLastSegment(out: seq<Bytes>)
    requires NoSlash(out)
    ensures RemoveLast(Slashed(out)) == Slashed(RfcNext(out, ".."))
  {
    if out != [] {
      var init, last := out[..|out| - 1], out[|out| - 1];
      assert init + [last] == out;
      SlashedSnoc(init, last);
      var t := Slashed(out);
      assert t[|Slashed(init)|] == '/' && t[|Slashed(init)| + 1..] == last;
      LastIndexAt(t, |Slashed(init)|, '/');
      assert t[..|Slashed(init)|] == Slashed(init);
    }
  }

  lemma OnlySlash(output: Bytes)
    ensures RemoveDots(['/'], output) == output + ['/']
  {
    var input: Bytes := ['/'];
    assert Cut(input[1..], '/').0 == [];
    assert input[1..] == [] && input[..1] == input;
  }

  /** Step E on a segment that is no dot segment. */
  lemma MoveSegment(elem: Bytes, rest: Bytes, output: Bytes)
    requires '/' !in elem && !IsDot(elem) && (rest == [] || rest[0] == '/')
    ensures RemoveDots(['/'] + elem + rest, output) == RemoveDots(rest, output + (['/'] + elem))
  {
    var input := ['/'] + elem + rest;
    NotADotSegment(elem, rest);
    var n := 1 + |elem|;
    assert input[1..] == elem + rest && input[n..] == rest && input[..n] == ['/'] + elem;
    if rest == [] {
      assert elem + rest == elem;
      CutNowhere(elem, '/');
    } else {
      assert elem + rest == elem + ['/'] + rest[1..];
      CutAt(elem, '/', rest[1..]);
    }
  }

  lemma NotADotSegment(elem: Bytes, rest: Bytes)
    requires '/' !in elem && !IsDot(elem) && (rest == [] || rest[0] == '/')
    ensures var input := ['/'] + elem + rest;
      && !StartsWith(input, "../") && !StartsWith(input, "./") && !StartsWith(input, "/./")
        && !StartsWith(input, "/../")
      && input != "/." && input != "/.." && input != "." && input != ".."
  {
    var input := ['/'] + elem + rest;
    assert input[0] == '/' && forall k :: 0 <= k < |elem| ==> input[k + 1] == elem[k];
    assert rest != [] ==> input[|elem| + 1] == '/';
    assert |elem| == 1 ==> elem == [elem[0]];
    assert |elem| == 2 ==> elem == [elem[0], elem[1]];
    assert |input| >= 2 ==> input[..2][0] == input[0];
    assert |input| >= 3 ==> input[..3][0] == input[0] && input[..3][1] == input[1] && input[..3][2] == input[2];
    assert |input| >= 4 ==> input[..4][1] == input[1] && input[..4][2] == input[2] && input[..4][3] == input[3];
  }

  /** Steps B and C on a dot segment: the rest goes back to the input buffer, and a last one leaves a slash. */
  lemma DropDot(elem: Bytes, rest: Bytes, output: Bytes)
    requires IsDot(elem) && (rest == [] || rest[0] == '/')
    ensures RemoveDots(['/'] + elem + rest, output) ==
      RemoveDots(if rest == [] then ['/'] else rest, if elem == "." then output else RemoveLast(output))
  {
    var input := ['/'] + elem + rest;
    assert |input| >= 2 ==> input[..2][0] == input[0];
    assert |input| >= 3 ==> input[..3][0] == input[0] && input[..3][1] == input[1] && input[..3][2] == input[2];
    assert |input| >= 4 ==> input[..4][1] == input[1] && input[..4][2] == input[2] && input[..4][3] == input[3];
    assert |input| >= 3 ==> input[..3] == [input[0], input[1], input[2]];
    assert |input| >= 4 ==> input[..4] == [input[0], input[1], input[2], input[3]];
    assert input[1 + |elem|..] == rest;
  }

  /** One turn of the algorithm takes the first segment. */
  lemma OneTurn(segs: seq<Bytes>, out: seq<Bytes>)
    requires segs != [] && NoSlash(segs) && NoSlash(out)
    ensures RemoveDots(Slashed(segs), Slashed(out)) ==
      if |segs| == 1 && IsDot(segs[0]) then RemoveDots(['/'], Slashed(RfcNext(out, segs[0])))
      else RemoveDots(Slashed(segs[1..]), Slashed(RfcNext(out, segs[0])))
  {
    var elem, rest := segs[0], Slashed(segs[1..]);
    if IsDot(elem) {
      DropDot(elem, rest, Slashed(out));
      RemoveLastSegment(out);
    } else {
      MoveSegment(elem, rest, Slashed(out));
      SlashedSnoc(out, elem);
    }
  }

  lemma RfcOutStep(out: seq<Bytes>, segs: seq<Bytes>)
    requires |segs| > 1
    ensures RfcOut(out, segs) == RfcOut(RfcNext(out, segs[0]), segs[1..])
  {
    assert segs[1..][|segs| - 2] == segs[|segs| - 1];
  }

  lemma RfcOutLast(out: seq<Bytes>, elem: Bytes)
    ensures RfcOut(out, [elem]) == RfcNext(out, elem) + if IsDot(elem) then [[]] else []
  {
    var segs := [elem];
    assert segs[0] == elem && segs[1..] == [];
    assert RfcWalk(out, segs) == RfcWalk(RfcNext(out, elem), []);
  }

  lemma {:induction false} DotsBySegments(segs: seq<Bytes>, out: seq<Bytes>)
    requires segs != [] && NoSlash(segs) && NoSlash(out)
    ensures RemoveDots(Slashed(segs), Slashed(out)) == Slashed(RfcOut(out, segs))
    decreases |segs|
  {
    var out' := RfcNext(out, segs[0]);
    OneTurn(segs, out);
    if |segs| == 1 {
      assert segs == [segs[0]];
      RfcOutLast(out, segs[0]);
      OnlySlash(Slashed(out'));
      SlashedSnoc(out', []);
      assert out' + [] == out';
    } else {
      TailHasNoSlash(segs);
      NextHasNoSlash(out, segs[0]);
      DotsBySegments(segs[1..], out');
      RfcOutStep(out, segs);
    }
  }

  // ---- where the two differ ----

  /** Whether the walk over segs, `depth` segments above the root, ends having left the root.
      A ".." at the root leaves it; a "." directly after that puts it back. */
  function RootLost(lost: bool, depth: nat, segs: seq<Bytes>): (r: bool)
    decreases |segs|
  {
    if segs == [] then lost
    else if segs[0] == "." then RootLost(lost && depth > 0, depth, segs[1..])
    else if segs[0] == ".." then if depth == 0 then RootLost(true, 0, segs[1..])
      else RootLost(lost, depth - 1, segs[1..])
    else RootLost(lost, depth + 1, segs[1..])
  }

  /** While the root is not lost, resolvePath keeps an empty segment for it below the RFC's segments. */
  function Anchored(lost: bool, out: seq<Bytes>): (list: seq<Bytes>) {
    if lost then out else [[]] + out
  }

  function LostNext(lost: bool, depth: nat, elem: Bytes): (r: bool) {
    if elem == "." then lost && depth > 0 else if elem == ".." then lost || depth == 0 else lost
  }

  lemma NextTogether(lost: bool, out: seq<Bytes>, elem: Bytes)
    ensures Next(Anchored(lost, out), elem) == Anchored(LostNext(lost, |out|, elem), RfcNext(out, elem))
  {
    var g := Anchored(lost, out);
    if elem == ".." && !lost && out != [] {
      assert g[..|g| - 1] == [[]] + out[..|out| - 1];
    } else if !IsDot(elem) && !lost {
      assert g + [elem] == [[]] + (out + [elem]);
    }
  }

  lemma RootLostStep(lost: bool, out: seq<Bytes>, segs: seq<Bytes>)
    requires segs != []
    ensures RootLost(lost, |out|, segs) == RootLost(LostNext(lost, |out|, segs[0]), |RfcNext(out, segs[0])|, segs[1..])
  {
  }

  lemma {:induction false} WalksTogether(lost: bool, out: seq<Bytes>, segs: seq<Bytes>)
    ensures Walk(Anchored(lost, out), segs) == Anchored(RootLost(lost, |out|, segs), RfcWalk(out, segs))
    decreases |segs|
  {
    if segs != [] {
      NextTogether(lost, out, segs[0]);
      RootLostStep(lost, out, segs);
      WalksTogether(LostNext(lost, |out|, segs[0]), RfcNext(out, segs[0]), segs[1..]);
    }
  }

  lemma {:induction false} NeverEmpty(out: seq<Bytes>, segs: seq<Bytes>)
    requires segs != []
    ensures RfcOut(out, segs) != []
    decreases |segs|
  {
    if |segs| == 1 {
      RfcOutLast(out, segs[0]);
      assert segs == [segs[0]];
    } else {
      NeverEmpty(RfcNext(out, segs[0]), segs[1..]);
      RfcOutStep(out, segs);
    }
  }

  lemma {:induction false} RfcKeepsNoSlash(out: seq<Bytes>, segs: seq<Bytes>)
    requires NoSlash(out) && NoSlash(segs)
    ensures NoSlash(RfcWalk(out, segs))
    decreases |segs|
  {
    if segs != [] {
      NextHasNoSlash(out, segs[0]);
      TailHasNoSlash(segs);
      RfcKeepsNoSlash(RfcNext(out, segs[0]), segs[1..]);
    }
  }

  function WithLast(out: seq<Bytes>, last: Bytes): (list: seq<Bytes>) {
    if IsDot(last) then out + [[]] else out
  }

  lemma FinishedLost(out: seq<Bytes>, last: Bytes)
    requires NoSlash(out) && (out == [] ==> IsDot(last))
    ensures Finished(out, last) == OneSlash(Slashed(WithLast(out, last)))
  {
    var all := WithLast(out, last);
    FinishedIsKept(out, last);
    if out == [] {
      assert Slashed([[]]) == ['/'] by { SlashedSnoc([], []); }
      assert all == [[]];
    } else if |all| > 1 {
      StripFirst(all);
    } else {
      assert Slashed(all) == ['/'] + all[0];
      assert all[0] != [] ==> Slashed(all)[1] == all[0][0];
    }
  }

  lemma FinishedAtRoot(out: seq<Bytes>, last: Bytes)
    requires NoSlash(out) && (out == [] ==> IsDot(last))
    ensures Finished([[]] + out, last) == Slashed(WithLast(out, last))
  {
    FinishedIsKept([[]] + out, last);
    assert [[]] + out + [[]] == [[]] + (out + [[]]);
    assert ([[]] + WithLast(out, last))[1..] == WithLast(out, last);
  }

  /** What resolvePath writes for the RFC's segments. */
  lemma FinishedIsRfc(lost: bool, out: seq<Bytes>, last: Bytes)
    requires NoSlash(out) && (out == [] ==> IsDot(last))
    ensures var rfc := Slashed(out + if IsDot(last) then [[]] else []);
      Finished(Anchored(lost, out), last) == if lost then OneSlash(rfc) else rfc
  {
    assert out + [] == out;
    if lost { FinishedLost(out, last); } else { FinishedAtRoot(out, last); }
  }

  /** The merged path with the slash that resolvePath supplies, and whether it starts away from the root. */
  function Rooted(full: Bytes): (text: Bytes)
    requires full != []
  {
    if full[0] == '/' then full else ['/'] + full
  }

  predicate LeavesRoot(full: Bytes)
    requires full != []
  {
    RootLost(full[0] != '/', 0, Split(Rooted(full)[1..]))
  }

  /** resolvePath is the RFC's algorithm, except that it drops one of two leading slashes once the root was left. */
  lemma ResolveIsRfc(base: Bytes, ref: Bytes)
    requires Merged(base, ref) != []
    ensures var full := Merged(base, ref); var rfc := RemoveDots(Rooted(full), []);
      ResolvePath(base, ref) == if LeavesRoot(full) then OneSlash(rfc) else rfc
  {
    var full := Merged(base, ref);
    var segs := Split(Rooted(full)[1..]);
    RfcOfFull(full);
    WalksTogether(full[0] != '/', [], segs);
    RfcKeepsNoSlash([], segs);
    NeverEmpty([], segs);
    FinishedIsRfc(LeavesRoot(full), RfcWalk([], segs), segs[|segs| - 1]);
    WalkFromFull(full);
  }

  lemma RfcOfFull(full: Bytes)
    requires full != []
    ensures RemoveDots(Rooted(full), []) == Slashed(RfcOut([], Split(Rooted(full)[1..])))
  {
    var rest := Rooted(full)[1..];
    SplitIsSlashed(rest);
    assert ['/'] + rest == Rooted(full);
    DotsBySegments(Split(rest), []);
  }

  lemma WalkFromFull(full: Bytes)
    requires full != []
    ensures var segs := Split(Rooted(full)[1..]);
      && Walk([], Split(full)) == Walk(Anchored(full[0] != '/', []), segs)
      && Split(full)[|Split(full)| - 1] == segs[|segs| - 1]
  {
    if full[0] == '/' {
      assert full == [] + ['/'] + full[1..];
      SplitCons([], full[1..]);
      FirstPush(Split(full[1..]));
    } else {
      assert Rooted(full)[1..] == full;
    }
  }

  lemma FirstPush(segs: seq<Bytes>)
    ensures Walk([], [[]] + segs) == Walk([[]], segs)
    ensures Anchored(false, []) == [[]]
  {
    assert ([[]] + segs)[1..] == segs;
    assert Next([], []) == [[]];
  }

  /** Where section 5.2.4 of RFC 3986 and resolvePath agree. */
  lemma AgreesExactly(base: Bytes, ref: Bytes)
    requires Merged(base, ref) != []
    ensures var full := Merged(base, ref); var rfc := RemoveDots(Rooted(full), []);
      ResolvePath(base, ref) == rfc <==> !(LeavesRoot(full) && StartsWith(rfc, "//"))
  {
    ResolveIsRfc(base, ref);
    var full := Merged(base, ref);
    RfcOfFull(full);
    NeverEmpty([], Split(Rooted(full)[1..]));
    var rfc := RemoveDots(Rooted(full), []);
    assert rfc[0] == '/';
    assert |rfc| >= 2 ==> rfc[..2] == [rfc[0], rfc[1]];
  }

  /** "..//a", taken apart. */
  lemma ClimbingSegments(a: Bytes)
    requires '/' !in a
    ensures Split(".." + ['/'] + ([] + ['/'] + a)) == ["..", [], a]
  {
    var up: Bytes, none: Bytes := "..", [];
    SplitCons(up, none + ['/'] + a);
    SplitCons(none, a);
    SplitOne(a);
    assert [none] + [a] == [none, a];
    assert [up] + [none, a] == [up, none, a];
  }

  lemma RfcKeepsBoth(a: Bytes)
    requires '/' !in a && !IsDot(a)
    ensures RfcOut([], ["..", [], a]) == [[], a]
  {
    var s3: seq<Bytes>, s2: seq<Bytes>, s1 := ["..", [], a], [[], a], [a];
    assert s3[1..] == s2 && s2[1..] == s1 && s1[1..] == [];
    RfcOutStep([], s3);
    RfcOutStep([], s2);
    RfcOutLast([[]], a);
    assert RfcNext([], []) == [[]] && RfcNext([[]], a) == s2;
    assert s2 + [] == s2;
  }

  lemma LostOnce(a: Bytes, b: Bytes)
    requires !IsDot(a) && !IsDot(b)
    ensures RootLost(false, 0, ["..", a, b])
  {
    var s3: seq<Bytes>, s2, s1 := ["..", a, b], [a, b], [b];
    assert s3[1..] == s2 && s2[1..] == s1 && s1[1..] == [];
    assert RootLost(true, 2, []);
    assert RootLost(true, 1, s1);
    assert RootLost(true, 0, s2);
  }

  /** One family of paths on which they differ: the RFC keeps both slashes of "/..//a". */
  lemma DifferOnce(a: Bytes)
    requires '/' !in a && !IsDot(a)
    ensures var full := ['/'] + (".." + ['/'] + ([] + ['/'] + a));
      && RemoveDots(full, []) == ['/'] + (['/'] + a)
      && ResolvePath(full, []) == ['/'] + a
  {
    var rest := ".." + ['/'] + ([] + ['/'] + a);
    var full := ['/'] + rest;
    ClimbingSegments(a);
    assert full[1..] == rest;
    SplitIsSlashed(rest);
    DotsBySegments(["..", [], a], []);
    RfcKeepsBoth(a);
    LostOnce([], a);
    ResolveIsRfc(full, []);
    TwoSlashes(a);
  }

  lemma TwoSlashes(a: Bytes)
    ensures Slashed([[], a]) == ['/'] + (['/'] + a) && OneSlash(Slashed([[], a])) == ['/'] + a
  {
    SlashedSnoc([[]], a);
    SlashedSnoc([], []);
    var none: seq<Bytes> := [[]];
    assert none + [a] == [[], a] && [] + none == none;
    assert ['/'] + [] == ['/'] && [] + ['/'] == ['/'];
  }
}
