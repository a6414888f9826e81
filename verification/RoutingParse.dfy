/** parsePattern (http/pattern.go): the patterns it builds have the shape the tree relies on, and a pattern without
    wildcards matches its own text. */
module RoutingParse {
  import opened Options
  import opened GoBytes
  import opened UrlEscape
  import opened Strings
  import opened RoutingPattern
  import opened RoutingPrecedence

  datatype PatternError =
    | EmptyPattern | MissingSlash | HostContainsBrace | UncleanPath
    | MustStartWithBrace | MustEndWithBrace | DollarNotAtEnd | MultiNotAtEnd
    | EmptyWildcard | BadWildcardName | DuplicateWildcardName

  datatype ParseResult<T> = Parsed(value: T) | Rejected(error: PatternError)

  /** strings.CutSuffix(name, "...") */
  function CutDots(name: Bytes): (r: (Bytes, bool)) {
    if |name| >= 3 && name[|name| - 3..] == "..." then (name[..|name| - 3], true) else (name, false)
  }

  /** One path segment of the pattern text; isLast says that nothing follows it. validName is isValidWildcardName,
      which asks Unicode what a letter is. */
  function ParseSegment(text: Bytes, isLast: bool, seenNames: set<Bytes>,
    validName: Bytes -> bool): ParseResult<Segment>
  {
    if '{' !in text then Parsed(Segment(PathUnescape(text), false, false))
    else if text[0] != '{' then Rejected(MustStartWithBrace)
    else if text[|text| - 1] != '}' then Rejected(MustEndWithBrace)
    else
      var name := text[1..|text| - 1];
      if name == "$" then if isLast then Parsed(Segment("/", false, false)) else Rejected(DollarNotAtEnd)
      else
        var (base, multi) := CutDots(name);
        if multi && !isLast then Rejected(MultiNotAtEnd)
        else if base == [] then Rejected(EmptyWildcard)
        else if !validName(base) then Rejected(BadWildcardName)
        else if base in seenNames then Rejected(DuplicateWildcardName)
        else Parsed(Segment(base, true, multi))
  }

  /** The path of the pattern text, which is empty or begins with a slash. */
  function ParseSegments(rest: Bytes, seenNames: set<Bytes>, segs: seq<Segment>,
    validName: Bytes -> bool): ParseResult<seq<Segment>>
    decreases |rest|
  {
    if rest == [] then Parsed(segs)
    else if |rest| == 1 then Parsed(segs + [Segment([], true, true)])
    else
      var (text, after, found) := Cut(rest[1..], '/');
      match ParseSegment(text, !found, seenNames, validName)
      case Rejected(e) => Rejected(e)
      case Parsed(seg) =>
        ParseSegments(if found then ['/'] + after else [], if seg.wild then seenNames + {seg.s} else seenNames,
          segs + [seg], validName)
  }

  /** The method, the host and the path of the pattern text. isClean says that a path is its own cleanPath. */
  function PatternParts(s: Bytes, isClean: Bytes -> bool): (r: ParseResult<(Bytes, Bytes, Bytes)>) {
    if s == [] then Rejected(EmptyPattern)
    else
      var (first, second, found) := Cut(s, ' ');
      var verb, text := if found then first else [], if found then second else first;
      var (host, path, hasPath) := Cut(text, '/');
      if !hasPath then Rejected(MissingSlash)
      else if '{' in host then Rejected(HostContainsBrace)
      else if verb != [] && verb != "CONNECT" && !isClean(['/'] + path) then Rejected(UncleanPath)
      else Parsed((verb, host, ['/'] + path))
  }

  function ParsePattern(s: Bytes, isClean: Bytes -> bool, validName: Bytes -> bool): (r: ParseResult<Pattern>) {
    match PatternParts(s, isClean)
    case Rejected(e) => Rejected(e)
    case Parsed((verb, host, path)) =>
      match ParseSegments(path, {}, [], validName)
      case Rejected(e) => Rejected(e)
      case Parsed(segs) => Parsed(Pattern(verb, host, segs))
  }

  /** The loop of parsePattern: consumes rest, appends to segments and marks seenNames. */
  method ParseSegmentsInto(path: Bytes, validName: Bytes -> bool) returns (r: ParseResult<seq<Segment>>)
    ensures r == ParseSegments(path, {}, [], validName)
  {
    var rest: Bytes, seenNames: set<Bytes>, segments: seq<Segment> := path, {}, [];
    while |rest| > 0
      invariant ParseSegments(rest, seenNames, segments, validName) == ParseSegments(path, {}, [], validName)
      decreases |rest|
    {
      if |rest| == 1 {
        segments := segments + [Segment([], true, true)];
        return Parsed(segments);
      }
      var (text, after, found) := Cut(rest[1..], '/');
      rest := if found then ['/'] + after else [];
      if '{' !in text {
        segments := segments + [Segment(PathUnescape(text), false, false)];
        continue;
      }
      if text[0] != '{' {
        return Rejected(MustStartWithBrace);
      }
      if text[|text| - 1] != '}' {
        return Rejected(MustEndWithBrace);
      }
      var name := text[1..|text| - 1];
      if name == "$" {
        if |rest| != 0 {
          return Rejected(DollarNotAtEnd);
        }
        segments := segments + [Segment("/", false, false)];
        continue;
      }
      var (base, multi) := CutDots(name);
      if multi && |rest| != 0 {
        return Rejected(MultiNotAtEnd);
      }
      if base == [] {
        return Rejected(EmptyWildcard);
      }
      if !validName(base) {
        return Rejected(BadWildcardName);
      }
      if base in seenNames {
        return Rejected(DuplicateWildcardName);
      }
      seenNames := seenNames + {base};
      segments := segments + [Segment(base, true, multi)];
    }
    return Parsed(segments);
  }

  // ---- the shape of parsed patterns ----

  predicate DistinctNames(segs: seq<Segment>) {
    forall i, j :: 0 <= i < j < |segs| && segs[i].wild && segs[j].wild ==> segs[i].s != segs[j].s
  }

  /** The segments so far: no multi wildcard yet, and the names of the wildcards are those seen. */
  predicate SoFar(segs: seq<Segment>, seenNames: set<Bytes>) {
    && [] !in seenNames && DistinctNames(segs)
    && forall i :: 0 <= i < |segs| ==> !segs[i].multi && (segs[i].wild ==> segs[i].s in seenNames)
  }

  /** Whatever the text, a parsed pattern has segments, a multi wildcard only at the end, and distinct names:
      the panic of addSegments cannot happen. */
  lemma {:induction false} ParsedShape(rest: Bytes, seenNames: set<Bytes>, segs: seq<Segment>, validName: Bytes -> bool)
    requires SoFar(segs, seenNames)
    ensures match ParseSegments(rest, seenNames, segs, validName)
      case Rejected(_) => true
      case Parsed(all) => |all| >= |segs| && (rest != [] ==> |all| > |segs|) && MultiIsLast(all) && DistinctNames(all)
    decreases |rest|
  {
    if |rest| > 1 {
      var (text, after, found) := Cut(rest[1..], '/');
      var parsed := ParseSegment(text, !found, seenNames, validName);
      if parsed.Parsed? {
        var seg := parsed.value;
        var seen' := if seg.wild then seenNames + {seg.s} else seenNames;
        if seg.multi {
          assert !found;
        } else {
          ParsedShape(if found then ['/'] + after else [], seen', segs + [seg], validName);
        }
      }
    }
  }

  lemma ParsedPatternFitsTree(s: Bytes, isClean: Bytes -> bool, validName: Bytes -> bool)
    ensures match ParsePattern(s, isClean, validName)
      case Rejected(_) => true
      case Parsed(p) => p.segments != [] && MultiIsLast(p.segments) && DistinctNames(p.segments)
  {
    var parts := PatternParts(s, isClean);
    if parts.Parsed? {
      ParsedShape(parts.value.2, {}, [], validName);
    }
  }

  // ---- patterns without wildcards ----

  /** No segment of the path decodes to a slash, but for the trailing slash. */
  predicate NoHiddenSlash(path: Bytes)
    decreases |path|
  {
    path == [] || path == "/" || (FirstSegment(path).0 != "/" && NoHiddenSlash(FirstSegment(path).1))
  }

  /** The segments of a path read as a pattern without wildcards. */
  function Literals(path: Bytes): (list: seq<Segment>)
    decreases |path|
  {
    if path == [] then []
    else if path == "/" then [Segment([], true, true)]
    else [Segment(FirstSegment(path).0, false, false)] + Literals(FirstSegment(path).1)
  }

  lemma {:induction false} LiteralsAreParsed(path: Bytes, segs: seq<Segment>, validName: Bytes -> bool)
    requires '{' !in path && (path != [] ==> path[0] == '/')
    ensures ParseSegments(path, {}, segs, validName) == Parsed(segs + Literals(path))
    decreases |path|
  {
    if path == [] {
      assert segs + [] == segs;
    } else if |path| > 1 {
      var (name, rest) := FirstSegment(path);
      NoBraceInParts(path);
      LiteralsAreParsed(rest, segs + [Segment(name, false, false)], validName);
      RegroupSegments(segs, [Segment(name, false, false)], Literals(rest));
    }
  }

  lemma RegroupSegments(a: seq<Segment>, b: seq<Segment>, c: seq<Segment>)
    ensures (a + b) + c == a + (b + c)
  {
  }

  /** A path without braces is a pattern that matches itself, and binds nothing. */
  lemma {:induction false} LiteralsMatch(path: Bytes)
    requires NoHiddenSlash(path) && (path != [] ==> path[0] == '/')
    ensures Binds(Literals(path), path) == Some([])
    decreases |path|
  {
    if path != [] && path != "/" {
      var (name, rest) := FirstSegment(path);
      LiteralsMatch(rest);
      var segs := [Segment(name, false, false)] + Literals(rest);
      assert segs[0] == Segment(name, false, false) && segs[1..] == Literals(rest);
    }
  }

  lemma LiteralPatternMatchesItself(path: Bytes, validName: Bytes -> bool)
    requires '{' !in path && NoHiddenSlash(path) && path != [] && path[0] == '/'
    ensures var r := ParseSegments(path, {}, [], validName); r.Parsed? && Binds(r.value, path) == Some([])
  {
    LiteralsAreParsed(path, [], validName);
    LiteralsMatch(path);
    assert [] + Literals(path) == Literals(path);
  }

  lemma NoBraceInParts(path: Bytes)
    requires path != [] && '{' !in path
    ensures '{' !in Cut(path[1..], '/').0 && '{' !in Cut(path[1..], '/').1
  {
    var (text, after, found) := Cut(path[1..], '/');
    assert path == [path[0]] + path[1..];
    assert path[1..] == if found then text + ['/'] + after else text;
  }
}
