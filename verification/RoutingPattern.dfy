/** Request paths and ServeMux patterns (http/pattern.go, http/routing_tree.go), and what it means for one to match
    the other. */
module RoutingPattern {
  import opened Options
  import opened GoBytes
  import opened UrlEscape
  import opened Strings

  /** A pattern segment, as parsePattern builds it: a literal, "{name}", "{name...}" or, for "{$}", the literal "/". */
  datatype Segment = Segment(s: Bytes, wild: bool, multi: bool)

  datatype Pattern = Pattern(verb: Bytes, host: Bytes, segments: seq<Segment>)

  /** pathUnescape: text that is not a valid escaping stands for itself. */
  function PathUnescape(path: Bytes): (text: Bytes) {
    match Unescape(path, PathSegment)
    case Ok(u) => u
    case Err(_) => path
  }

  function FirstSegment(path: Bytes): (r: (Bytes, Bytes))
    requires path != []
    ensures |r.1| < |path| && (r.1 == [] || r.1[0] == '/')
  {
    if path == "/" then ("/", [])
    else
      var (name, rest, found) := Cut(path[1..], '/');
      (PathUnescape(name), if found then ['/'] + rest else [])
  }

  // ---- well-formed patterns ----

  /** The key a segment has in the tree. */
  function Key(seg: Segment): (text: Bytes) {
    if seg.multi then "*" else if seg.wild then [] else seg.s
  }

  function Keys(segs: seq<Segment>): (list: seq<Bytes>) {
    seq(|segs|, i requires 0 <= i < |segs| => Key(segs[i]))
  }

  /** Only a last segment may be a multi wildcard; parsePattern sees to it. */
  predicate MultiIsLast(segs: seq<Segment>) {
    forall i :: 0 <= i < |segs| - 1 ==> !segs[i].multi
  }

  /** What every parsed pattern is. */
  predicate Shaped(segs: seq<Segment>) {
    segs != [] && MultiIsLast(segs)
  }

  predicate IsLiteral(seg: Segment) {
    !seg.wild && !seg.multi
  }

  /** No literal is read as a wildcard when its pattern is found: none is "", and the last one is not "*". */
  predicate Clean(segs: seq<Segment>) {
    forall i :: 0 <= i < |segs| && IsLiteral(segs[i]) ==> segs[i].s != [] && (i == |segs| - 1 ==> segs[i].s != "*")
  }

  /** A literal that does not collide with the tree's special keys; "/" is "{$}" and comes last. */
  predicate PlainLiteral(s: Bytes, isLast: bool) {
    s != [] && s != "*" && (s == "/" ==> isLast)
  }

  predicate WellFormed(segs: seq<Segment>) {
    && segs != []
    && forall i :: 0 <= i < |segs| ==>
         var seg := segs[i]; var isLast := i == |segs| - 1;
         if seg.multi then isLast else seg.wild || PlainLiteral(seg.s, isLast)
  }

  lemma WellFormedIsClean(segs: seq<Segment>)
    requires WellFormed(segs)
    ensures Shaped(segs) && Clean(segs)
  {
  }

  // ---- matching, pattern by pattern ----

  /** The values of the named wildcards of segs on path; None when the segments do not match the path. */
  function Binds(segs: seq<Segment>, path: Bytes): (r: Option<seq<Bytes>>)
    decreases |segs|
  {
    if segs == [] then if path == [] then Some([]) else None
    else if path == [] then None
    else
      var seg := segs[0];
      if seg.multi then
        if |segs| > 1 then None
        else Some(if seg.s == [] then [] else [PathUnescape(path[1..])])
      else
        var (name, rest) := FirstSegment(path);
        if seg.wild then
          if path == "/" then None
          else match Binds(segs[1..], rest)
            case None => None
            case Some(values) => Some([name] + values)
        else if seg.s == "/" then if path == "/" then Binds(segs[1..], rest) else None
        else if path == "/" || name != seg.s then None
        else Binds(segs[1..], rest)
  }

  /** How specific a segment is: literals before single wildcards before multi wildcards. */
  function Rank(seg: Segment): (n: nat) {
    if seg.multi then 2 else if seg.wild then 1 else 0
  }

  /** a comes before b in the precedence order: position by position, the more specific first. */
  predicate Precedes(a: seq<Segment>, b: seq<Segment>) {
    || a == [] || b == []
    || Rank(a[0]) < Rank(b[0])
    || (Rank(a[0]) == Rank(b[0]) && Precedes(a[1..], b[1..]))
  }

  /** No decoded segment of the path is one of the tree's special keys, but for a real trailing slash
      and for a "*" that is not the last segment. */
  predicate Unreserved(path: Bytes)
    decreases |path|
  {
    if path == [] || path == "/" then true
    else
      var (name, rest) := FirstSegment(path);
      name != [] && name != "/" && (rest == [] ==> name != "*") && Unreserved(rest)
  }
}
