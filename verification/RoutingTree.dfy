/** The decision tree of ServeMux (http/routing_tree.go) as a value: insertion, search, and the search's agreement with
    a scan of all registered patterns. */
module RoutingTree {
  import opened Options
  import opened GoBytes
  import opened UrlEscape
  import opened Strings
  import opened RoutingPattern

  /** A node: its pattern, and its children by key; the key "" is emptyChild. */
  datatype Tree = Tree(leaf: Option<Pattern>, kids: map<Bytes, Tree>)

  const EMPTY := Tree(None, map[])

  const SLASH: Bytes := "/"

  // ---- registration ----

  function Kid(t: Tree, key: Bytes): (tree: Tree) {
    if key in t.kids then t.kids[key] else EMPTY
  }

  function WithKid(t: Tree, key: Bytes, kid: Tree): (tree: Tree) {
    t.(kids := t.kids[key := kid])
  }

  /** set; false is its panic. */
  function SetLeaf(t: Tree, p: Pattern): (r: (Tree, bool)) {
    if t.leaf.Some? then (t, false) else (t.(leaf := Some(p)), true)
  }

  /** addSegments; false is a panic, which leaves the nodes added so far. */
  function AddSegments(t: Tree, segs: seq<Segment>, p: Pattern): (r: (Tree, bool))
    decreases |segs|
  {
    if segs == [] then SetLeaf(t, p)
    else if segs[0].multi && |segs| != 1 then (t, false)
    else
      var key := Key(segs[0]);
      var (kid, ok) := AddSegments(Kid(t, key), segs[1..], p);
      (WithKid(t, key, kid), ok)
  }

  function AddPattern(t: Tree, p: Pattern): (r: (Tree, bool)) {
    var host := Kid(t, p.host);
    var (paths, ok) := AddSegments(Kid(host, p.verb), p.segments, p);
    (WithKid(t, p.host, WithKid(host, p.verb, paths)), ok)
  }

  // ---- search ----

  /** A node with its values, no node, or the nil dereference of c.pattern.lastSegment(). */
  datatype Answer = Nothing | Found(pattern: Pattern, values: seq<Bytes>) | Crash

  /** matchPath on the child with this key. */
  function SearchKid(t: Tree, key: Bytes, path: Bytes, matches: seq<Bytes>): (r: Answer)
    decreases |path|, 1
  {
    if key in t.kids then Search(t.kids[key], path, matches) else Nothing
  }

  /** The last step of matchPath: the multi wildcard's child, whether or not it has a pattern. */
  function SearchMulti(t: Tree, path: Bytes, matches: seq<Bytes>): (r: Answer)
    requires path != []
  {
    if "*" !in t.kids then Nothing
    else match t.kids["*"].leaf
      case None => Crash
      case Some(p) => Found(p, if LastName(p) != [] then matches + [PathUnescape(path[1..])] else matches)
  }

  /** matchPath on a node. */
  function Search(t: Tree, path: Bytes, matches: seq<Bytes>): (r: Answer)
    decreases |path|, 0
  {
    if path == [] then
      match t.leaf
      case None => Nothing
      case Some(p) => Found(p, matches)
    else
      var (name, rest) := FirstSegment(path);
      var literal := SearchKid(t, name, rest, matches);
      if literal != Nothing then literal
      else
        var single := if name != "/" then SearchKid(t, [], rest, matches + [name]) else Nothing;
        if single != Nothing then single else SearchMulti(t, path, matches)
  }

  function LastName(p: Pattern): (text: Bytes) {
    if p.segments == [] then [] else p.segments[|p.segments| - 1].s
  }

  /** matchMethodAndPath on the child with this host. */
  function SearchMethod(t: Tree, host: Bytes, verb: Bytes, path: Bytes): (r: Answer) {
    if host !in t.kids then Nothing
    else
      var n := t.kids[host];
      var exact := SearchKid(n, verb, path, []);
      if exact != Nothing then exact
      else
        var get := if verb == "HEAD" then SearchKid(n, "GET", path, []) else Nothing;
        if get != Nothing then get else SearchKid(n, [], path, [])
  }

  /** match */
  function Match(t: Tree, host: Bytes, verb: Bytes, path: Bytes): (r: Answer) {
    var hosted := if host != [] then SearchMethod(t, host, verb, path) else Nothing;
    if hosted != Nothing then hosted else SearchMethod(t, [], verb, path)
  }

  // ---- where the special keys do no harm ----

  /** The node at the end of a path of keys. */
  function NodeAt(t: Tree, keys: seq<Bytes>): (r: Option<Tree>)
    decreases |keys|
  {
    if keys == [] then Some(t)
    else if keys[0] in t.kids then NodeAt(t.kids[keys[0]], keys[1..])
    else None
  }

  predicate HasLeaf(t: Tree, key: Bytes) {
    key in t.kids && t.kids[key].leaf.Some?
  }

  /** Whatever is left of the path, a literal or a single wildcard below this node catches it. */
  predicate Catches(t: Tree) {
    HasLeaf(t, "/") && HasLeaf(t, []) && ("*" in t.kids[[]].kids || Catches(t.kids[[]]))
  }

  /** A node whose children lead to patterns that are read as they were written: only below the multi wildcard's key
      may there be another one, or none, and then the search must never get there. */
  predicate Fine(t: Tree) {
    && (forall key :: key in t.kids && key != "*" && t.kids[key].leaf.Some? ==> Clean(t.kids[key].leaf.value.segments))
    && ("*" in t.kids && (t.kids["*"].leaf == None || !Clean(t.kids["*"].leaf.value.segments)) ==> Catches(t))
  }

  /** Every node that a path can lead to is fine; nothing leads past a "/" in the middle. */
  ghost predicate Harmless(t: Tree) {
    forall keys :: SLASH !in keys && NodeAt(t, keys).Some? ==> Fine(NodeAt(t, keys).value)
  }
}
