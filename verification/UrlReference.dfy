/** Path and RawPath of a URL, and ResolveReference (url/url.go). */
module UrlReference {
  import opened Options
  import opened GoBytes
  import opened UrlEscape
  import opened Strings
  import opened UrlPath
  import UrlAuthority

  predicate ValidByte(c: Byte, mode: Mode) {
    c in "!$&'()*+,;=:@" || c in "[]" || c == '%' || !ShouldEscape(c, mode)
  }

  predicate ValidEncoded(s: Bytes, mode: Mode) {
    forall k :: 0 <= k < |s| ==> ValidByte(s[k], mode)
  }

  /** EscapedPath of a URL with these two fields. */
  function EscapedPathOf(path: Bytes, rawPath: Bytes): (text: Bytes) {
    if rawPath != [] && ValidEncoded(rawPath, Path) && Unescape(rawPath, Path) == Ok(path) then rawPath
    else if path == "*" then "*"
    else Escape(path, Path)
  }

  /** Path and RawPath as setPath leaves them; None is its error. */
  function PathFields(p: Bytes): (r: Option<(Bytes, Bytes)>) {
    match Unescape(p, Path)
    case Err(_) => None
    case Ok(path) => Some((path, if p == Escape(path, Path) then [] else p))
  }

  // ---- setPath and EscapedPath ----

  /** A path that setPath takes and EscapedPath gives back. */
  predicate Fine(p: Bytes) {
    Check(p, Path) == None && ValidEncoded(p, Path)
  }

  lemma ValidConcat(a: Bytes, b: Bytes, mode: Mode)
    ensures ValidEncoded(a + b, mode) <==> ValidEncoded(a, mode) && ValidEncoded(b, mode)
  {
    if ValidEncoded(a + b, mode) {
      assert forall k :: 0 <= k < |a| ==> a[k] == (a + b)[k];
      assert forall k :: 0 <= k < |b| ==> b[k] == (a + b)[|a| + k];
    }
  }

  lemma {:induction false} EscapedIsFine(path: Bytes)
    ensures Fine(Escape(path, Path))
  {
    RoundTripExactly(path, Path);
    EscapedIsValid(path);
  }

  lemma {:induction false} EscapedIsValid(path: Bytes)
    ensures ValidEncoded(Escape(path, Path), Path)
  {
    if path != [] {
      EscapedIsValid(path[1..]);
      ValidConcat(EscapeByte(path[0], Path), Escape(path[1..], Path), Path);
    }
  }

  /** Whatever the fields hold, EscapedPath is well-formed. */
  lemma EscapedPathIsFine(path: Bytes, rawPath: Bytes)
    ensures Fine(EscapedPathOf(path, rawPath))
  {
    EscapedIsFine(path);
  }

  lemma StarEscaped()
    ensures Escape("*", Path) == "%2A" && Unescape("%2A", Path) == Ok("*")
  {
    RoundTripExactly("*", Path);
    var star: Bytes := "*";
    assert star[1..] == [];
    assert EscapeByte('*', Path) == "%2A";
    assert Escape(star, Path) == EscapeByte(star[0], Path) + [];
  }

  /** EscapedPath gives back what setPath was given, for valid encodings, except the escaped form of the special
      path "*". */
  lemma SetPathRoundTripExactly(p: Bytes)
    requires PathFields(p).Some?
    ensures var (path, rawPath) := PathFields(p).value;
      EscapedPathOf(path, rawPath) == p <==> ValidEncoded(p, Path) && p != "%2A"
  {
    var (path, rawPath) := PathFields(p).value;
    EscapedIsFine(path);
    StarEscaped();
    assert ValidEncoded("*", Path);
  }

  // ---- resolvePath keeps paths well-formed ----

  lemma FineAroundSlash(a: Bytes, b: Bytes)
    ensures Fine(a + ['/'] + b) <==> Fine(a) && Fine(b)
  {
    ValidConcat(a + ['/'], b, Path);
    ValidConcat(a, ['/'], Path);
    var slash: Bytes := ['/'];
    assert slash[1..] == [];
    assert Check(slash, Path) == None;
    if Check(a + ['/'] + b, Path) == None {
      CheckedBefore(a, '/', b, Path);
    }
    if Check(a, Path) == None {
      UnescapeConcat(a, ['/'], Path);
      UnescapeConcat(a + ['/'], b, Path);
    }
  }

  predicate AllFine(segs: seq<Bytes>) {
    forall k :: 0 <= k < |segs| ==> Fine(segs[k])
  }

  lemma {:induction false} SplitIsFine(s: Bytes)
    requires Fine(s)
    ensures AllFine(Split(s))
    decreases |s|
  {
    var (elem, rest, found) := Cut(s, '/');
    if found {
      FineAroundSlash(elem, rest);
      SplitIsFine(rest);
    }
  }

  lemma {:induction false} SlashedIsFine(segs: seq<Bytes>)
    requires AllFine(segs)
    ensures Fine(Slashed(segs))
  {
    if segs != [] {
      SlashedIsFine(segs[1..]);
      FineAroundSlash([], segs[0]);
      assert [] + ['/'] + segs[0] == ['/'] + segs[0];
      UnescapeConcat(['/'] + segs[0], Slashed(segs[1..]), Path);
      ValidConcat(['/'] + segs[0], Slashed(segs[1..]), Path);
    }
  }

  lemma {:induction false} WalkIsFine(stack: seq<Bytes>, segs: seq<Bytes>)
    requires AllFine(stack) && AllFine(segs)
    ensures AllFine(Walk(stack, segs))
    decreases |segs|
  {
    if segs != [] {
      assert Fine([]);
      WalkIsFine(Next(stack, segs[0]), segs[1..]);
    }
  }

  lemma MergedIsFine(base: Bytes, ref: Bytes)
    requires Fine(base) && Fine(ref)
    ensures Fine(Merged(base, ref))
  {
    var i := LastIndex(base, '/');
    if ref != [] && ref[0] != '/' {
      if i < 0 {
        assert base[..0] + ref == ref;
      } else {
        assert base == base[..i] + ['/'] + base[i + 1..];
        FineAroundSlash(base[..i], base[i + 1..]);
        FineAroundSlash(base[..i], ref);
        assert base[..i + 1] == base[..i] + ['/'];
      }
    }
  }

  lemma KeptIsFine(stack: seq<Bytes>, last: Bytes)
    requires AllFine(stack)
    ensures AllFine(Kept(stack, last))
  {
    assert Fine([]);
  }

  /** Well-formed paths resolve to a well-formed path. */
  lemma ResolveIsFine(base: Bytes, ref: Bytes)
    requires Fine(base) && Fine(ref)
    ensures Fine(ResolvePath(base, ref))
  {
    MergedIsFine(base, ref);
    var full := Merged(base, ref);
    if full != [] {
      var segs := Split(full);
      var stack, last := Walk([], segs), segs[|segs| - 1];
      SplitIsFine(full);
      WalkIsFine([], segs);
      WalkIsClean([], segs);
      FinishedIsKept(stack, last);
      KeptIsFine(stack, last);
      SlashedIsFine(Kept(stack, last));
    }
  }

  // ---- ResolveReference ----

  /** The fields of a URL. */
  datatype Fields = Fields(scheme: Bytes, opaquePart: Bytes, user: Option<UrlAuthority.Userinfo>, host: Bytes,
    path: Bytes, rawPath: Bytes, omitHost: bool, forceQuery: bool, rawQuery: Bytes, fragment: Bytes, rawFragment: Bytes)

  function EscapedPath(u: Fields): (text: Bytes) {
    EscapedPathOf(u.path, u.rawPath)
  }

  /** The fields after a setPath whose error is ignored. */
  function WithPath(u: Fields, p: Bytes): (r: Fields) {
    match PathFields(p)
    case None => u
    case Some((path, rawPath)) => u.(path := path, rawPath := rawPath)
  }

  /** A reference with a scheme or an authority keeps its own. */
  predicate IsRemote(ref: Fields) {
    ref.scheme != [] || ref.host != [] || ref.user.Some?
  }

  predicate IsOpaque(ref: Fields) {
    !IsRemote(ref) && ref.opaquePart != []
  }

  /** The answer but for the path of a reference that is not opaque. */
  function Inherited(u: Fields, ref: Fields): (r: Fields) {
    var url := if ref.scheme == [] then ref.(scheme := u.scheme) else ref;
    if IsRemote(ref) then url
    else if IsOpaque(ref) then url.(user := None, host := [], path := [])
    else
      var noQuery := ref.path == [] && !ref.forceQuery && ref.rawQuery == [];
      var url1 := if noQuery then url.(rawQuery := u.rawQuery) else url;
      var url2 := if noQuery && ref.fragment == [] then url1.(fragment := u.fragment, rawFragment := u.rawFragment)
        else url1;
      url2.(host := u.host, user := u.user)
  }

  function Resolve(u: Fields, ref: Fields): (r: Fields) {
    if IsOpaque(ref) then Inherited(u, ref) else WithPath(Inherited(u, ref), ResolvedText(u, ref))
  }

  /** What resolvePath computes for the answer, unless the reference is opaque. */
  function ResolvedText(u: Fields, ref: Fields): (text: Bytes) {
    if IsRemote(ref) then ResolvePath(EscapedPath(ref), []) else ResolvePath(EscapedPath(u), EscapedPath(ref))
  }

  /** The ignored errors of setPath never occur, and the answer's EscapedPath is exactly what resolvePath computed. */
  lemma ResolvedExactly(u: Fields, ref: Fields)
    requires !IsOpaque(ref)
    ensures PathFields(ResolvedText(u, ref)).Some?
    ensures EscapedPath(Resolve(u, ref)) == ResolvedText(u, ref)
    ensures var p := EscapedPath(Resolve(u, ref));
      p == [] || (p[0] == '/' && NoDots(Split(p)) && ResolvePath(p, []) == p)
  {
    EscapedPathIsFine(u.path, u.rawPath);
    EscapedPathIsFine(ref.path, ref.rawPath);
    assert Fine([]);
    if IsRemote(ref) {
      ResolvedIsKept(EscapedPath(ref), []);
    } else {
      ResolvedIsKept(EscapedPath(u), EscapedPath(ref));
    }
  }

  lemma ResolvedIsKept(base: Bytes, ref: Bytes)
    requires Fine(base) && Fine(ref)
    ensures var p := ResolvePath(base, ref);
      && PathFields(p).Some?
      && EscapedPathOf(PathFields(p).value.0, PathFields(p).value.1) == p
      && (p == [] || (p[0] == '/' && NoDots(Split(p)) && ResolvePath(p, []) == p))
  {
    ResolveIsFine(base, ref);
    ResultHasNoDots(base, ref);
    ResultIsFixed(base, ref);
    SetPathRoundTripExactly(ResolvePath(base, ref));
  }

  /** A URL, with the methods that assign its fields. */
  class URL {
    var scheme: Bytes
    var opaquePart: Bytes
    var user: Option<UrlAuthority.Userinfo>
    var host: Bytes
    var path: Bytes
    var rawPath: Bytes
    var omitHost: bool
    var forceQuery: bool
    var rawQuery: Bytes
    var fragment: Bytes
    var rawFragment: Bytes

    function State(): (r: Fields)
      reads this
    {
      Fields(scheme, opaquePart, user, host, path, rawPath, omitHost, forceQuery, rawQuery, fragment, rawFragment)
    }

    constructor (u: Fields)
      ensures State() == u
    {
      scheme, opaquePart, user, host := u.scheme, u.opaquePart, u.user, u.host;
      path, rawPath, omitHost := u.path, u.rawPath, u.omitHost;
      forceQuery, rawQuery, fragment, rawFragment := u.forceQuery, u.rawQuery, u.fragment, u.rawFragment;
    }

    method SetPath(p: Bytes) returns (err: Option<UrlEscape.Error>)
      modifies `path, `rawPath
      ensures err.Some? <==> PathFields(p).None?
      ensures State() == WithPath(old(State()), p)
    {
      var decoded := UnescapeInto(p, Path);
      if decoded.Err? {
        return Some(decoded.error);
      }
      path := decoded.value;
      var escp := EscapeInto(path, Path);
      if p == escp {
        rawPath := [];
      } else {
        rawPath := p;
      }
      return None;
    }

    /** The fields that a relative reference takes from the base. */
    method InheritFrom(base: URL)
      requires base != this && State().scheme == base.scheme
      modifies this
      ensures forall ref: Fields :: !IsRemote(ref) && !IsOpaque(ref) && old(State()) == ref.(scheme := base.scheme) ==>
        State() == Inherited(base.State(), ref)
    {
      if path == [] && !forceQuery && rawQuery == [] {
        rawQuery := base.rawQuery;
        if fragment == [] {
          fragment := base.fragment;
          rawFragment := base.rawFragment;
        }
      }
      host := base.host;
      user := base.user;
    }

    method ResolveReference(ref: URL) returns (url: URL)
      ensures fresh(url) && url.State() == Resolve(State(), ref.State())
    {
      url := new URL(ref.State());
      if ref.scheme == [] {
        url.scheme := scheme;
      }
      if ref.scheme != [] || ref.host != [] || ref.user.Some? {
        ResolvedExactly(State(), ref.State());
        var p := ResolvePathInto(EscapedPath(ref.State()), []);
        var err := url.SetPath(p);
        assert err == None;
        return url;
      }
      if ref.opaquePart != [] {
        url.user := None;
        url.host := [];
        url.path := [];
        return url;
      }
      url.InheritFrom(this);
      ResolvedExactly(State(), ref.State());
      var p := ResolvePathInto(EscapedPath(State()), EscapedPath(ref.State()));
      var err := url.SetPath(p);
      assert err == None;
    }
  }
}
