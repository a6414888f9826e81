/** The authority of a URL (url/url.go): user information and host, as they are written and as they are parsed. */
module UrlAuthority {
  import opened Options
  import opened GoBytes
  import opened UrlEscape
  import opened Strings

  datatype Userinfo = Userinfo(username: Bytes, password: Bytes, passwordSet: bool)

  datatype AuthorityError = BadUserinfo | BadHost | BadText(error: UrlEscape.Error)

  datatype HostResult = ParsedHost(host: Bytes) | HostError(error: AuthorityError)

  datatype AuthorityResult = Authority(user: Option<Userinfo>, host: Bytes) | AuthorityError(error: AuthorityError)

  /** Userinfo.String of a non-nil user. */
  function UserText(u: Userinfo): (text: Bytes) {
    Escape(u.username, UserPassword) + if u.passwordSet then [':'] + Escape(u.password, UserPassword) else []
  }

  predicate ValidUserinfo(s: Bytes) {
    forall c :: c in s ==> IsAlnum(c) || c in "-._:~!$&'()*+,;=%@"
  }

  predicate Digits(s: Bytes) {
    forall c :: c in s ==> '0' <= c <= '9'
  }

  predicate ValidOptionalPort(port: Bytes) {
    port == [] || (port[0] == ':' && Digits(port[1..]))
  }

  /** The result of the plain host branch and of each piece of a zoned address. */
  function Unescaped(s: Bytes, mode: Mode): (r: HostResult) {
    match Unescape(s, mode)
    case Ok(h) => ParsedHost(h)
    case Err(e) => HostError(BadText(e))
  }

  /** A zoned address: the part before the zone, the zone and the rest are unescaped in their own modes. */
  function ZonedHost(before: Bytes, zone: Bytes, rest: Bytes): (r: HostResult) {
    var host1 := Unescaped(before, Host);
    if host1.HostError? then host1
    else
      var host2 := Unescaped(zone, Zone);
      if host2.HostError? then host2
      else
        var host3 := Unescaped(rest, Host);
        if host3.HostError? then host3
        else ParsedHost(host1.host + host2.host + host3.host)
  }

  /** How parseHost takes its text apart: not at all, not at all usefully, or around the zone of an address
      in brackets. */
  datatype HostShape = Malformed | Whole | Zoned(zone: nat, close: nat)

  function ShapeOf(host: Bytes): (r: HostShape)
    ensures r.Zoned? ==> r.zone + 3 <= r.close < |host| && host[r.zone..r.close][..3] == "%25"
  {
    if host != [] && host[0] == '[' then
      var i := LastIndex(host, ']');
      if i < 0 then Malformed
      else if !ValidOptionalPort(host[i + 1..]) then Malformed
      else
        var zone := Index(host[..i], "%25");
        assert zone >= 0 ==> host[zone..i] == host[..i][zone..];
        if zone >= 0 then Zoned(zone, i) else Whole
    else
      var i := LastIndex(host, ':');
      if i >= 0 && !ValidOptionalPort(host[i..]) then Malformed else Whole
  }

  function ParseHost(host: Bytes): (r: HostResult) {
    match ShapeOf(host)
    case Malformed => HostError(BadHost)
    case Whole => Unescaped(host, Host)
    case Zoned(zone, close) => ZonedHost(host[..zone], host[zone..close], host[close..])
  }

  function ParseUser(text: Bytes): (r: (Option<Userinfo>, Option<AuthorityError>))
  {
    if !ValidUserinfo(text) then (None, Some(BadUserinfo))
    else if ':' !in text then
      match Unescape(text, UserPassword)
      case Err(e) => (None, Some(BadText(e)))
      case Ok(name) => (Some(Userinfo(name, [], false)), None)
    else
      var (rawName, rawPassword, _) := Cut(text, ':');
      match Unescape(rawName, UserPassword)
      case Err(e) => (None, Some(BadText(e)))
      case Ok(name) =>
        match Unescape(rawPassword, UserPassword)
        case Err(e) => (None, Some(BadText(e)))
        case Ok(password) => (Some(Userinfo(name, password, true)), None)
  }

  function ParseAuthority(authority: Bytes): (r: AuthorityResult) {
    var i := LastIndex(authority, '@');
    match ParseHost(if i < 0 then authority else authority[i + 1..])
    case HostError(e) => AuthorityError(e)
    case ParsedHost(h) =>
      if i < 0 then Authority(None, h)
      else
        var (user, err) := ParseUser(authority[..i]);
        if err.Some? then AuthorityError(err.value) else Authority(user, h)
  }

  // ---- user information ----

  lemma {:induction false} EscapedUserText(s: Bytes)
    ensures var t := Escape(s, UserPassword); ValidUserinfo(t) && ':' !in t && '@' !in t
  {
    if s != [] {
      EscapedUserText(s[1..]);
    }
  }

  lemma ReadName(t: Bytes, name: Bytes)
    requires ValidUserinfo(t) && ':' !in t && Unescape(t, UserPassword) == Ok(name)
    ensures ParseUser(t) == (Some(Userinfo(name, [], false)), None)
  {
  }

  lemma ReadPair(t1: Bytes, t2: Bytes, name: Bytes, password: Bytes)
    requires ValidUserinfo(t1) && ':' !in t1 && Unescape(t1, UserPassword) == Ok(name)
    requires ValidUserinfo(t2) && Unescape(t2, UserPassword) == Ok(password)
    ensures ParseUser(t1 + [':'] + t2) == (Some(Userinfo(name, password, true)), None)
  {
    CutAt(t1, ':', t2);
    var t := t1 + [':'] + t2;
    assert t[|t1|] == ':';
    assert ValidUserinfo(t);
  }

  /** Reading back what Userinfo.String wrote gives the user, without a password that was not set. */
  lemma UserRoundTrip(u: Userinfo)
    ensures ParseUser(UserText(u)) == (Some(if u.passwordSet then u else u.(password := [])), None)
  {
    var t1, t2 := Escape(u.username, UserPassword), Escape(u.password, UserPassword);
    EscapedUserText(u.username);
    EscapedUserText(u.password);
    RoundTripExactly(u.username, UserPassword);
    RoundTripExactly(u.password, UserPassword);
    if u.passwordSet {
      ReadPair(t1, t2, u.username, u.password);
      Regroup(t1, [':'], t2);
    } else {
      ReadName(t1, u.username);
      assert t1 + [] == t1;
    }
  }

  // ---- what a parsed host is made of ----

  /** A byte that stands for itself in a host, or that is not ASCII. */
  predicate HostByte(c: Byte) {
    c as int >= 0x80 || !ShouldEscape(c, Host)
  }

  predicate HostBytes(s: Bytes) {
    forall c :: c in s ==> HostByte(c)
  }

  predicate ZoneBytes(s: Bytes) {
    forall c :: c in s ==> HostByte(c) || c == '%' || c == ' '
  }

  lemma {:induction false} DecodedHost(s: Bytes)
    requires Check(s, Host) == None
    ensures forall c :: c in Decode(s, Host) ==> HostByte(c) || c == '%'
  {
    if s != [] {
      DecodedHost(s[Width(s)..]);
    }
  }

  lemma {:induction false} RawHost(s: Bytes)
    requires Check(s, Host) == None
    ensures forall c :: c in s ==> HostByte(c) || c == '%'
  {
    if s != [] {
      RawHost(s[Width(s)..]);
      assert s == s[..Width(s)] + s[Width(s)..];
    }
  }

  lemma {:induction false} DecodedPlainHost(s: Bytes)
    requires Check(s, Host) == None && Index(s, "%25") < 0
    ensures HostBytes(Decode(s, Host))
  {
    if s != [] {
      if HexPair(s) {
        assert s[..3] != "%25";
        SkipPair(s);
        DecodedPlainHost(s[3..]);
      } else {
        DecodedPlainHost(s[1..]);
      }
    }
  }

  /** The search for "%25" passes over any other escape. */
  lemma SkipPair(s: Bytes)
    requires HexPair(s) && s[..3] != "%25"
    ensures Index(s, "%25") == if Index(s[3..], "%25") < 0 then -1 else 3 + Index(s[3..], "%25")
  {
    assert s[1..][1..] == s[2..] && s[2..][1..] == s[3..];
    assert |s| >= 4 ==> s[1..][..3][0] == s[1];
    assert |s| >= 5 ==> s[2..][..3][0] == s[2];
  }

  lemma {:induction false} DecodedZone(s: Bytes)
    requires Check(s, Zone) == None
    ensures ZoneBytes(Decode(s, Zone))
  {
    if s != [] {
      DecodedZone(s[Width(s)..]);
      DecodedZoneByte(s);
    }
  }

  lemma DecodedZoneByte(s: Bytes)
    requires s != [] && Check(s, Zone) == None
    ensures var c := Decode(s, Zone)[0]; HostByte(c) || c == '%' || c == ' '
    ensures Decode(s, Zone) == [Decode(s, Zone)[0]] + Decode(s[Width(s)..], Zone)
    ensures Check(s[Width(s)..], Zone) == None
  {
    if HexPair(s) && s[..3] == "%25" {
      assert s[..3][1] == '2' && s[..3][2] == '5';
    }
  }

  // ---- writing a parsed host and parsing it again ----

  /** Text without anything to escape stays as it is both ways. */
  lemma {:induction false} Untouched(s: Bytes)
    requires forall i :: 0 <= i < |s| ==> !ShouldEscape(s[i], Host)
    ensures Escape(s, Host) == s && Check(s, Host) == None && Decode(s, Host) == s
  {
    if s != [] {
      Untouched(s[1..]);
      assert s == [s[0]] + s[1..];
      assert s[0] != '%';
    }
  }

  lemma {:induction false} NeverDecoded(s: Bytes, c: Byte)
    requires Check(s, Host) == None && c !in s && c as int < 0x80 && c != '%'
    ensures c !in Decode(s, Host)
  {
    if s != [] {
      NeverDecoded(s[Width(s)..], c);
    }
  }

  lemma {:induction false} NeverWritten(s: Bytes, c: Byte)
    requires c !in s && c != '%' && !IsHex(c)
    ensures c !in Escape(s, Host)
  {
    if s != [] {
      NeverWritten(s[1..], c);
    }
  }

  /** Only the bracket itself begins with a bracket. */
  lemma SameBracket(s: Bytes)
    requires Check(s, Host) == None
    ensures var h := Decode(s, Host); (s != [] && s[0] == '[') <==> (h != [] && h[0] == '[')
  {
    if s != [] && HexPair(s) {
      assert PairValue(s) as int == 0x25 || PairValue(s) as int >= 0x80;
    }
  }

  lemma BracketWritten(s: Bytes)
    ensures var e := Escape(s, Host); (s != [] && s[0] == '[') <==> (e != [] && e[0] == '[')
  {
  }

  lemma {:induction false} NoZoneWritten(s: Bytes)
    requires HostBytes(s)
    ensures Index(Escape(s, Host), "%25") < 0
  {
    if s != [] {
      NoZoneWritten(s[1..]);
      WrittenByte(s[0], Escape(s[1..], Host));
    }
  }

  /** The search for "%25" passes over any written byte but the percent sign. */
  lemma WrittenByte(c: Byte, t: Bytes)
    requires HostByte(c)
    ensures var w := EscapeByte(c, Host);
      Index(w + t, "%25") == if Index(t, "%25") < 0 then -1 else |w| + Index(t, "%25")
  {
    var w := EscapeByte(c, Host);
    assert (w + t)[|w|..] == t;
    if |w| == 3 {
      assert (w + t)[1] == w[1] == UpperHex(c as int / 16);
      assert (w + t)[..3] == w && w[1] != '2';
      SkipPair(w + t);
    } else {
      assert w == [c] && (w + t)[0] == c && c != '%';
      assert |w + t| >= 3 ==> (w + t)[..3][0] == c;
    }
  }

  lemma {:induction false} ZoneWritten(s: Bytes, t: Bytes)
    requires HostBytes(s) && |t| >= 3 && t[..3] == "%25"
    ensures Index(Escape(s, Host) + t, "%25") == |Escape(s, Host)|
  {
    if s == [] {
      assert [] + t == t;
    } else {
      ZoneWritten(s[1..], t);
      WrittenByte(s[0], Escape(s[1..], Host) + t);
      Regroup(EscapeByte(s[0], Host), Escape(s[1..], Host), t);
    }
  }

  lemma {:induction false} NothingBefore(s: Bytes)
    requires Index(s, "%25") >= 0
    ensures Index(s[..Index(s, "%25")], "%25") < 0
  {
    var k := Index(s, "%25");
    if k > 0 {
      NothingBefore(s[1..]);
      assert s[..k][1..] == s[1..][..k - 1];
      assert k >= 3 ==> s[..k][..3] == s[..3];
    }
  }

  lemma {:induction false} EscapeForZone(s: Bytes)
    ensures Escape(s, Host) == Escape(s, Zone)
  {
    if s != [] {
      EscapeForZone(s[1..]);
    }
  }

  predicate Ascii(s: Bytes) {
    forall c :: c in s ==> c as int < 0x80
  }

  lemma AsciiConcat(a: Bytes, b: Bytes)
    ensures Ascii(a + b) <==> Ascii(a) && Ascii(b)
  {
    if Ascii(a + b) {
      assert forall c :: c in a ==> c in a + b;
      assert forall c :: c in b ==> c in a + b;
    }
  }

  lemma {:induction false} AsciiZone(s: Bytes)
    requires Check(s, Zone) == None
    ensures Ascii(s) <==> Ascii(Decode(s, Zone))
  {
    if s != [] {
      var w, front := Width(s), Decode(s, Zone)[..1];
      AsciiZone(s[w..]);
      SameFront(s, s, Zone);
      AsciiConcat(s[..w], s[w..]);
      AsciiConcat(front, Decode(s[w..], Zone));
      assert s[..w] + s[w..] == s;
      AsciiFront(s);
    }
  }

  lemma AsciiFront(s: Bytes)
    requires s != [] && Check(s, Zone) == None
    ensures Ascii(s[..Width(s)]) <==> Ascii(Decode(s, Zone)[..1])
  {
    if HexPair(s) {
      assert Decode(s, Zone)[..1] == [PairValue(s)] && s[..3] == [s[0], s[1], s[2]];
      assert PairValue(s) as int < 0x80;
    } else {
      assert Decode(s, Zone)[..1] == s[..1];
    }
  }

  /** A port, or the closing bracket and what may follow it. */
  predicate IsTail(tail: Bytes) {
    tail != [] && if tail[0] == ']' then ValidOptionalPort(tail[1..]) else ValidOptionalPort(tail)
  }

  /** A host text, cut where its tail begins. */
  lemma TailStays(a: Bytes, tail: Bytes)
    requires IsTail(tail)
    requires Check(a + tail, Host) == None
    ensures Check(a, Host) == None && Decode(a + tail, Host) == Decode(a, Host) + tail
    ensures Escape(Decode(a, Host) + tail, Host) == Escape(Decode(a, Host), Host) + tail
  {
    assert a + tail == a + [tail[0]] + tail[1..];
    CheckedBefore(a, tail[0], tail[1..], Host);
    UnescapeConcat(a, tail, Host);
    PlainTail(tail);
    EscapeConcat(Decode(a, Host), tail, Host);
  }

  lemma PlainTail(tail: Bytes)
    requires IsTail(tail)
    ensures Escape(tail, Host) == tail && Check(tail, Host) == None && Decode(tail, Host) == tail
  {
    forall i | 0 <= i < |tail| ensures !ShouldEscape(tail[i], Host) {
      if i > 0 { assert tail[i] == tail[1..][i - 1] && tail[i] in tail[1..]; }
      if i > 1 { assert tail[i] == tail[1..][1..][i - 2] && tail[i] in tail[1..][1..]; }
    }
    Untouched(tail);
  }

  lemma PortHasNoDelimiter(port: Bytes)
    requires ValidOptionalPort(port)
    ensures ']' !in port && (port != [] ==> ':' !in port[1..])
  {
    if port != [] {
      assert port == [port[0]] + port[1..];
    }
  }

  lemma PlainShape(e: Bytes)
    requires e == [] || e[0] != '['
    requires ':' in e ==> LastIndex(e, ':') >= 0 && ValidOptionalPort(e[LastIndex(e, ':')..])
    ensures ShapeOf(e) == Whole
  {
  }

  lemma PortAgain(a: Bytes, tail: Bytes, h: Bytes)
    requires ValidOptionalPort(tail) && tail != [] && Unescape(a + tail, Host) == Ok(h)
    ensures var e := Escape(h, Host); LastIndex(e, ':') >= 0 && e[LastIndex(e, ':')..] == tail
  {
    var a', e := Escape(Decode(a, Host), Host), Escape(h, Host);
    TailStays(a, tail);
    PortHasNoDelimiter(tail);
    assert e == a' + tail && e[|a'| + 1..] == tail[1..] && e[|a'|..] == tail;
    LastIndexAt(e, |a'|, ':');
  }

  lemma PlainHostAgain(host: Bytes, h: Bytes)
    requires host == [] || host[0] != '['
    requires ParseHost(host) == ParsedHost(h)
    ensures ParseHost(Escape(h, Host)) == ParsedHost(h)
  {
    DecodedHost(host);
    HostAgain(h);
    SameBracket(host);
    BracketWritten(h);
    var i := LastIndex(host, ':');
    if i < 0 {
      assert ':' !in host;
      NeverDecoded(host, ':');
      NeverWritten(h, ':');
    } else {
      assert host == host[..i] + host[i..];
      PortAgain(host[..i], host[i..], h);
    }
    PlainShape(Escape(h, Host));
  }

  /** The zone of an address in brackets as it stands in the text, from its "%25" to the closing bracket. */
  function ZonePart(host: Bytes): (text: Bytes) {
    match ShapeOf(host)
    case Zoned(zone, close) => host[zone..close]
    case _ => []
  }

  lemma BracketCut(front: Bytes, tail: Bytes)
    requires front != [] && front[0] == '[' && IsTail(tail) && tail[0] == ']'
    ensures var host := front + tail;
      && LastIndex(host, ']') == |front|
      && host[..|front|] == front && host[|front|..] == tail && host[|front| + 1..] == tail[1..]
  {
    var host := front + tail;
    PortHasNoDelimiter(tail[1..]);
    assert host[|front| + 1..] == tail[1..];
    LastIndexAt(host, |front|, ']');
  }

  /** The shape of text in brackets, by its parts. */
  lemma BracketShape(front: Bytes, tail: Bytes)
    requires front != [] && front[0] == '[' && IsTail(tail) && tail[0] == ']'
    ensures ShapeOf(front + tail) == if Index(front, "%25") < 0 then Whole else Zoned(Index(front, "%25"), |front|)
  {
    BracketCut(front, tail);
  }

  lemma ZonedPieces(a: Bytes, z: Bytes, tail: Bytes)
    requires Check(a, Host) == None && IsTail(tail)
    ensures ZonedHost(a, z, tail) ==
      if Check(z, Zone) == None then ParsedHost(Decode(a, Host) + Decode(z, Zone) + tail)
      else HostError(BadText(Check(z, Zone).value))
  {
    PlainTail(tail);
  }

  lemma Pieces(a: Bytes, z: Bytes, tail: Bytes)
    ensures (a + z + tail)[..|a|] == a && (a + z + tail)[|a|..|a + z|] == z && (a + z + tail)[|a + z|..] == tail
  {
  }

  lemma HostAgain(h: Bytes)
    requires forall c :: c in h ==> HostByte(c) || c == '%'
    ensures Unescape(Escape(h, Host), Host) == Ok(h)
  {
    RoundTripExactly(h, Host);
    assert forall i :: 0 <= i < |h| ==> h[i] in h;
  }

  lemma UnzonedHostAgain(a: Bytes, tail: Bytes, h: Bytes)
    requires a != [] && a[0] == '[' && Index(a, "%25") < 0
    requires IsTail(tail) && tail[0] == ']' && Unescape(a + tail, Host) == Ok(h)
    ensures ParseHost(Escape(h, Host)) == ParsedHost(h)
  {
    var A := Decode(a, Host);
    TailStays(a, tail);
    DecodedPlainHost(a);
    SameBracket(a);
    BracketWritten(A);
    NoZoneWritten(A);
    BracketShape(Escape(A, Host), tail);
    DecodedHost(a + tail);
    HostAgain(h);
  }

  lemma ZoneStart(z: Bytes)
    requires |z| >= 3 && z[..3] == "%25" && Check(z, Zone) == None
    ensures var t := Escape(Decode(z, Zone), Host); |t| >= 3 && t[..3] == "%25"
  {
    assert z[..3] == [z[0], z[1], z[2]];
    assert PairValue(z) == '%';
    assert Decode(z, Zone)[0] == '%';
    assert EscapeByte('%', Host) == "%25";
  }

  /** The zone's own text survives exactly when all of it is ASCII. */
  lemma ZoneAgain(z: Bytes)
    requires Check(z, Zone) == None
    ensures Unescape(Escape(Decode(z, Zone), Host), Zone) == Ok(Decode(z, Zone)) <==> Ascii(z)
  {
    var Z := Decode(z, Zone);
    DecodedZone(z);
    AsciiZone(z);
    RoundTripExactly(Z, Zone);
    EscapeForZone(Z);
    ZoneReescapable(Z);
  }

  lemma ZoneReescapable(s: Bytes)
    requires ZoneBytes(s)
    ensures (forall i :: 0 <= i < |s| ==> Reescapable(s[i], Zone)) <==> Ascii(s)
  {
    if Ascii(s) {
      forall i | 0 <= i < |s| ensures Reescapable(s[i], Zone) {
        assert s[i] in s;
      }
    } else {
      var c :| c in s && c as int >= 0x80;
      var i :| 0 <= i < |s| && s[i] == c;
      assert !Reescapable(s[i], Zone);
    }
  }

  lemma ZonedHostAgain(a: Bytes, z: Bytes, tail: Bytes)
    requires a != [] && a[0] == '[' && Index(a, "%25") < 0 && Check(a, Host) == None
    requires |z| >= 3 && z[..3] == "%25" && Check(z, Zone) == None
    requires IsTail(tail) && tail[0] == ']'
    ensures var h := Decode(a, Host) + Decode(z, Zone) + tail;
      ParseHost(Escape(h, Host)) == ParsedHost(h) <==> Ascii(z)
  {
    var A, Z := Decode(a, Host), Decode(z, Zone);
    var A', Z' := Escape(A, Host), Escape(Z, Host);
    DecodedPlainHost(a);
    HostAgain(A);
    ZoneStart(z);
    ZoneAgain(z);
    SameBracket(a);
    BracketWritten(A);
    ZoneWritten(A, Z');
    BracketShape(A' + Z', tail);
    Pieces(A', Z', tail);
    ZonedPieces(A', Z', tail);
    PlainTail(tail);
    EscapeConcat(A + Z, tail, Host);
    EscapeConcat(A, Z, Host);
    SamePieces(A, Z, Decode(Z', Zone), tail);
  }

  lemma SamePieces(a: Bytes, z: Bytes, z': Bytes, tail: Bytes)
    ensures a + z + tail == a + z' + tail <==> z == z'
  {
    if a + z + tail == a + z' + tail {
      assert |z| == |z'|;
      assert z == (a + z + tail)[|a|..|a| + |z|];
      assert z' == (a + z' + tail)[|a|..|a| + |z'|];
    }
  }

  /** The parts of text in brackets that parses. */
  lemma PartsOf(host: Bytes)
    requires host != [] && host[0] == '[' && !ShapeOf(host).Malformed?
    ensures var i := LastIndex(host, ']');
      && i > 0 && host[..i][0] == '[' && IsTail(host[i..]) && host[i] == ']' && host[..i] + host[i..] == host
      && ShapeOf(host) == var zone := Index(host[..i], "%25"); if zone < 0 then Whole else Zoned(zone, i)
  {
    var i := LastIndex(host, ']');
    assert host[i..][1..] == host[i + 1..];
  }

  lemma ZonedParts(host: Bytes, zone: nat, i: nat)
    requires host != [] && host[0] == '[' && i == LastIndex(host, ']') && ShapeOf(host) == Zoned(zone, i)
    ensures zone > 0 && host[..zone][0] == '[' && Index(host[..zone], "%25") < 0
    ensures IsTail(host[i..]) && host[i] == ']'
  {
    PartsOf(host);
    NothingBefore(host[..i]);
    assert host[..zone] == host[..i][..zone];
  }

  lemma PiecesAgain(a: Bytes, z: Bytes, tail: Bytes, h: Bytes)
    requires a != [] && a[0] == '[' && Index(a, "%25") < 0
    requires |z| >= 3 && z[..3] == "%25" && IsTail(tail) && tail[0] == ']'
    requires ZonedHost(a, z, tail) == ParsedHost(h)
    ensures ParseHost(Escape(h, Host)) == ParsedHost(h) <==> Ascii(z)
  {
    ZonedPieces(a, z, tail);
    ZonedHostAgain(a, z, tail);
  }

  lemma ZonedTextAgain(host: Bytes, h: Bytes, zone: nat, i: nat)
    requires host != [] && host[0] == '[' && i == LastIndex(host, ']') && ShapeOf(host) == Zoned(zone, i)
    requires ParseHost(host) == ParsedHost(h)
    ensures ParseHost(Escape(h, Host)) == ParsedHost(h) <==> Ascii(host[zone..i])
  {
    ZonedParts(host, zone, i);
    PiecesAgain(host[..zone], host[zone..i], host[i..], h);
  }

  lemma BracketHostAgain(host: Bytes, h: Bytes)
    requires host != [] && host[0] == '['
    requires ParseHost(host) == ParsedHost(h)
    ensures ParseHost(Escape(h, Host)) == ParsedHost(h) <==> Ascii(ZonePart(host))
  {
    PartsOf(host);
    var i := LastIndex(host, ']');
    match ShapeOf(host)
    case Whole => UnzonedHostAgain(host[..i], host[i..], h);
    case Zoned(zone, _) => ZonedTextAgain(host, h, zone, i);
    case _ =>
  }

  /** A host that parses, written by URL.String, parses to the same host again, unless its zone holds a raw
      non-ASCII byte. */
  lemma HostRoundTripExactly(host: Bytes, h: Bytes)
    requires ParseHost(host) == ParsedHost(h)
    ensures ParseHost(Escape(h, Host)) == ParsedHost(h) <==> Ascii(ZonePart(host))
  {
    if host != [] && host[0] == '[' {
      BracketHostAgain(host, h);
    } else {
      PlainHostAgain(host, h);
    }
  }

  /** A host with a raw byte c in its zone. */
  function RawZoneHost(c: Byte): (text: Bytes) {
    "[fe80::1" + ("%25" + [c]) + "]"
  }

  lemma AddressIsPlain()
    ensures var a: Bytes := "[fe80::1";
      HostBytes(a) && Check(a, Host) == None && Decode(a, Host) == a && Escape(a, Host) == a
  {
    var a: Bytes := "[fe80::1";
    assert HostBytes(a);
    Untouched(a);
  }

  /** What String writes for the zone is no zone. */
  lemma WrittenRawZone(c: Byte)
    requires c as int >= 0x80
    ensures var t := Escape(['%', c], Host); |t| >= 3 && t[..3] == "%25" && Check(t, Zone).Some?
  {
    var pair := EscapeByte(c, Host);
    var t := Escape(['%', c], Host);
    assert ['%', c][1..] == [c] && Escape([c], Host) == pair + [];
    assert EscapeByte('%', Host) == "%25";
    assert t == "%25" + pair && t[3..] == pair && pair == ['%', UpperHex(c as int / 16), UpperHex(c as int % 16)];
    assert PairValue(pair) == c;
    assert pair[..3] == pair && pair[1] != '2';
    assert Check(pair, Zone).Some?;
  }

  /** The failing side is inhabited: every non-ASCII byte makes such a host, which parses, while what String
      writes for it is an error. */
  lemma RawZoneIsLost(c: Byte)
    requires c as int >= 0x80
    ensures var h := "[fe80::1" + ['%', c] + "]";
      ParseHost(RawZoneHost(c)) == ParsedHost(h) && ParseHost(Escape(h, Host)).HostError?
  {
    AddressIsPlain();
    RawZoneDecodes(c);
    WrittenRawZone(c);
    var a: Bytes, tail: Bytes := "[fe80::1", "]";
    ZonedTexts(a, "%25" + [c], tail);
    ZonedTexts(a, Escape(['%', c], Host), tail);
    EscapeThree(a, ['%', c], tail);
  }

  lemma RawZoneDecodes(c: Byte)
    requires c as int >= 0x80
    ensures var z := "%25" + [c]; Check(z, Zone) == None && Decode(z, Zone) == ['%', c]
  {
    var z := "%25" + [c];
    assert z[3..] == [c] && z[..3] == "%25" && PairValue(z) == '%';
    assert Check([c], Zone) == None && Decode([c], Zone) == [c];
  }

  lemma EscapeThree(a: Bytes, z: Bytes, tail: Bytes)
    requires Escape(a, Host) == a && tail == "]"
    ensures Escape(a + z + tail, Host) == a + Escape(z, Host) + tail
  {
    EscapeConcat(a + z, tail, Host);
    EscapeConcat(a, z, Host);
    Untouched(tail);
  }

  lemma ZonedTexts(a: Bytes, z: Bytes, tail: Bytes)
    requires HostBytes(a) && Escape(a, Host) == a && Check(a, Host) == None && a != [] && a[0] == '['
    requires |z| >= 3 && z[..3] == "%25" && tail == "]"
    ensures ParseHost(a + z + tail) ==
      if Check(z, Zone) == None then ParsedHost(Decode(a, Host) + Decode(z, Zone) + tail)
      else HostError(BadText(Check(z, Zone).value))
  {
    ZoneWritten(a, z);
    BracketShape(a + z, tail);
    Pieces(a, z, tail);
    ZonedPieces(a, z, tail);
  }

  // ---- the whole authority ----

  lemma RawHostNoAt(s: Bytes)
    requires Unescaped(s, Host).ParsedHost?
    ensures '@' !in s
  {
    RawHost(s);
    assert !HostByte('@');
  }

  lemma PiecesHaveNoAt(a: Bytes, z: Bytes, tail: Bytes)
    requires ZonedHost(a, z, tail).ParsedHost?
    ensures '@' !in a && '@' !in z && '@' !in tail
  {
    RawHostNoAt(a);
    RawZone(z);
    RawHostNoAt(tail);
  }

  lemma HostHasNoAt(host: Bytes)
    requires ParseHost(host).ParsedHost?
    ensures '@' !in host
  {
    match ShapeOf(host)
    case Whole => RawHostNoAt(host);
    case Zoned(zone, close) =>
      PiecesHaveNoAt(host[..zone], host[zone..close], host[close..]);
      NotInPieces(host, zone, close, '@');
    case _ =>
  }

  lemma NotInPieces(s: Bytes, i: nat, j: nat, c: Byte)
    requires i <= j <= |s| && c !in s[..i] && c !in s[i..j] && c !in s[j..]
    ensures c !in s
  {
    forall k | 0 <= k < |s| ensures s[k] != c {
      if k < i { assert s[k] == s[..i][k]; }
      else if k < j { assert s[k] == s[i..j][k - i]; }
      else { assert s[k] == s[j..][k - j]; }
    }
  }

  lemma {:induction false} RawZone(s: Bytes)
    requires Check(s, Zone) == None
    ensures '@' !in s
  {
    if s != [] {
      RawZone(s[Width(s)..]);
      assert s == s[..Width(s)] + s[Width(s)..];
    }
  }

  /** parseAuthority splits at the user information that Userinfo.String wrote, whatever bytes the user and
      password hold. */
  lemma AuthorityRoundTrip(u: Userinfo, host: Bytes)
    ensures var r := ParseAuthority(UserText(u) + ['@'] + host);
      match ParseHost(host)
      case ParsedHost(h) => r == Authority(Some(if u.passwordSet then u else u.(password := [])), h)
      case HostError(_) => '@' in host || r.AuthorityError?
  {
    var text := UserText(u) + ['@'] + host;
    if ParseHost(host).ParsedHost? {
      HostHasNoAt(host);
    }
    if '@' !in host {
      assert text[|UserText(u)| + 1..] == host && text[..|UserText(u)|] == UserText(u);
      LastIndexAt(text, |UserText(u)|, '@');
      UserRoundTrip(u);
    }
  }

  /** The authority part of URL.String for a URL with a user: parsing it gives the same user and host back. */
  lemma WrittenAuthorityIsRead(u: Userinfo, text: Bytes, host: Bytes)
    requires ParseHost(text) == ParsedHost(host) && (u.passwordSet || u.password == [])
    ensures ParseAuthority(UserText(u) + ['@'] + Escape(host, Host)) == Authority(Some(u), host) <==>
      Ascii(ZonePart(text))
  {
    AuthorityRoundTrip(u, Escape(host, Host));
    HostRoundTripExactly(text, host);
    if !Ascii(ZonePart(text)) && ParseHost(Escape(host, Host)).HostError? {
      WrittenHasNoAt(host);
    }
  }

  lemma {:induction false} WrittenHasNoAt(s: Bytes)
    ensures '@' !in Escape(s, Host)
  {
    if s != [] {
      WrittenHasNoAt(s[1..]);
    }
  }
}
