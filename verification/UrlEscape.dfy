/** Percent-encoding (url/url.go): the escape and unescape functions, their loops, and how they undo each other. */
module UrlEscape {
  import opened Options
  import opened GoBytes

  datatype Mode = Path | PathSegment | Host | Zone | UserPassword | QueryComponent | Fragment

  datatype Error = EscapeError(text: Bytes) | InvalidHostError(text: Bytes)

  datatype Result = Ok(value: Bytes) | Err(error: Error)

  predicate IsAlnum(c: Byte) {
    'a' <= c <= 'z' || 'A' <= c <= 'Z' || '0' <= c <= '9'
  }

  predicate ShouldEscape(c: Byte, mode: Mode) {
    if IsAlnum(c) then false
    else if (mode.Host? || mode.Zone?) && c in "!$&'()*+,;=:[]<>\"" then false
    else if c in "-_.~" then false
    else if c in "$&+,/:;=?@" && !mode.Host? && !mode.Zone? then
      match mode
      case Path => c == '?'
      case PathSegment => c in "/;,?"
      case UserPassword => c in "@/?:"
      case QueryComponent => true
      case Fragment => false
    else if mode.Fragment? && c in "!()*" then false
    else true
  }

  // ---- escape ----

  function EscapeByte(c: Byte, mode: Mode): (t: Bytes)
    ensures |t| == 1 || |t| == 3
  {
    if c == ' ' && mode.QueryComponent? then ['+']
    else if ShouldEscape(c, mode) then ['%', UpperHex(c as int / 16), UpperHex(c as int % 16)]
    else [c]
  }

  function Escape(s: Bytes, mode: Mode): (text: Bytes) {
    if s == [] then [] else EscapeByte(s[0], mode) + Escape(s[1..], mode)
  }

  lemma {:induction false} EscapeConcat(s: Bytes, t: Bytes, mode: Mode)
    ensures Escape(s + t, mode) == Escape(s, mode) + Escape(t, mode)
  {
    if s == [] {
      assert s + t == t;
    } else {
      EscapeConcat(s[1..], t, mode);
      assert (s + t)[1..] == s[1..] + t;
      Regroup(EscapeByte(s[0], mode), Escape(s[1..], mode), Escape(t, mode));
    }
  }

  /** How many bytes of s take three bytes when escaped. */
  function HexCount(s: Bytes, mode: Mode): (n: nat) {
    if s == [] then 0
    else (if ShouldEscape(s[0], mode) && !(s[0] == ' ' && mode.QueryComponent?) then 1 else 0) + HexCount(s[1..], mode)
  }

  function SpaceCount(s: Bytes, mode: Mode): (n: nat) {
    if s == [] then 0
    else (if s[0] == ' ' && mode.QueryComponent? then 1 else 0) + SpaceCount(s[1..], mode)
  }

  lemma {:induction false} EscapedLength(s: Bytes, mode: Mode)
    ensures |Escape(s, mode)| == |s| + 2 * HexCount(s, mode)
  {
    if s != [] {
      EscapedLength(s[1..], mode);
    }
  }

  lemma {:induction false} EscapeNothing(s: Bytes, mode: Mode)
    requires HexCount(s, mode) == 0
    ensures |Escape(s, mode)| == |s|
    ensures forall i :: 0 <= i < |s| ==> Escape(s, mode)[i] == if s[i] == ' ' && mode.QueryComponent? then '+' else s[i]
    ensures SpaceCount(s, mode) == 0 ==> Escape(s, mode) == s
    ensures !mode.QueryComponent? ==> SpaceCount(s, mode) == 0
    ensures !mode.QueryComponent? ==> ' ' !in s
  {
    if s != [] {
      EscapeNothing(s[1..], mode);
      assert s == [s[0]] + s[1..];
    }
  }

  /** The counting pass of escape. */
  method CountEscapes(s: Bytes, mode: Mode) returns (spaceCount: nat, hexCount: nat)
    ensures spaceCount == SpaceCount(s, mode) && hexCount == HexCount(s, mode)
  {
    spaceCount, hexCount := 0, 0;
    for i := 0 to |s|
      invariant spaceCount + SpaceCount(s[i..], mode) == SpaceCount(s, mode)
      invariant hexCount + HexCount(s[i..], mode) == HexCount(s, mode)
    {
      if ShouldEscape(s[i], mode) {
        if s[i] == ' ' && mode.QueryComponent? {
          spaceCount := spaceCount + 1;
        } else {
          hexCount := hexCount + 1;
        }
      }
      assert s[i..][1..] == s[i + 1..];
    }
  }

  /** copy(t, s), then every space becomes a plus sign. */
  method FillSpaces(s: Bytes, t: array<Byte>)
    requires t.Length == |s|
    modifies t
    ensures forall k :: 0 <= k < |s| ==> t[k] == if s[k] == ' ' then '+' else s[k]
  {
    for i := 0 to |s|
      invariant forall k :: 0 <= k < i ==> t[k] == s[k]
    {
      t[i] := s[i];
    }
    for i := 0 to |s|
      invariant forall k :: 0 <= k < i ==> t[k] == if s[k] == ' ' then '+' else s[k]
      invariant forall k :: i <= k < |s| ==> t[k] == s[k]
    {
      if s[i] == ' ' {
        t[i] := '+';
      }
    }
  }

  lemma EscapeStep(s: Bytes, i: nat, mode: Mode)
    requires i < |s|
    ensures Escape(s[i..], mode) == EscapeByte(s[i], mode) + Escape(s[i + 1..], mode)
  {
    assert s[i..][1..] == s[i + 1..];
  }

  /** The body of that loop: one byte of the string, one or three bytes of the buffer. */
  method WriteEscaped(c: Byte, mode: Mode, t: array<Byte>, at: nat) returns (j: nat)
    requires at + |EscapeByte(c, mode)| <= t.Length
    modifies t
    ensures j == at + |EscapeByte(c, mode)| && t[..j] == old(t[..at]) + EscapeByte(c, mode)
  {
    j := at;
    if c == ' ' && mode.QueryComponent? {
      t[j] := '+';
      j := j + 1;
    } else if ShouldEscape(c, mode) {
      t[j] := '%';
      t[j + 1] := UpperHex(c as int / 16);
      t[j + 2] := UpperHex(c as int % 16);
      j := j + 3;
    } else {
      t[j] := c;
      j := j + 1;
    }
  }

  /** The general filling loop of escape; it ends exactly at the end of the buffer. */
  method FillEscaped(s: Bytes, mode: Mode, t: array<Byte>)
    requires t.Length == |Escape(s, mode)|
    modifies t
    ensures t[..] == Escape(s, mode)
  {
    var j := 0;
    for i := 0 to |s|
      invariant 0 <= j && j + |Escape(s[i..], mode)| == t.Length
      invariant t[..j] + Escape(s[i..], mode) == Escape(s, mode)
    {
      EscapeStep(s, i, mode);
      Regroup(t[..j], EscapeByte(s[i], mode), Escape(s[i + 1..], mode));
      j := WriteEscaped(s[i], mode, t, j);
    }
    assert t[..] == t[..j];
  }

  /** escape, with its two fast paths and its exactly sized buffer. */
  method EscapeInto(s: Bytes, mode: Mode) returns (r: Bytes)
    ensures r == Escape(s, mode)
  {
    var spaceCount, hexCount := CountEscapes(s, mode);
    EscapedLength(s, mode);
    if spaceCount == 0 && hexCount == 0 {
      EscapeNothing(s, mode);
      return s;
    }
    var t := new Byte[|s| + 2 * hexCount];
    if hexCount == 0 {
      EscapeNothing(s, mode);
      FillSpaces(s, t);
      return t[..];
    }
    FillEscaped(s, mode, t);
    return t[..];
  }

  // ---- unescape ----

  predicate HexPair(s: Bytes) {
    |s| >= 3 && s[0] == '%' && IsHex(s[1]) && IsHex(s[2])
  }

  function PairValue(s: Bytes): (c: Byte)
    requires HexPair(s)
    ensures c as int == 16 * UnHex(s[1]) + UnHex(s[2])
  {
    (16 * UnHex(s[1]) + UnHex(s[2])) as char
  }

  /** Whether the mode forbids the escaped byte at the front of s. */
  predicate Forbidden(s: Bytes, mode: Mode)
    requires HexPair(s)
  {
    || (mode.Host? && UnHex(s[1]) < 8 && s[..3] != "%25")
    || (mode.Zone? && s[..3] != "%25" && PairValue(s) != ' ' && ShouldEscape(PairValue(s), Host))
  }

  /** The first pass: the first malformed or forbidden piece of s, if any. */
  function Check(s: Bytes, mode: Mode): (r: Option<Error>) {
    if s == [] then None
    else if s[0] == '%' then
      if !HexPair(s) then Some(EscapeError(if |s| > 3 then s[..3] else s))
      else if Forbidden(s, mode) then Some(EscapeError(s[..3]))
      else Check(s[3..], mode)
    else if s[0] != '+' && (mode.Host? || mode.Zone?) && s[0] as int < 0x80 && ShouldEscape(s[0], mode) then
      Some(InvalidHostError(s[..1]))
    else Check(s[1..], mode)
  }

  /** The second pass. */
  function Decode(s: Bytes, mode: Mode): (text: Bytes) {
    if s == [] then []
    else if HexPair(s) then [PairValue(s)] + Decode(s[3..], mode)
    else [if s[0] == '+' && mode.QueryComponent? then ' ' else s[0]] + Decode(s[1..], mode)
  }

  function Unescape(s: Bytes, mode: Mode): (r: Result) {
    match Check(s, mode)
    case Some(e) => Err(e)
    case None => Ok(Decode(s, mode))
  }

  lemma {:induction false} DecodeNothing(s: Bytes, mode: Mode)
    requires '%' !in s && (mode.QueryComponent? ==> '+' !in s)
    ensures Decode(s, mode) == s
  {
    if s != [] {
      DecodeNothing(s[1..], mode);
      assert s == [s[0]] + s[1..];
    }
  }

  /** One turn of the validating pass at position i. */
  lemma CheckStep(s: Bytes, i: nat, mode: Mode)
    requires i < |s|
    ensures HexPair(s[i..]) <==> s[i] == '%' && i + 2 < |s| && IsHex(s[i + 1]) && IsHex(s[i + 2])
    ensures s[i] == '%' && !HexPair(s[i..]) ==>
      Check(s[i..], mode) == Some(EscapeError(if |s[i..]| > 3 then s[i..][..3] else s[i..]))
    ensures HexPair(s[i..]) ==> s[i..][..3] == s[i..i + 3]
    ensures HexPair(s[i..]) ==>
      Check(s[i..], mode) == if Forbidden(s[i..], mode) then Some(EscapeError(s[i..i + 3])) else Check(s[i + 3..], mode)
    ensures s[i] != '%' ==>
      Check(s[i..], mode) == if s[i] != '+' && (mode.Host? || mode.Zone?) && s[i] as int < 0x80
        && ShouldEscape(s[i], mode)
                             then Some(InvalidHostError(s[i..i + 1])) else Check(s[i + 1..], mode)
  {
    assert s[i..][1..] == s[i + 1..] && s[i..][..1] == s[i..i + 1];
    if HexPair(s[i..]) {
      assert s[i..][3..] == s[i + 3..];
    }
  }

  /** The restrictions on what may be escaped in a host and in a zone. */
  method IsForbidden(s: Bytes, i: nat, mode: Mode) returns (forbidden: bool)
    requires i < |s| && HexPair(s[i..])
    ensures forbidden == Forbidden(s[i..], mode)
  {
    assert s[i..][..3] == s[i..i + 3];
    if mode.Host? && UnHex(s[i + 1]) < 8 && s[i..i + 3] != "%25" {
      return true;
    }
    if mode.Zone? {
      var v := (16 * UnHex(s[i + 1]) + UnHex(s[i + 2])) as char;
      if s[i..i + 3] != "%25" && v != ' ' && ShouldEscape(v, Host) {
        return true;
      }
    }
    return false;
  }

  /** The validating pass of unescape. `plain` is "no percent sign and no plus sign that stands for a space". */
  method Validate(s: Bytes, mode: Mode) returns (e: Option<Error>, plain: bool)
    ensures e == Check(s, mode)
    ensures e == None && plain ==> '%' !in s && (mode.QueryComponent? ==> '+' !in s)
  {
    var n, hasPlus := 0, false;
    var i := 0;
    while i < |s|
      invariant 0 <= i <= |s| && Check(s[i..], mode) == Check(s, mode)
      invariant 0 <= n && (n == 0 ==> forall k :: 0 <= k < i ==> s[k] != '%')
      invariant n == 0 && !hasPlus && mode.QueryComponent? ==> forall k :: 0 <= k < i ==> s[k] != '+'
      decreases |s| - i
    {
      CheckStep(s, i, mode);
      if s[i] == '%' {
        n := n + 1;
        if i + 2 >= |s| || !IsHex(s[i + 1]) || !IsHex(s[i + 2]) {
          return Some(EscapeError(if |s[i..]| > 3 then s[i..][..3] else s[i..])), false;
        }
        var forbidden := IsForbidden(s, i, mode);
        if forbidden {
          return Some(EscapeError(s[i..i + 3])), false;
        }
        i := i + 3;
      } else if s[i] == '+' {
        hasPlus := mode.QueryComponent?;
        i := i + 1;
      } else {
        if (mode.Host? || mode.Zone?) && s[i] as int < 0x80 && ShouldEscape(s[i], mode) {
          return Some(InvalidHostError(s[i..i + 1])), false;
        }
        i := i + 1;
      }
    }
    return None, n == 0 && !hasPlus;
  }

  /** How many bytes of s the decoding pass consumes for one byte. */
  function Width(s: Bytes): (n: nat)
    requires s != []
  {
    if HexPair(s) then 3 else 1
  }

  lemma DecodeStep(s: Bytes, i: nat, mode: Mode)
    requires i < |s| && Check(s[i..], mode) == None
    ensures i + Width(s[i..]) <= |s|
    ensures Decode(s[i..], mode) == Decode(s[i..], mode)[..1] + Decode(s[i + Width(s[i..])..], mode)
    ensures Check(s[i + Width(s[i..])..], mode) == None
    ensures s[i] == '%' <==> HexPair(s[i..])
  {
    CheckedPairs(s[i..], mode);
    assert s[i..][Width(s[i..])..] == s[i + Width(s[i..])..];
  }

  /** The byte that the first byte or escape of s stands for. */
  function FrontByte(s: Bytes, mode: Mode): (r: Byte)
    requires s != []
  {
    if HexPair(s) then PairValue(s) else if s[0] == '+' && mode.QueryComponent? then ' ' else s[0]
  }

  lemma DecodeFront(s: Bytes, mode: Mode)
    requires s != []
    ensures Width(s) <= |s| && Decode(s, mode) == [FrontByte(s, mode)] + Decode(s[Width(s)..], mode)
    ensures Decode(s, mode)[..1] == [FrontByte(s, mode)]
  {
  }

  /** The body of that loop: the byte that position i stands for, and how far it reaches. */
  method DecodeByte(s: Bytes, i: nat, mode: Mode) returns (c: Byte, next: nat)
    requires i < |s| && Check(s[i..], mode) == None
    ensures c == FrontByte(s[i..], mode) && next == i + Width(s[i..]) <= |s|
  {
    DecodeStep(s, i, mode);
    if s[i] == '%' {
      return (16 * UnHex(s[i + 1]) + UnHex(s[i + 2])) as char, i + 3;
    }
    return if s[i] == '+' && mode.QueryComponent? then ' ' else s[i], i + 1;
  }

  /** The decoding pass of unescape. */
  method DecodeInto(s: Bytes, mode: Mode) returns (t: Bytes)
    requires Check(s, mode) == None
    ensures t == Decode(s, mode)
  {
    t := [];
    var i := 0;
    while i < |s|
      invariant 0 <= i <= |s| && Check(s[i..], mode) == None
      invariant t + Decode(s[i..], mode) == Decode(s, mode)
      decreases |s| - i
    {
      DecodeStep(s, i, mode);
      DecodeFront(s[i..], mode);
      var c, next := DecodeByte(s, i, mode);
      Regroup(t, [c], Decode(s[next..], mode));
      t := t + [c];
      i := next;
    }
  }

  /** unescape, with its validating pass and its fast path. */
  method UnescapeInto(s: Bytes, mode: Mode) returns (r: Result)
    ensures r == Unescape(s, mode)
  {
    var e, plain := Validate(s, mode);
    if e.Some? {
      return Err(e.value);
    }
    if plain {
      DecodeNothing(s, mode);
      return Ok(s);
    }
    var t := DecodeInto(s, mode);
    return Ok(t);
  }

  lemma CheckedPairs(s: Bytes, mode: Mode)
    ensures Check(s, mode) == None && s != [] && s[0] == '%' ==> HexPair(s)
  {
  }

  lemma SameWidth(s: Bytes, s': Bytes, mode: Mode)
    requires s != [] && Check(s, mode) == None
    requires Width(s) <= |s'| && s'[..Width(s)] == s[..Width(s)]
    ensures Width(s') == Width(s) && s'[0] == s[0]
    ensures HexPair(s) ==> s'[1] == s[1] && s'[2] == s[2] && s'[..3] == s[..3]
  {
    CheckedPairs(s, mode);
    assert s'[0] == s'[..Width(s)][0] == s[0];
    if HexPair(s) {
      assert s'[1] == s'[..3][1] == s[1] && s'[2] == s'[..3][2] == s[2];
    }
  }

  lemma CheckFront(s: Bytes, s': Bytes, mode: Mode)
    requires s != [] && Check(s, mode) == None
    requires Width(s) <= |s'| && s'[..Width(s)] == s[..Width(s)]
    ensures Check(s', mode) == Check(s'[Width(s)..], mode) && Check(s[Width(s)..], mode) == None
  {
    SameWidth(s, s', mode);
    CheckedPairs(s, mode);
  }

  /** What the first byte or escape of s contributes does not depend on what follows it. */
  lemma SameFront(s: Bytes, s': Bytes, mode: Mode)
    requires s != [] && Check(s, mode) == None
    requires Width(s) <= |s'| && s'[..Width(s)] == s[..Width(s)]
    ensures Width(s') == Width(s)
    ensures Check(s', mode) == Check(s'[Width(s)..], mode)
    ensures Check(s[Width(s)..], mode) == None
    ensures Decode(s', mode) == Decode(s, mode)[..1] + Decode(s'[Width(s)..], mode)
    ensures Decode(s, mode) == Decode(s, mode)[..1] + Decode(s[Width(s)..], mode)
  {
    SameWidth(s, s', mode);
    CheckFront(s, s', mode);
    DecodeFront(s, mode);
    DecodeFront(s', mode);
    assert FrontByte(s', mode) == FrontByte(s, mode);
  }

  /** Well-formed text followed by anything is checked and decoded piece by piece. */
  lemma {:induction false} UnescapeConcat(a: Bytes, b: Bytes, mode: Mode)
    requires Check(a, mode) == None
    ensures Check(a + b, mode) == Check(b, mode)
    ensures Decode(a + b, mode) == Decode(a, mode) + Decode(b, mode)
  {
    if a == [] {
      assert a + b == b;
    } else {
      var w := Width(a);
      assert (a + b)[w..] == a[w..] + b && (a + b)[..w] == a[..w];
      SameFront(a, a + b, mode);
      UnescapeConcat(a[w..], b, mode);
      Regroup(Decode(a, mode)[..1], Decode(a[w..], mode), Decode(b, mode));
    }
  }

  /** No escape crosses a byte that is neither a percent sign nor a hex digit. */
  lemma {:induction false} CheckedBefore(a: Bytes, c: Byte, b: Bytes, mode: Mode)
    requires c != '%' && !IsHex(c) && Check(a + [c] + b, mode) == None
    ensures Check(a, mode) == None
  {
    var s := a + [c] + b;
    if a != [] {
      CheckedPairs(s, mode);
      assert s[|a|] == c;
      var w := Width(s);
      assert w <= |a|;
      assert s[w..] == a[w..] + [c] + b && s[..w] == a[..w];
      CheckedBefore(a[w..], c, b, mode);
      if w == 3 {
        assert HexPair(a) && PairValue(a) == PairValue(s) && s[..3] == a[..3];
      }
    }
  }

  // ---- escaping and unescaping undo each other ----

  /** Escaping c gives something that unescape accepts in the same mode. */
  predicate Reescapable(c: Byte, mode: Mode) {
    || !ShouldEscape(c, mode)
    || (match mode
        case Host => c as int >= 0x80 || c == '%'
        case Zone => c == '%' || c == ' '
        case _ => true)
  }

  /** The three bytes that stand for c. */
  lemma EscapedByte(c: Byte, rest: Bytes)
    ensures var t := ['%', UpperHex(c as int / 16), UpperHex(c as int % 16)] + rest;
      && HexPair(t) && PairValue(t) == c && t[3..] == rest
      && (t[..3] == "%25" <==> c == '%') && (UnHex(t[1]) < 8 <==> c as int < 0x80)
  {
    var t := ['%', UpperHex(c as int / 16), UpperHex(c as int % 16)] + rest;
    assert 16 * (c as int / 16) + c as int % 16 == c as int;
    assert t[..3] == ['%', UpperHex(c as int / 16), UpperHex(c as int % 16)];
    assert "%25"[1] == '2' && "%25"[2] == '5';
    assert UpperHex(2) == '2' && UpperHex(5) == '5';
  }

  /** An escaped byte is read back, unless its mode forbids the escape. */
  lemma HexByte(c: Byte, rest: Bytes, mode: Mode)
    requires ShouldEscape(c, mode)
    ensures var t := ['%', UpperHex(c as int / 16), UpperHex(c as int % 16)] + rest;
      if Reescapable(c, mode) then Check(t, mode) == Check(rest, mode) && Decode(t, mode) == [c] + Decode(rest, mode)
      else Check(t, mode).Some?
  {
    EscapedByte(c, rest);
    var t := ['%', UpperHex(c as int / 16), UpperHex(c as int % 16)] + rest;
    ForbiddenByte(t, c, mode);
  }

  lemma ForbiddenByte(t: Bytes, c: Byte, mode: Mode)
    requires HexPair(t) && PairValue(t) == c && ShouldEscape(c, mode)
    requires t[..3] == "%25" <==> c == '%'
    requires UnHex(t[1]) < 8 <==> c as int < 0x80
    ensures Forbidden(t, mode) <==> !Reescapable(c, mode)
  {
    assert mode.Zone? ==> (ShouldEscape(c, Host) <==> ShouldEscape(c, mode));
  }

  /** A byte that stands for itself is read as itself. */
  lemma PlainByte(c: Byte, rest: Bytes, mode: Mode)
    requires !ShouldEscape(c, mode) && !(c == '+' && mode.QueryComponent?)
    ensures Check([c] + rest, mode) == Check(rest, mode) && Decode([c] + rest, mode) == [c] + Decode(rest, mode)
  {
    assert ([c] + rest)[1..] == rest && c != '%';
  }

  lemma OneByte(c: Byte, rest: Bytes, mode: Mode)
    ensures var t := EscapeByte(c, mode) + rest;
      if Reescapable(c, mode) then Check(t, mode) == Check(rest, mode) && Decode(t, mode) == [c] + Decode(rest, mode)
      else Check(t, mode).Some?
  {
    if c == ' ' && mode.QueryComponent? {
      assert (['+'] + rest)[1..] == rest;
    } else if ShouldEscape(c, mode) {
      HexByte(c, rest, mode);
    } else {
      PlainByte(c, rest, mode);
    }
  }

  predicate AllReescapable(s: Bytes, mode: Mode) {
    s == [] || (Reescapable(s[0], mode) && AllReescapable(s[1..], mode))
  }

  lemma {:induction false} EachByte(s: Bytes, mode: Mode)
    ensures AllReescapable(s, mode) <==> forall i :: 0 <= i < |s| ==> Reescapable(s[i], mode)
  {
    if s != [] {
      EachByte(s[1..], mode);
      if AllReescapable(s, mode) {
        forall i | 0 <= i < |s| ensures Reescapable(s[i], mode) {
          if i > 0 { assert s[i] == s[1..][i - 1]; }
        }
      }
    }
  }

  lemma SameTail(c: Byte, a: Bytes, b: Bytes)
    ensures [c] + a == [c] + b <==> a == b
  {
    if [c] + a == [c] + b {
      assert a == ([c] + a)[1..] == ([c] + b)[1..] == b;
    }
  }

  lemma {:induction false} RoundTripByBytes(s: Bytes, mode: Mode)
    ensures Unescape(Escape(s, mode), mode) == Ok(s) <==> AllReescapable(s, mode)
    ensures !mode.Host? && !mode.Zone? ==> AllReescapable(s, mode)
  {
    if s != [] {
      var rest := Escape(s[1..], mode);
      RoundTripByBytes(s[1..], mode);
      OneByte(s[0], rest, mode);
      SameTail(s[0], Decode(rest, mode), s[1..]);
      assert s == [s[0]] + s[1..];
    }
  }

  /** The round trip holds exactly for the strings whose every byte survives it; outside hosts and zones that is
      every string. */
  lemma RoundTripExactly(s: Bytes, mode: Mode)
    ensures Unescape(Escape(s, mode), mode) == Ok(s) <==> forall i :: 0 <= i < |s| ==> Reescapable(s[i], mode)
    ensures !mode.Host? && !mode.Zone? ==> Unescape(Escape(s, mode), mode) == Ok(s)
  {
    RoundTripByBytes(s, mode);
    EachByte(s, mode);
  }
}
