/** Printing an address and parsing the text gives the address back. */
module IpRoundTrip {
  import opened GoBytes
  import opened Strings
  import opened IpAddr
  import opened IpPrint
  import opened IpParse

  // ---- digits ----

  lemma DigitReads(d: nat)
    requires d < 16
    ensures IsHex(Digit(d)) && UnHex(Digit(d)) == d
    ensures d < 10 ==> IsDigit(Digit(d)) && Digit(d) as int - '0' as int == d
    ensures Digit(d) !in ".:%"
  {
  }

  /** The number a list of digits stands for, after acc. */
  function Value(base: nat, ds: seq<nat>, acc: nat): (v: nat)
    requires base >= 1
    ensures v >= acc
  {
    if ds == [] then acc else
      assert acc * base >= acc;
      Value(base, ds[1..], acc * base + ds[0])
  }

  predicate Spells(s: Bytes, off: nat, ds: seq<nat>) {
    off + |ds| <= |s| && forall i :: 0 <= i < |ds| ==> ds[i] < 16 && s[off + i] == Digit(ds[i])
  }

  lemma SpellsTail(s: Bytes, off: nat, ds: seq<nat>)
    requires Spells(s, off, ds) && ds != []
    ensures s[off] == Digit(ds[0]) && ds[0] < 16 && Spells(s, off + 1, ds[1..])
  {
    assert s[off + 0] == Digit(ds[0]);
    forall i | 0 <= i < |ds| - 1 ensures ds[1..][i] < 16 && s[off + 1 + i] == Digit(ds[1..][i]) {
      assert s[off + (i + 1)] == Digit(ds[i + 1]);
    }
  }

  lemma {:induction false} DigitsAreScanned(s: Bytes, off: nat, acc: Word, ds: seq<nat>)
    requires Spells(s, off, ds) && Value(16, ds, acc) <= 0xffff
    requires off + |ds| < |s| ==> !IsHex(s[off + |ds|])
    ensures HexGroup(s, off, acc) == Ok((Value(16, ds, acc), off + |ds|))
    decreases |ds|
  {
    if ds != [] {
      SpellsTail(s, off, ds);
      DigitReads(ds[0]);
      DigitsAreScanned(s, off + 1, acc * 16 + ds[0], ds[1..]);
    }
  }

  lemma CountStep(s: Bytes, off: nat, val: Octet, digLen: nat, fields: seq<Octet>, d: nat)
    requires |fields| <= 3 && off < |s| && d < 10 && s[off] == Digit(d)
    requires !(digLen == 1 && val == 0) && val * 10 + d <= 255
    ensures Octets4(s[off..], val, digLen, fields) == Octets4(s[off + 1..], val * 10 + d, digLen + 1, fields)
  {
    DigitReads(d);
    assert s[off..][1..] == s[off + 1..];
  }

  lemma {:induction false} DigitsAreCounted(s: Bytes, off: nat, val: Octet, digLen: nat, fields: seq<Octet>,
    ds: seq<nat>)
    requires |fields| <= 3 && Spells(s, off, ds) && Value(10, ds, val) <= 255
    requires forall i :: 0 <= i < |ds| ==> ds[i] < 10
    requires ds != [] && digLen > 0 ==> val > 0
    requires digLen == 0 && |ds| > 1 ==> ds[0] > 0
    ensures Octets4(s[off..], val, digLen, fields)
      == Octets4(s[off + |ds|..], Value(10, ds, val), digLen + |ds|, fields)
    decreases |ds|
  {
    if ds != [] {
      SpellsTail(s, off, ds);
      CountStep(s, off, val, digLen, fields, ds[0]);
      DigitsAreCounted(s, off + 1, val * 10 + ds[0], digLen + 1, fields, ds[1..]);
    }
  }

  function HexDigits(x: Word): (list: seq<nat>) {
    if x >= 0x1000 then [x / 0x1000, x / 0x100 % 0x10, x / 0x10 % 0x10, x % 0x10]
    else if x >= 0x100 then [x / 0x100, x / 0x10 % 0x10, x % 0x10]
    else if x >= 0x10 then [x / 0x10, x % 0x10]
    else [x]
  }

  function DecimalDigits(x: Octet): (list: seq<nat>) {
    if x >= 100 then [x / 100, x / 10 % 10, x % 10] else if x >= 10 then [x / 10, x % 10] else [x]
  }

  lemma Value1(base: nat, d: nat, acc: nat)
    requires base >= 1
    ensures Value(base, [d], acc) == acc * base + d
  {
    assert [d][1..] == [];
  }

  lemma Value2(base: nat, c: nat, d: nat, acc: nat)
    requires base >= 1
    ensures Value(base, [c, d], acc) == (acc * base + c) * base + d
  {
    assert [c, d][1..] == [d];
    Value1(base, d, acc * base + c);
  }

  lemma Value3(base: nat, b: nat, c: nat, d: nat, acc: nat)
    requires base >= 1
    ensures Value(base, [b, c, d], acc) == ((acc * base + b) * base + c) * base + d
  {
    assert [b, c, d][1..] == [c, d];
    Value2(base, c, d, acc * base + b);
  }

  lemma HexIsSpelled(w: Word)
    ensures Spells(Hex(w), 0, HexDigits(w)) && |Hex(w)| == |HexDigits(w)|
  {
    if w >= 0x100 { LongHexIsSpelled(w); } else { ShortHexIsSpelled(w); }
  }

  lemma LongHexIsSpelled(w: Word)
    requires w >= 0x100
    ensures Spells(Hex(w), 0, HexDigits(w)) && |Hex(w)| == |HexDigits(w)|
  {
    var c, d := Digit(w / 0x10 % 0x10), Digit(w % 0x10);
    if w >= 0x1000 {
      assert Hex(w) == [Digit(w / 0x1000), Digit(w / 0x100 % 0x10), c, d];
    } else {
      ThreeAreSpelled(w);
    }
  }

  lemma ThreeAreSpelled(w: Word)
    requires 0x100 <= w < 0x1000
    ensures Spells(Hex(w), 0, HexDigits(w)) && |Hex(w)| == |HexDigits(w)|
  {
    assert Hex(w) == [Digit(w / 0x100), Digit(w / 0x10 % 0x10), Digit(w % 0x10)];
  }

  lemma ShortHexIsSpelled(w: Word)
    requires w < 0x100
    ensures Spells(Hex(w), 0, HexDigits(w)) && |Hex(w)| == |HexDigits(w)|
  {
    if w >= 0x10 {
      assert Hex(w) == [Digit(w / 0x10), Digit(w % 0x10)];
    } else {
      assert Hex(w) == [Digit(w)];
    }
  }

  lemma Nibbles(w: Word)
    ensures w / 0x100 == w / 0x10 / 0x10 && w / 0x1000 == w / 0x10 / 0x10 / 0x10
  {
    var q := w / 0x10;
    assert w == q / 0x10 * 0x100 + q % 0x10 * 0x10 + w % 0x10;
    var q' := q / 0x10;
    assert w == q' / 0x10 * 0x1000 + q' % 0x10 * 0x100 + q % 0x10 * 0x10 + w % 0x10;
  }

  lemma HexHasValue(w: Word)
    ensures Value(16, HexDigits(w), 0) == w
  {
    Nibbles(w);
    if w >= 0x1000 {
      Value4(16, w / 0x1000, w / 0x100 % 0x10, w / 0x10 % 0x10, w % 0x10);
    } else if w >= 0x100 {
      Value3(16, w / 0x100, w / 0x10 % 0x10, w % 0x10, 0);
    } else if w >= 0x10 {
      Value2(16, w / 0x10, w % 0x10, 0);
    } else {
      Value1(16, w, 0);
    }
  }

  lemma Value4(base: nat, a: nat, b: nat, c: nat, d: nat)
    requires base >= 1
    ensures Value(base, [a, b, c, d], 0) == ((a * base + b) * base + c) * base + d
  {
    assert [a, b, c, d][1..] == [b, c, d];
    Value3(base, b, c, d, 0 * base + a);
  }

  lemma DecimalIsSpelled(x: Octet)
    ensures Spells(Decimal(x), 0, DecimalDigits(x)) && |Decimal(x)| == |DecimalDigits(x)|
    ensures forall i :: 0 <= i < |DecimalDigits(x)| ==> DecimalDigits(x)[i] < 10
    ensures |DecimalDigits(x)| > 1 ==> DecimalDigits(x)[0] > 0
  {
  }

  lemma DecimalHasValue(x: Octet)
    ensures Value(10, DecimalDigits(x), 0) == x && Value(16, DecimalDigits(x), 0) <= 0x999
  {
    assert x / 100 == x / 10 / 10 by { assert x == x / 10 / 10 * 100 + x / 10 % 10 * 10 + x % 10; }
    if x >= 100 {
      Value3(10, x / 100, x / 10 % 10, x % 10, 0);
      Value3(16, x / 100, x / 10 % 10, x % 10, 0);
    } else if x >= 10 {
      Value2(10, x / 10, x % 10, 0);
      Value2(16, x / 10, x % 10, 0);
    } else {
      Value1(10, x, 0);
      Value1(16, x, 0);
    }
  }

  lemma SpellsMore(s: Bytes, rest: Bytes, ds: seq<nat>)
    requires Spells(s, 0, ds) && |s| == |ds|
    ensures Spells(s + rest, 0, ds) && (s + rest)[|s|..] == rest && (s + rest)[0..] == s + rest
  {
  }

  lemma HexIsRead(w: Word, rest: Bytes)
    requires rest == [] || !IsHex(rest[0])
    ensures HexGroup(Hex(w) + rest, 0, 0) == Ok((w, |Hex(w)|)) && |Hex(w)| >= 1
    ensures (Hex(w) + rest)[|Hex(w)|..] == rest
  {
    HexIsSpelled(w);
    HexHasValue(w);
    SpellsMore(Hex(w), rest, HexDigits(w));
    DigitsAreScanned(Hex(w) + rest, 0, 0, HexDigits(w));
  }

  lemma DecimalIsRead(x: Octet, rest: Bytes, fields: seq<Octet>)
    requires |fields| <= 3
    ensures Octets4(Decimal(x) + rest, 0, 0, fields) == Octets4(rest, x, |Decimal(x)|, fields)
  {
    DecimalIsSpelled(x);
    DecimalHasValue(x);
    SpellsMore(Decimal(x), rest, DecimalDigits(x));
    DigitsAreCounted(Decimal(x) + rest, 0, 0, 0, fields, DecimalDigits(x));
  }

  /** The hexadecimal scan stops behind the first octet of a dotted address. */
  lemma DecimalIsScanned(x: Octet, rest: Bytes)
    requires rest != [] && rest[0] == '.'
    ensures var r := HexGroup(Decimal(x) + rest, 0, 0); r.Ok? && r.value.1 == |Decimal(x)| >= 1
    ensures (Decimal(x) + rest)[|Decimal(x)|] == '.'
  {
    DecimalIsSpelled(x);
    DecimalHasValue(x);
    SpellsMore(Decimal(x), rest, DecimalDigits(x));
    DigitsAreScanned(Decimal(x) + rest, 0, 0, DecimalDigits(x));
  }

  // ---- dotted addresses ----

  /** An octet, a dot and what follows. */
  lemma OctetIsRead(x: Octet, rest: Bytes, fields: seq<Octet>)
    requires |fields| < 3 && rest != []
    ensures Octets4(Decimal(x) + ['.'] + rest, 0, 0, fields) == Octets4(rest, 0, 0, fields + [x])
  {
    Regroup(Decimal(x), ['.'], rest);
    DecimalIsRead(x, ['.'] + rest, fields);
    assert (['.'] + rest)[1..] == rest;
  }

  lemma DottedIsRead(a: Octet, b: Octet, c: Octet, d: Octet)
    ensures Octets4(Dotted(a, b, c, d), 0, 0, []) == Ok([a, b, c, d])
    ensures Dotted(a, b, c, d) == Decimal(a) + (['.'] + (Decimal(b) + ['.'] + (Decimal(c) + ['.'] + Decimal(d))))
  {
    var cd := Decimal(c) + ['.'] + Decimal(d);
    var bcd := Decimal(b) + ['.'] + cd;
    assert Decimal(d) + [] == Decimal(d);
    OctetIsRead(a, bcd, []);
    OctetIsRead(b, cd, [a]);
    OctetIsRead(c, Decimal(d), [a, b]);
    DecimalIsRead(d, [], [a, b, c]);
    assert [] + [a] == [a] && [a] + [b] == [a, b] && [a, b] + [c] == [a, b, c] && [a, b, c] + [d] == [a, b, c, d];
    DottedIsNested(Decimal(a), Decimal(b), Decimal(c), Decimal(d));
    Regroup(Decimal(a), ['.'], bcd);
  }

  lemma DottedIsNested(a: Bytes, b: Bytes, c: Bytes, d: Bytes)
    ensures a + ['.'] + b + ['.'] + c + ['.'] + d == a + ['.'] + (b + ['.'] + (c + ['.'] + d))
  {
  }

  // ---- groups ----

  lemma StaysEven(ip: seq<Octet>, a: Octet, b: Octet)
    requires |ip| % 2 == 0
    ensures |ip + [a, b]| % 2 == 0
  {
    var half := |ip| / 2;
    assert |ip + [a, b]| == 2 * (half + 1);
  }

  lemma GroupIsRead(w: Word, rest: Bytes, ip: seq<Octet>, ellipsis: int)
    requires |ip| < 16 && |ip| % 2 == 0 && -1 <= ellipsis <= |ip|
    requires rest == [] || rest[0] == ':'
    ensures Groups6(Hex(w) + rest, ip, ellipsis) == AfterGroup(rest, ip + [w / 0x100, w % 0x100], ellipsis)
  {
    HexIsRead(w, rest);
    var s := Hex(w) + rest;
    assert |Hex(w)| < |s| ==> s[|Hex(w)|] == rest[0];
  }

  lemma GroupsStart(ws: seq<Word>)
    requires ws != []
    ensures Groups(ws) != [] && Groups(ws)[0] !in ".:%"
  {
    var w := ws[0];
    DigitReads(w / 0x1000);
    DigitReads(w / 0x100 % 0x10);
    DigitReads(w / 0x10 % 0x10);
    DigitReads(w % 0x10);
    assert Hex(w)[0] !in ".:%";
    assert Groups(ws)[0] == Hex(w)[0];
  }

  /** A group, a colon and another group that is to follow. */
  lemma GroupAndColon(w: Word, more: Bytes, ip: seq<Octet>, ellipsis: int)
    requires |ip| < 16 && |ip| % 2 == 0 && -1 <= ellipsis <= |ip|
    requires more != [] && more[0] != ':'
    ensures Groups6(Hex(w) + [':'] + more, ip, ellipsis) == Groups6(more, ip + [w / 0x100, w % 0x100], ellipsis)
  {
    Regroup(Hex(w), [':'], more);
    GroupIsRead(w, [':'] + more, ip, ellipsis);
    assert ([':'] + more)[1..] == more;
  }

  lemma OctetsOfOne(w: Word)
    ensures Octets([w]) == [w / 0x100, w % 0x100]
  {
    assert [w][1..] == [];
  }

  lemma OctetsStep(ip: seq<Octet>, ws: seq<Word>)
    requires ws != []
    ensures ip + [ws[0] / 0x100, ws[0] % 0x100] + Octets(ws[1..]) == ip + Octets(ws)
  {
  }

  lemma LastGroupIsRead(ws: seq<Word>, ip: seq<Octet>, ellipsis: int)
    requires |ws| == 1 && |ip| < 16 && |ip| % 2 == 0 && -1 <= ellipsis <= |ip|
    ensures Groups6(Groups(ws), ip, ellipsis) == Ok((ip + Octets(ws), ellipsis, []))
  {
    assert ws == [ws[0]];
    OctetsOfOne(ws[0]);
    assert Hex(ws[0]) + [] == Hex(ws[0]);
    GroupIsRead(ws[0], [], ip, ellipsis);
  }

  lemma FirstGroupIsRead(ws: seq<Word>, ip: seq<Octet>, ellipsis: int)
    requires |ws| > 1 && |ip| + 2 * |ws| <= 16 && |ip| % 2 == 0 && -1 <= ellipsis <= |ip|
    ensures Groups6(Groups(ws), ip, ellipsis) == Groups6(Groups(ws[1..]), ip + [ws[0] / 0x100, ws[0] % 0x100], ellipsis)
  {
    GroupsStart(ws[1..]);
    GroupAndColon(ws[0], Groups(ws[1..]), ip, ellipsis);
  }

  lemma {:induction false} GroupsAreRead(ws: seq<Word>, ip: seq<Octet>, ellipsis: int)
    requires ws != [] && |ip| + 2 * |ws| <= 16 && |ip| % 2 == 0 && -1 <= ellipsis <= |ip|
    ensures Groups6(Groups(ws), ip, ellipsis) == Ok((ip + Octets(ws), ellipsis, []))
    decreases |ws|
  {
    if |ws| == 1 {
      LastGroupIsRead(ws, ip, ellipsis);
    } else {
      FirstGroupIsRead(ws, ip, ellipsis);
      StaysEven(ip, ws[0] / 0x100, ws[0] % 0x100);
      GroupsAreRead(ws[1..], ip + [ws[0] / 0x100, ws[0] % 0x100], ellipsis);
      OctetsStep(ip, ws);
    }
  }

  lemma AfterEllipsis(after: seq<Word>, ip: seq<Octet>)
    requires |ip| + 2 * |after| < 16 && |ip| % 2 == 0
    ensures AfterGroup([':', ':'] + Groups(after), ip, -1) == Ok((ip + Octets(after), |ip|, []))
  {
    var end := [':', ':'] + Groups(after);
    assert end[2..] == Groups(after);
    if after == [] {
      assert ip + Octets(after) == ip;
    } else {
      GroupsStart(after);
      GroupsAreRead(after, ip, |ip|);
    }
  }

  /** Groups, an ellipsis and more groups, group by group. */
  function WithEllipsis(ws: seq<Word>, after: seq<Word>): (text: Bytes)
    requires ws != []
  {
    if |ws| == 1 then Hex(ws[0]) + ([':', ':'] + Groups(after)) else Hex(ws[0]) + [':'] + WithEllipsis(ws[1..], after)
  }

  lemma {:induction false} WithEllipsisIs(ws: seq<Word>, after: seq<Word>)
    requires ws != []
    ensures WithEllipsis(ws, after) == Groups(ws) + ([':', ':'] + Groups(after))
  {
    if |ws| > 1 {
      WithEllipsisIs(ws[1..], after);
      Regroup(Hex(ws[0]) + [':'], Groups(ws[1..]), [':', ':'] + Groups(after));
    }
  }

  lemma WithEllipsisStart(ws: seq<Word>, after: seq<Word>)
    requires ws != []
    ensures WithEllipsis(ws, after) != [] && WithEllipsis(ws, after)[0] !in ".:%"
  {
    GroupsStart(ws);
    WithEllipsisIs(ws, after);
    assert WithEllipsis(ws, after)[0] == Groups(ws)[0];
  }

  lemma LastBeforeEllipsis(ws: seq<Word>, after: seq<Word>, ip: seq<Octet>)
    requires |ws| == 1 && |ip| + 2 + 2 * |after| < 16 && |ip| % 2 == 0
    ensures Groups6(WithEllipsis(ws, after), ip, -1) == Ok((ip + Octets(ws) + Octets(after), |ip| + 2, []))
  {
    var ip' := ip + [ws[0] / 0x100, ws[0] % 0x100];
    GroupIsRead(ws[0], [':', ':'] + Groups(after), ip, -1);
    StaysEven(ip, ws[0] / 0x100, ws[0] % 0x100);
    AfterEllipsis(after, ip');
    assert ip' + Octets(ws[1..]) == ip' by { assert ws[1..] == []; }
    OctetsStep(ip, ws);
  }

  lemma FirstBeforeEllipsis(ws: seq<Word>, after: seq<Word>, ip: seq<Octet>)
    requires |ws| > 1 && |ip| + 2 * |ws| + 2 * |after| < 16 && |ip| % 2 == 0
    ensures Groups6(WithEllipsis(ws, after), ip, -1)
         == Groups6(WithEllipsis(ws[1..], after), ip + [ws[0] / 0x100, ws[0] % 0x100], -1)
  {
    WithEllipsisStart(ws[1..], after);
    GroupAndColon(ws[0], WithEllipsis(ws[1..], after), ip, -1);
  }

  lemma {:induction false} EllipsisIsRead(ws: seq<Word>, after: seq<Word>, ip: seq<Octet>)
    requires ws != [] && |ip| + 2 * |ws| + 2 * |after| < 16 && |ip| % 2 == 0
    ensures Groups6(WithEllipsis(ws, after), ip, -1) == Ok((ip + Octets(ws) + Octets(after), |ip| + 2 * |ws|, []))
    decreases |ws|
  {
    if |ws| == 1 {
      LastBeforeEllipsis(ws, after, ip);
    } else {
      FirstBeforeEllipsis(ws, after, ip);
      StaysEven(ip, ws[0] / 0x100, ws[0] % 0x100);
      EllipsisIsRead(ws[1..], after, ip + [ws[0] / 0x100, ws[0] % 0x100]);
      OctetsStep(ip, ws);
    }
  }

  // ---- whole addresses ----

  lemma {:induction false} ZeroOctets(ws: seq<Word>)
    requires forall k :: 0 <= k < |ws| ==> ws[k] == 0
    ensures Octets(ws) == Zeros(2 * |ws|)
  {
    if ws != [] {
      ZeroOctets(ws[1..]);
      assert Octets(ws) == [0, 0] + Zeros(2 * |ws| - 2);
    }
  }

  lemma OctetsOfThree(a: seq<Word>, b: seq<Word>, c: seq<Word>)
    ensures Octets(a + b + c) == Octets(a) + Octets(b) + Octets(c)
  {
    OctetsConcat(a + b, c);
    OctetsConcat(a, b);
  }

  /** The octets around a run of zeros. */
  lemma OctetsAround(ws: seq<Word>, a: seq<Word>, zeros: seq<Word>, c: seq<Word>)
    requires ws == a + zeros + c && forall k :: 0 <= k < |zeros| ==> zeros[k] == 0
    ensures Octets(ws) == Octets(a) + Zeros(2 * |zeros|) + Octets(c)
  {
    OctetsOfThree(a, zeros, c);
    ZeroOctets(zeros);
  }

  lemma SliceInThree(ws: seq<Word>, start: nat, end: nat)
    requires start <= end <= |ws|
    ensures ws == ws[..start] + ws[start..end] + ws[end..]
  {
  }

  lemma ExpandAtEllipsis(a: seq<Octet>, b: seq<Octet>)
    requires |a| + |b| < 16
    ensures Expand(a + b, |a|, []) == Ok(a + Zeros(16 - |a| - |b|) + b)
  {
    assert (a + b)[..|a|] == a && (a + b)[|a|..] == b;
  }

  lemma WholeIsRead(ws: seq<Word>)
    requires |ws| == 8
    ensures Parse16(Groups(ws)) == Ok(Octets(ws))
  {
    GroupsStart(ws);
    GroupsAreRead(ws, [], -1);
    assert [] + Octets(ws) == Octets(ws);
  }

  lemma RunIsExpanded(ws: seq<Word>, start: nat, end: nat)
    requires |ws| == 8 && start < end <= 8 && ZerosBetween(ws, start, end)
    ensures Expand(Octets(ws[..start]) + Octets(ws[end..]), 2 * start, []) == Ok(Octets(ws))
  {
    ExpandAtEllipsis(Octets(ws[..start]), Octets(ws[end..]));
    SliceInThree(ws, start, end);
    OctetsAround(ws, ws[..start], ws[start..end], ws[end..]);
  }

  lemma LeadingRunIsRead(ws: seq<Word>, end: nat)
    requires |ws| == 8 && 0 < end <= 8 && ZerosBetween(ws, 0, end)
    ensures Parse16([':', ':'] + Groups(ws[end..])) == Ok(Octets(ws))
  {
    var after := ws[end..];
    assert ([':', ':'] + Groups(after))[2..] == Groups(after);
    if after == [] {
      assert ws == ws[..end];
      ZeroOctets(ws);
    } else {
      GroupsAreRead(after, [], 0);
      GroupsStart(after);
      RunIsExpanded(ws, 0, end);
      assert Octets(ws[..0]) == [];
    }
  }

  lemma InnerRunIsRead(ws: seq<Word>, start: nat, end: nat)
    requires |ws| == 8 && 0 < start && start + 2 <= end <= 8 && ZerosBetween(ws, start, end)
    ensures Parse16(WithEllipsis(ws[..start], ws[end..])) == Ok(Octets(ws))
  {
    WithEllipsisStart(ws[..start], ws[end..]);
    EllipsisIsRead(ws[..start], ws[end..], []);
    assert [] + Octets(ws[..start]) == Octets(ws[..start]);
    RunIsExpanded(ws, start, end);
  }

  /** The shortened form of an address reads as its sixteen bytes. */
  lemma ShortenedIsRead(ws: seq<Word>, start: nat, end: nat)
    requires |ws| == 8 && LongestRun(ws, start, end)
    ensures Parse16(Shortened(ws, start, end)) == Ok(Octets(ws))
  {
    if start == 255 {
      WholeIsRead(ws);
    } else if start == 0 {
      LeadingRunIsRead(ws, end);
      assert ws[..0] == [] && [] + [':', ':'] == [':', ':'];
    } else {
      InnerRunIsRead(ws, start, end);
      WithEllipsisIs(ws[..start], ws[end..]);
      Regroup(Groups(ws[..start]), [':', ':'], Groups(ws[end..]));
    }
  }

  // ---- IPv4 in IPv6 ----

  lemma EmbeddedIsRead(a: Octet, b: Octet, c: Octet, d: Octet, ip: seq<Octet>)
    requires |ip| == 2
    ensures Groups6(Dotted(a, b, c, d), ip, 0) == Ok((ip + [a, b, c, d], 0, []))
  {
    DottedIsRead(a, b, c, d);
    DecimalIsScanned(a, ['.'] + (Decimal(b) + ['.'] + (Decimal(c) + ['.'] + Decimal(d))));
  }

  lemma FirstAfterEllipsis(w: Word, dotted: Bytes)
    requires dotted != [] && dotted[0] !in ".:%"
    ensures Groups6(Hex(w) + [':'] + dotted, [], 0) == Groups6(dotted, [w / 0x100, w % 0x100], 0)
  {
    assert [] + [w / 0x100, w % 0x100] == [w / 0x100, w % 0x100];
    GroupAndColon(w, dotted, [], 0);
  }

  lemma MappedGroups(a: Octet, b: Octet, c: Octet, d: Octet)
    ensures Groups6(Hex(0xffff) + [':'] + Dotted(a, b, c, d), [], 0) == Ok(([0xff, 0xff, a, b, c, d], 0, []))
  {
    DottedStart(a, b, c, d);
    FirstAfterEllipsis(0xffff, Dotted(a, b, c, d));
    EmbeddedIsRead(a, b, c, d, [0xff, 0xff]);
    assert [0xff, 0xff] + [a, b, c, d] == [0xff, 0xff, a, b, c, d];
  }

  lemma MappedText(dotted: Bytes)
    ensures ("::ffff:" + dotted)[2..] == Hex(0xffff) + [':'] + dotted
  {
    assert Hex(0xffff) == "ffff";
  }

  lemma MappedIsRead(a: Octet, b: Octet, c: Octet, d: Octet)
    ensures Parse16("::ffff:" + Dotted(a, b, c, d)) == Ok(Zeros(10) + [0xff, 0xff, a, b, c, d])
  {
    var tail: seq<Octet> := [0xff, 0xff, a, b, c, d];
    MappedText(Dotted(a, b, c, d));
    MappedGroups(a, b, c, d);
    ExpandAtEllipsis([], tail);
    assert [] + tail == tail;
    assert [] + Zeros(10) + tail == Zeros(10) + tail;
  }

  lemma DottedStart(a: Octet, b: Octet, c: Octet, d: Octet)
    ensures Dotted(a, b, c, d) != [] && Dotted(a, b, c, d)[0] !in ".:%"
  {
    DottedIsRead(a, b, c, d);
    DecimalIsSpelled(a);
    SpellsTail(Decimal(a), 0, DecimalDigits(a));
    DigitReads(DecimalDigits(a)[0]);
    assert Dotted(a, b, c, d)[0] == Decimal(a)[0];
  }

  lemma LowFour(lo: Half)
    ensures lo % 0x1_0000_0000 == lo / 0x100_0000 % 0x100 * 0x100_0000 + lo / 0x1_0000 % 0x100 * 0x1_0000
      + lo / 0x100 % 0x100 * 0x100 + lo % 0x100
  {
    Shift16(lo);
    Shift24(lo);
    Shift32(lo);
  }

  /** The four octets of an IPv4 or IPv4-mapped address make up its low half. */
  lemma MappedAddr(ip: Addr)
    requires ip.hi == 0 && ip.lo / 0x1_0000_0000 == 0xffff
    ensures AddrFrom4([V4(ip, 0), V4(ip, 1), V4(ip, 2), V4(ip, 3)]) == ip.(z := Z4)
    ensures AddrFrom16(Zeros(10) + [0xff, 0xff, V4(ip, 0), V4(ip, 1), V4(ip, 2), V4(ip, 3)]) == ip.(z := Z6NoZone)
  {
    LowFour(ip.lo);
    var b := Zeros(10) + [0xff, 0xff, V4(ip, 0), V4(ip, 1), V4(ip, 2), V4(ip, 3)];
    assert b[..8] == Zeros(8);
    assert b[8..] == [0, 0, 0xff, 0xff, V4(ip, 0), V4(ip, 1), V4(ip, 2), V4(ip, 3)];
  }

  // ---- the zone and the first special character ----

  predicate Plain(s: Bytes) {
    '%' !in s
  }

  lemma SpelledIsPlain(s: Bytes, ds: seq<nat>)
    requires Spells(s, 0, ds) && |s| == |ds|
    ensures forall i :: 0 <= i < |s| ==> s[i] !in ".:%"
  {
    forall i | 0 <= i < |s| ensures s[i] !in ".:%" {
      assert s[0 + i] == Digit(ds[i]);
      DigitReads(ds[i]);
    }
  }

  lemma HexIsPlain(w: Word)
    ensures Plain(Hex(w)) && |Hex(w)| >= 1 && forall i :: 0 <= i < |Hex(w)| ==> Hex(w)[i] !in ".:%"
  {
    HexIsSpelled(w);
    SpelledIsPlain(Hex(w), HexDigits(w));
  }

  lemma DecimalIsPlain(x: Octet)
    ensures Plain(Decimal(x)) && |Decimal(x)| >= 1 && forall i :: 0 <= i < |Decimal(x)| ==> Decimal(x)[i] !in ".:%"
  {
    DecimalIsSpelled(x);
    SpelledIsPlain(Decimal(x), DecimalDigits(x));
  }

  lemma {:induction false} GroupsArePlain(ws: seq<Word>)
    ensures Plain(Groups(ws))
  {
    if ws != [] {
      HexIsPlain(ws[0]);
      GroupsArePlain(ws[1..]);
    }
  }

  lemma ShortenedIsPlain(ws: seq<Word>, start: nat, end: nat)
    requires start == 255 || start <= end <= |ws|
    ensures Plain(Shortened(ws, start, end))
  {
    GroupsArePlain(ws);
    if start != 255 {
      GroupsArePlain(ws[..start]);
      GroupsArePlain(ws[end..]);
    }
  }

  lemma DottedIsPlain(a: Octet, b: Octet, c: Octet, d: Octet)
    ensures Plain(Dotted(a, b, c, d))
  {
    DecimalIsPlain(a);
    DecimalIsPlain(b);
    DecimalIsPlain(c);
    DecimalIsPlain(d);
  }

  /** A plain address with or without a zone is split where the zone begins. */
  lemma ZoneIsSplit(text: Bytes, z: Family)
    requires Plain(text) && (z.Z6NoZone? || z.Z6?)
    ensures var zone := if z.Z6? then z.zone else [];
      ParseIPv6(text + ZoneText(zone)) ==
        match Parse16(text)
        case Err(e) => Err(e)
        case Ok(ip) => Ok(AddrFrom16(ip).(z := z))
  {
    if z.Z6? {
      Regroup(text, ['%'], z.zone);
      CutAt(text, '%', z.zone);
    } else {
      assert text + [] == text;
      CutNowhere(text, '%');
    }
  }

  lemma {:induction false} DispatchOn(s: Bytes, i: nat, n: nat)
    requires i <= n < |s| && s[n] in ".:%" && forall k :: i <= k < n ==> s[k] !in ".:%"
    ensures Dispatch(s, i) == match s[n] case '.' => ParseIPv4(s) case ':' => ParseIPv6(s) case _ => Err(MissingAddress)
    decreases n - i
  {
    if i < n {
      assert s[i] !in ".:%";
      DispatchOn(s, i + 1, n);
    }
  }

  lemma DottedGoesTo4(a: Octet, b: Octet, c: Octet, d: Octet)
    ensures ParseAddr(Dotted(a, b, c, d)) == ParseIPv4(Dotted(a, b, c, d))
  {
    var s := Dotted(a, b, c, d);
    DottedIsRead(a, b, c, d);
    DecimalIsPlain(a);
    assert forall k :: 0 <= k < |Decimal(a)| ==> s[k] == Decimal(a)[k];
    DispatchOn(s, 0, |Decimal(a)|);
  }

  /** The first colon of the text stands behind its first group. */
  lemma FirstColon(ws: seq<Word>, more: Bytes)
    requires ws != [] && (|ws| > 1 || (more != [] && more[0] == ':'))
    ensures var s, n := Groups(ws) + more, |Hex(ws[0])|;
      n < |s| && s[n] == ':' && forall k :: 0 <= k < n ==> s[k] == Hex(ws[0])[k]
  {
  }

  lemma GroupsGoTo6(ws: seq<Word>, more: Bytes)
    requires ws != [] && (|ws| > 1 || (more != [] && more[0] == ':'))
    ensures ParseAddr(Groups(ws) + more) == ParseIPv6(Groups(ws) + more)
  {
    HexIsPlain(ws[0]);
    FirstColon(ws, more);
    DispatchOn(Groups(ws) + more, 0, |Hex(ws[0])|);
  }

  lemma ColonGoesTo6(s: Bytes)
    requires s != [] && s[0] == ':'
    ensures ParseAddr(s) == ParseIPv6(s)
  {
    DispatchOn(s, 0, 0);
  }

  lemma InnerGoesTo6(before: seq<Word>, after: seq<Word>, zone: Bytes)
    requires before != []
    ensures var s := Groups(before) + [':', ':'] + Groups(after) + zone; ParseAddr(s) == ParseIPv6(s)
  {
    var more := [':', ':'] + Groups(after) + zone;
    Regroup(Groups(before), [':', ':'], Groups(after));
    Regroup(Groups(before), [':', ':'] + Groups(after), zone);
    GroupsGoTo6(before, more);
  }

  lemma ShortenedGoesTo6(ws: seq<Word>, start: nat, end: nat, zone: Bytes)
    requires |ws| == 8 && (start == 255 || start <= end <= 8)
    ensures var s := Shortened(ws, start, end) + zone; ParseAddr(s) == ParseIPv6(s)
  {
    if start == 255 {
      GroupsGoTo6(ws, zone);
    } else if start == 0 {
      assert ws[..0] == [] && Groups([]) == [];
      assert (Shortened(ws, start, end) + zone)[0] == ':';
      ColonGoesTo6(Shortened(ws, start, end) + zone);
    } else {
      InnerGoesTo6(ws[..start], ws[end..], zone);
    }
  }

  /** Whatever String prints for a valid address, ParseAddr reads that address back. */
  lemma StringIsParsed(ip: Addr, s: Bytes)
    requires Valid(ip) && IsString(ip, s)
    ensures ParseAddr(s) == Ok(ip)
  {
    if ip.z == Z4 {
      MappedAddr(ip);
      DottedIsRead(V4(ip, 0), V4(ip, 1), V4(ip, 2), V4(ip, 3));
      DottedGoesTo4(V4(ip, 0), V4(ip, 1), V4(ip, 2), V4(ip, 3));
    } else if Is4In6(ip) {
      MappedIsParsed(ip);
    } else {
      var start: nat, end: nat :| LongestRun(Words(ip), start, end)
        && s == Shortened(Words(ip), start, end) + ZoneText(Zone(ip));
      ShortenedIsParsed(ip, start, end);
    }
  }

  lemma MappedIsParsed(ip: Addr)
    requires Is4In6(ip)
    ensures ParseAddr("::ffff:" + String4(Unmap(ip)) + ZoneText(Zone(ip))) == Ok(ip)
  {
    var a, b, c, d := V4(ip, 0), V4(ip, 1), V4(ip, 2), V4(ip, 3);
    var front: Bytes := "::ffff:" + Dotted(a, b, c, d);
    var s := front + ZoneText(Zone(ip));
    MappedAddr(ip);
    MappedIsRead(a, b, c, d);
    DottedIsPlain(a, b, c, d);
    assert Plain("::ffff:");
    ZoneIsSplit(front, ip.z);
    assert s[0] == ':';
    DispatchOn(s, 0, 0);
  }

  lemma ShortenedIsParsed(ip: Addr, start: nat, end: nat)
    requires Is6(ip) && LongestRun(Words(ip), start, end)
    ensures ParseAddr(Shortened(Words(ip), start, end) + ZoneText(Zone(ip))) == Ok(ip)
  {
    var ws := Words(ip);
    ShortenedIsRead(ws, start, end);
    ShortenedIsPlain(ws, start, end);
    WordsMakeAddr(ip);
    ZoneIsSplit(Shortened(ws, start, end), ip.z);
    ShortenedGoesTo6(ws, start, end, ZoneText(Zone(ip)));
  }

  /** Everything ParseAddr accepts is a valid address, so printing and parsing it again changes nothing. */
  lemma ParsedIsStable(s: Bytes, s': Bytes)
    requires ParseAddr(s).Ok? && IsString(ParseAddr(s).value, s')
    ensures Valid(ParseAddr(s).value) && ParseAddr(s') == ParseAddr(s)
  {
    ParsedIsValid(s, 0);
    StringIsParsed(ParseAddr(s).value, s');
  }

  lemma {:induction false} ParsedIsValid(s: Bytes, i: nat)
    requires i <= |s| && Dispatch(s, i).Ok?
    ensures Valid(Dispatch(s, i).value)
    decreases |s| - i
  {
    match s[i]
    case '.' => LowEnough(Octets4(s, 0, 0, []).value);
    case ':' =>
    case _ => ParsedIsValid(s, i + 1);
  }

  lemma LowEnough(b: seq<Octet>)
    requires |b| == 4
    ensures Valid(AddrFrom4(b))
  {
  }
}
