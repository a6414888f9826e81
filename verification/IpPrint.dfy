/** Printing IP addresses (netip/netip.go): dotted decimal, and the shortened form of section 4.2 of RFC 5952. */
module IpPrint {
  import opened GoBytes
  import opened IpAddr

  /** digits[n] */
  function Digit(n: nat): (c: Byte)
    requires n < 16
    ensures IsHex(c) && UnHex(c) == n
  {
    if n < 10 then (n + '0' as int) as char else (n - 10 + 'a' as int) as char
  }

  /** What appendDecimal appends. */
  function Decimal(x: Octet): (text: Bytes) {
    (if x >= 100 then [Digit(x / 100)] else []) + (if x >= 10 then [Digit(x / 10 % 10)] else []) + [Digit(x % 10)]
  }

  /** What appendHex appends. */
  function Hex(x: Word): (text: Bytes) {
    (if x >= 0x1000 then [Digit(x / 0x1000)] else [])
    + (if x >= 0x100 then [Digit(x / 0x100 % 0x10)] else [])
    + (if x >= 0x10 then [Digit(x / 0x10 % 0x10)] else [])
    + [Digit(x % 0x10)]
  }

  /** What appendTo4 appends. */
  function Dotted(a: Octet, b: Octet, c: Octet, d: Octet): (text: Bytes) {
    Decimal(a) + ['.'] + Decimal(b) + ['.'] + Decimal(c) + ['.'] + Decimal(d)
  }

  function String4(ip: Addr): (text: Bytes) {
    Dotted(V4(ip, 0), V4(ip, 1), V4(ip, 2), V4(ip, 3))
  }

  // ---- the run of zeros that is left out ----

  predicate ZerosBetween(ws: seq<Word>, i: nat, j: nat)
    requires j <= |ws|
  {
    forall k :: i <= k < j ==> ws[k] == 0
  }

  /** The run from start to end is the first of the longest runs of at least two zeros; 255 says that there is none. */
  predicate LongestRun(ws: seq<Word>, start: nat, end: nat) {
    if start == 255 then
      end == 255 && forall i, j :: 0 <= i <= j <= |ws| && ZerosBetween(ws, i, j) ==> j - i < 2
    else
      && start + 2 <= end <= |ws| && ZerosBetween(ws, start, end)
      && forall i, j :: 0 <= i <= j <= |ws| && ZerosBetween(ws, i, j) ==>
        j - i < end - start || (j - i == end - start && start <= i)
  }

  lemma LongestRunIsUnique(ws: seq<Word>, start: nat, end: nat, start': nat, end': nat)
    requires |ws| == 8 && LongestRun(ws, start, end) && LongestRun(ws, start', end')
    ensures start == start' && end == end'
  {
    if start != 255 { assert ZerosBetween(ws, start, end); }
    if start' != 255 { assert ZerosBetween(ws, start', end'); }
  }

  /** The groups with a colon between them. */
  function Groups(ws: seq<Word>): (text: Bytes) {
    if ws == [] then []
    else if |ws| == 1 then Hex(ws[0])
    else Hex(ws[0]) + [':'] + Groups(ws[1..])
  }

  /** The groups with "::" in place of those from start to end. */
  function Shortened(ws: seq<Word>, start: nat, end: nat): (text: Bytes)
    requires start == 255 || start <= end <= |ws|
  {
    if start == 255 then Groups(ws) else Groups(ws[..start]) + [':', ':'] + Groups(ws[end..])
  }

  function ZoneText(zone: Bytes): (text: Bytes) {
    if zone == [] then [] else ['%'] + zone
  }

  /** What String returns. */
  ghost predicate IsString(ip: Addr, s: Bytes) {
    match ip.z
    case Z0 => s == "invalid IP"
    case Z4 => s == String4(ip)
    case _ =>
      if Is4In6(ip) then s == "::ffff:" + String4(Unmap(ip)) + ZoneText(Zone(ip))
      else
        exists start: nat, end: nat ::
          LongestRun(Words(ip), start, end) && s == Shortened(Words(ip), start, end) + ZoneText(Zone(ip))
  }

  lemma {:induction false} GroupsSnoc(ws: seq<Word>, w: Word)
    ensures Groups(ws + [w]) == if ws == [] then Hex(w) else Groups(ws) + [':'] + Hex(w)
  {
    if ws == [] {
      assert ws + [w] == [w];
    } else {
      assert (ws + [w])[1..] == ws[1..] + [w];
      GroupsSnoc(ws[1..], w);
      if |ws| == 1 {
        assert ws[1..] + [w] == [w];
      } else {
        Regroup(Hex(ws[0]) + [':'], Groups(ws[1..]), [':']);
        Regroup(Hex(ws[0]) + [':'], Groups(ws[1..]) + [':'], Hex(w));
      }
    }
  }

  lemma RunEnds(ws: seq<Word>, i: nat, j: nat)
    requires i <= j <= |ws| && (j < |ws| ==> ws[j] != 0)
    ensures forall b :: i <= b <= |ws| && ZerosBetween(ws, i, b) ==> b <= j
  {
  }

  /** The first loop of appendTo6. */
  method FindZeros(ip: Addr) returns (zeroStart: nat, zeroEnd: nat)
    ensures LongestRun(Words(ip), zeroStart, zeroEnd)
  {
    ghost var ws := Words(ip);
    zeroStart, zeroEnd := 255, 255;
    for i := 0 to 8
      invariant if zeroStart == 255 then zeroEnd == 255
        else (zeroStart < i && zeroStart + 2 <= zeroEnd <= 8 && ZerosBetween(ws, zeroStart, zeroEnd))
      invariant forall a, b :: 0 <= a < i && a <= b <= 8 && ZerosBetween(ws, a, b) ==>
        (if zeroStart == 255 then b - a < 2
         else (b - a < zeroEnd - zeroStart || (b - a == zeroEnd - zeroStart && zeroStart <= a)))
    {
      var j := i;
      while j < 8 && V6u16(ip, j) == 0
        invariant i <= j <= 8 && ZerosBetween(ws, i, j)
      {
        j := j + 1;
      }
      RunEnds(ws, i, j);
      var l := j - i;
      if l >= 2 && l > zeroEnd - zeroStart {
        zeroStart, zeroEnd := i, j;
      }
    }
  }

  /** What the second loop of appendTo6 has written before it looks at group i. */
  ghost function WrittenTo(ws: seq<Word>, start: nat, end: nat, i: nat): (text: Bytes)
    requires i <= |ws| && (start == 255 || start <= end <= |ws|)
    requires start != 255 && i > start ==> i >= end
  {
    if start == 255 || i <= start then Groups(ws[..i]) else Groups(ws[..start]) + [':', ':'] + Groups(ws[end..i])
  }

  lemma WriteNext(ws: seq<Word>, i: nat)
    requires i < |ws|
    ensures Groups(ws[..i + 1]) == if i == 0 then Hex(ws[i]) else Groups(ws[..i]) + [':'] + Hex(ws[i])
  {
    assert ws[..i + 1] == ws[..i] + [ws[i]];
    GroupsSnoc(ws[..i], ws[i]);
  }

  /** The second loop of appendTo6. */
  method WriteGroups(ip: Addr, zeroStart: nat, zeroEnd: nat) returns (ret: Bytes)
    requires LongestRun(Words(ip), zeroStart, zeroEnd)
    ensures ret == Shortened(Words(ip), zeroStart, zeroEnd)
  {
    ghost var ws := Words(ip);
    ret := [];
    var i := 0;
    while i < 8
      invariant i <= 8 && (zeroStart != 255 && i > zeroStart ==> i > zeroEnd)
      invariant ret == WrittenTo(ws, zeroStart, zeroEnd, i)
      decreases 8 - i
    {
      if i == zeroStart {
        ret := ret + [':', ':'];
        i := zeroEnd;
        if i >= 8 {
          assert ws[zeroEnd..] == [];
          return;
        }
        assert ws[zeroEnd..zeroEnd + 1] == [ws[zeroEnd]];
      } else if i > 0 {
        AppendGroup(ws, zeroStart, zeroEnd, i, ret);
        ret := ret + [':'];
      }
      ret := ret + Hex(V6u16(ip, i));
      i := i + 1;
    }
    assert ws[..8] == ws;
    assert zeroStart != 255 ==> ws[zeroEnd..8] == ws[zeroEnd..];
  }

  lemma AppendAfterRun(ws: seq<Word>, start: nat, end: nat, i: nat)
    requires start <= end < i < |ws|
    ensures Groups(ws[..start]) + [':', ':'] + Groups(ws[end..i]) + [':'] + Hex(ws[i])
         == Groups(ws[..start]) + [':', ':'] + Groups(ws[end..i + 1])
  {
    var tail := ws[end..];
    assert ws[end..i] == tail[..i - end] && ws[end..i + 1] == tail[..i - end + 1];
    WriteNext(tail, i - end);
    RegroupColon(Groups(ws[..start]) + [':', ':'], Groups(ws[end..i]), Hex(ws[i]));
  }

  lemma AppendGroup(ws: seq<Word>, start: nat, end: nat, i: nat, ret: Bytes)
    requires 0 < i < |ws| && i != start && (start == 255 || start <= end <= |ws|)
    requires start != 255 && i > start ==> i > end
    requires ret == WrittenTo(ws, start, end, i)
    ensures ret + [':'] + Hex(ws[i]) == WrittenTo(ws, start, end, i + 1)
  {
    if start == 255 || i < start {
      WriteNext(ws, i);
    } else {
      AppendAfterRun(ws, start, end, i);
    }
  }

  lemma RegroupColon(a: Bytes, b: Bytes, c: Bytes)
    ensures a + b + [':'] + c == a + (b + [':'] + c)
  {
    Regroup(a, b, [':']);
    Regroup(a, b + [':'], c);
  }

  /** What appendTo6 appends. */
  method String6(ip: Addr) returns (s: Bytes)
    requires Is6(ip)
    ensures exists start: nat, end: nat ::
      LongestRun(Words(ip), start, end) && s == Shortened(Words(ip), start, end) + ZoneText(Zone(ip))
  {
    var zeroStart, zeroEnd := FindZeros(ip);
    s := WriteGroups(ip, zeroStart, zeroEnd);
    ghost var front := s;
    if ip.z != Z6NoZone {
      s := s + ['%'];
      s := s + Zone(ip);
      Regroup(front, ['%'], Zone(ip));
    } else {
      assert front + [] == front;
    }
    assert LongestRun(Words(ip), zeroStart, zeroEnd)
      && s == Shortened(Words(ip), zeroStart, zeroEnd) + ZoneText(Zone(ip));
  }

  method String4In6(ip: Addr) returns (s: Bytes)
    requires Is4In6(ip)
    ensures s == "::ffff:" + String4(Unmap(ip)) + ZoneText(Zone(ip))
  {
    ghost var front := "::ffff:" + String4(Unmap(ip));
    var z := Zone(ip);
    if z != [] {
      s := "::ffff:" + String4(Unmap(ip)) + ['%'] + z;
      Regroup(front, ['%'], z);
    } else {
      s := "::ffff:" + String4(Unmap(ip));
      assert front + [] == front;
    }
  }

  /** String */
  method String(ip: Addr) returns (s: Bytes)
    ensures IsString(ip, s)
  {
    match ip.z
    case Z0 => s := "invalid IP";
    case Z4 => s := String4(ip);
    case _ =>
      if Is4In6(ip) {
        s := String4In6(ip);
      } else {
        s := String6(ip);
      }
  }
}
