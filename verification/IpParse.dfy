/** Parsing IP addresses (netip/netip.go). */
module IpParse {
  import opened GoBytes
  import opened Strings
  import opened IpAddr

  datatype ParseError =
    | LeadingZero | OctetTooBig | EmptyOctet | TooManyOctets | TooFewOctets | UnexpectedCharacter
    | MissingAddress | UnableToParse | EmptyZone | GroupTooBig | EmptyGroup | MisplacedIPv4 | NoRoomForIPv4
    | WantColon | ColonAtEnd | MultipleEllipsis | TrailingGarbage | TooFewGroups | EllipsisForNothing

  datatype Result<T> = Ok(value: T) | Err(error: ParseError)

  // ---- dotted decimal ----

  predicate IsDigit(c: Byte) {
    '0' <= c <= '9'
  }

  /** parseIPv4Fields on the rest s of its text: val and digLen are the octet in progress, fields the octets
      before it. */
  function Octets4(s: Bytes, val: Octet, digLen: nat, fields: seq<Octet>): (r: Result<seq<Octet>>)
    requires |fields| <= 3
    ensures r.Ok? ==> |r.value| == 4
  {
    if s == [] then if |fields| < 3 then Err(TooFewOctets) else Ok(fields + [val])
    else if IsDigit(s[0]) then
      if digLen == 1 && val == 0 then Err(LeadingZero)
      else
        var v := val * 10 + (s[0] as int - '0' as int);
        if v > 255 then Err(OctetTooBig) else Octets4(s[1..], v, digLen + 1, fields)
    else if s[0] == '.' then
      if digLen == 0 || |s| == 1 then Err(EmptyOctet)
      else if |fields| == 3 then Err(TooManyOctets)
      else Octets4(s[1..], 0, 0, fields + [val])
    else Err(UnexpectedCharacter)
  }

  // ---- groups ----

  /** One hexadecimal group at the front of s: its value and its length. */
  function HexGroup(s: Bytes, off: nat, acc: Word): (r: Result<(Word, nat)>)
    requires off <= |s|
    ensures r.Ok? ==> off <= r.value.1 <= |s|
    decreases |s| - off
  {
    if off < |s| && IsHex(s[off]) then
      var a := acc * 0x10 + UnHex(s[off]);
      if a > 0xffff then Err(GroupTooBig) else HexGroup(s, off + 1, a)
    else Ok((acc, off))
  }

  /** The group loop of parseIPv6 from the rest s on: the bytes so far, the place of the ellipsis (-1 when there is
      none yet), and in the answer also the text that is left. */
  function Groups6(s: Bytes, ip: seq<Octet>, ellipsis: int): (r: Result<(seq<Octet>, int, Bytes)>)
    requires |ip| <= 16 && |ip| % 2 == 0 && -1 <= ellipsis <= |ip|
    ensures r.Ok? ==> |r.value.0| <= 16 && -1 <= r.value.1 <= |r.value.0|
    decreases |s|
  {
    if |ip| == 16 then Ok((ip, ellipsis, s))
    else
      match HexGroup(s, 0, 0)
      case Err(e) => Err(e)
      case Ok((acc, off)) =>
        if off == 0 then Err(EmptyGroup)
        else if off < |s| && s[off] == '.' then
          if ellipsis < 0 && |ip| != 12 then Err(MisplacedIPv4)
          else if |ip| + 4 > 16 then Err(NoRoomForIPv4)
          else
            match Octets4(s, 0, 0, [])
            case Err(e) => Err(e)
            case Ok(b) => Ok((ip + b, ellipsis, []))
        else AfterGroup(s[off..], ip + [acc / 0x100, acc % 0x100], ellipsis)
  }

  /** The part of the loop after a group is saved. */
  function AfterGroup(s: Bytes, ip: seq<Octet>, ellipsis: int): (r: Result<(seq<Octet>, int, Bytes)>)
    requires |ip| <= 16 && |ip| % 2 == 0 && -1 <= ellipsis <= |ip|
    ensures r.Ok? ==> |r.value.0| <= 16 && -1 <= r.value.1 <= |r.value.0|
    decreases |s|
  {
    if s == [] then Ok((ip, ellipsis, []))
    else if s[0] != ':' then Err(WantColon)
    else if |s| == 1 then Err(ColonAtEnd)
    else if s[1] != ':' then Groups6(s[1..], ip, ellipsis)
    else if ellipsis >= 0 then Err(MultipleEllipsis)
    else if |s| == 2 then Ok((ip, |ip|, []))
    else Groups6(s[2..], ip, |ip|)
  }

  function Zeros(n: nat): (z: seq<Octet>)
    ensures |z| == n
  {
    seq(n, _ => 0)
  }

  /** The end of parseIPv6: the ellipsis takes the place of the missing bytes. */
  function Expand(ip: seq<Octet>, ellipsis: int, rest: Bytes): (r: Result<seq<Octet>>)
    requires |ip| <= 16 && -1 <= ellipsis <= |ip|
    ensures r.Ok? ==> |r.value| == 16
  {
    if rest != [] then Err(TrailingGarbage)
    else if |ip| < 16 then
      if ellipsis < 0 then Err(TooFewGroups) else Ok(ip[..ellipsis] + Zeros(16 - |ip|) + ip[ellipsis..])
    else if ellipsis >= 0 then Err(EllipsisForNothing)
    else Ok(ip)
  }

  /** parseIPv6 once the zone is split off. */
  function Parse16(s: Bytes): (r: Result<seq<Octet>>)
    ensures r.Ok? ==> |r.value| == 16
  {
    var leading := |s| >= 2 && s[0] == ':' && s[1] == ':';
    if leading && |s| == 2 then Ok(Zeros(16))
    else
      match Groups6(if leading then s[2..] else s, [], if leading then 0 else -1)
      case Err(e) => Err(e)
      case Ok((ip, ellipsis, rest)) => Expand(ip, ellipsis, rest)
  }

  function ParseIPv6(s: Bytes): (r: Result<Addr>) {
    var (address, zone, found) := Cut(s, '%');
    if found && zone == [] then Err(EmptyZone)
    else
      match Parse16(address)
      case Err(e) => Err(e)
      case Ok(ip) => Ok(WithZone(AddrFrom16(ip), zone))
  }

  function ParseIPv4(s: Bytes): (r: Result<Addr>) {
    match Octets4(s, 0, 0, [])
    case Err(e) => Err(e)
    case Ok(b) => Ok(AddrFrom4(b))
  }

  /** The first '.', ':' or '%' of s[i..] decides. */
  function Dispatch(s: Bytes, i: nat): (r: Result<Addr>)
    requires i <= |s|
    decreases |s| - i
  {
    if i == |s| then Err(UnableToParse)
    else match s[i]
      case '.' => ParseIPv4(s)
      case ':' => ParseIPv6(s)
      case '%' => Err(MissingAddress)
      case _ => Dispatch(s, i + 1)
  }

  function ParseAddr(s: Bytes): (r: Result<Addr>) {
    Dispatch(s, 0)
  }

  // ---- the loops ----

  /** parseIPv4Fields; the octets go to fields[at..at + 4]. */
  method ParseIPv4Fields(s: Bytes, fields: array<Octet>, at: nat) returns (err: Result<bool>)
    requires at + 4 <= fields.Length
    modifies fields
    ensures match Octets4(s, 0, 0, [])
      case Err(e) => err == Err(e)
      case Ok(b) => err == Ok(true) && fields[..] == old(fields[..at]) + b + old(fields[at + 4..])
  {
    var val: Octet, pos: nat, digLen: nat := 0, 0, 0;
    for i := 0 to |s|
      invariant pos <= 3
      invariant digLen == 0 <==> i == 0 || s[i - 1] == '.'
      invariant fields[..at] == old(fields[..at]) && fields[at + 4..] == old(fields[at + 4..])
      invariant Octets4(s[i..], val, digLen, fields[at..at + pos]) == Octets4(s, 0, 0, [])
    {
      assert s[i..][1..] == s[i + 1..];
      if IsDigit(s[i]) {
        if digLen == 1 && val == 0 {
          return Err(LeadingZero);
        }
        var v := val * 10 + (s[i] as int - '0' as int);
        if v > 255 {
          return Err(OctetTooBig);
        }
        val := v;
        digLen := digLen + 1;
      } else if s[i] == '.' {
        if i == 0 || i == |s| - 1 || s[i - 1] == '.' {
          return Err(EmptyOctet);
        }
        if pos == 3 {
          return Err(TooManyOctets);
        }
        ghost var before := fields[at..at + pos];
        fields[at + pos] := val;
        assert fields[at..at + pos + 1] == before + [val];
        pos := pos + 1;
        val := 0;
        digLen := 0;
      } else {
        return Err(UnexpectedCharacter);
      }
    }
    if pos < 3 {
      return Err(TooFewOctets);
    }
    ghost var before := fields[at..at + 3];
    fields[at + 3] := val;
    assert fields[at..at + 4] == before + [val];
    assert fields[..] == fields[..at] + fields[at..at + 4] + fields[at + 4..];
    return Ok(true);
  }

  /** The hexadecimal number in front of s. */
  method ScanHex(s: Bytes) returns (r: Result<(Word, nat)>)
    ensures r == HexGroup(s, 0, 0)
  {
    var off, acc: Word := 0, 0;
    while off < |s| && IsHex(s[off])
      invariant off <= |s| && HexGroup(s, off, acc) == HexGroup(s, 0, 0)
      decreases |s| - off
    {
      var a := acc * 0x10 + UnHex(s[off]);
      if a > 0xffff {
        return Err(GroupTooBig);
      }
      acc := a;
      off := off + 1;
    }
    return Ok((acc, off));
  }

  /** The bytes from ellipsis to i move to the end of the array. */
  method ShiftUp(ip: array<Octet>, i: nat, ellipsis: nat)
    requires ip.Length == 16 && ellipsis <= i < 16
    modifies ip
    ensures ip[..ellipsis] == old(ip[..ellipsis])
    ensures ip[ellipsis + 16 - i..] == old(ip[ellipsis..i])
  {
    var n := 16 - i;
    var j := i - 1;
    while j >= ellipsis
      invariant ellipsis - 1 <= j < i
      invariant forall k :: 0 <= k <= j ==> ip[k] == old(ip[k])
      invariant forall k :: 0 <= k < ellipsis ==> ip[k] == old(ip[k])
      invariant forall k :: j + n < k < 16 ==> ip[k] == old(ip[k - n])
    {
      ip[j + n] := ip[j];
      j := j - 1;
    }
  }

  method ClearGap(ip: array<Octet>, from: nat, to: nat)
    requires from <= to <= ip.Length
    modifies ip
    ensures ip[..] == old(ip[..from]) + Zeros(to - from) + old(ip[to..])
  {
    var j := to - 1;
    while j >= from
      invariant from - 1 <= j < to
      invariant ip[..from] == old(ip[..from]) && ip[to..] == old(ip[to..])
      invariant forall k :: j < k < to ==> ip[k] == 0
    {
      ip[j] := 0;
      j := j - 1;
    }
    assert ip[from..to] == Zeros(to - from);
    assert ip[..] == ip[..from] + ip[from..to] + ip[to..];
  }

  /** The two loops that expand the ellipsis in place: the bytes behind it move to the end, zeros fill the gap. */
  method ExpandInPlace(ip: array<Octet>, i: nat, ellipsis: nat)
    requires ip.Length == 16 && ellipsis <= i < 16
    modifies ip
    ensures ip[..] == old(ip[..ellipsis]) + Zeros(16 - i) + old(ip[ellipsis..i])
  {
    ShiftUp(ip, i, ellipsis);
    ClearGap(ip, ellipsis, ellipsis + 16 - i);
  }

  /** What a turn of the group loop leaves to do. */
  datatype Turn = Done | Again | Failed(error: ParseError)

  /** One turn of the group loop of parseIPv6, on the array ip with i bytes filled. */
  method ParseGroup(s: Bytes, ip: array<Octet>, i: nat, ellipsis: int)
    returns (turn: Turn, s': Bytes, i': nat, ellipsis': int)
    requires ip.Length == 16 && i < 16 && i % 2 == 0 && -1 <= ellipsis <= i
    modifies ip
    ensures i' <= 16 && -1 <= ellipsis' <= i' && i' % 2 == 0
    ensures match turn
      case Failed(e) => Groups6(s, old(ip[..i]), ellipsis) == Err(e)
      case Done => Groups6(s, old(ip[..i]), ellipsis) == Ok((ip[..i'], ellipsis', s'))
      case Again => |s'| < |s| && Groups6(s, old(ip[..i]), ellipsis) == Groups6(s', ip[..i'], ellipsis')
  {
    turn, s', i', ellipsis' := Done, s, i, ellipsis;
    var scanned := ScanHex(s);
    if scanned.Err? {
      turn := Failed(scanned.error);
      return;
    }
    var (acc, off) := scanned.value;
    if off == 0 {
      turn := Failed(EmptyGroup);
      return;
    }
    if off < |s| && s[off] == '.' {
      if ellipsis < 0 && i != 12 {
        turn := Failed(MisplacedIPv4);
        return;
      }
      if i + 4 > 16 {
        turn := Failed(NoRoomForIPv4);
        return;
      }
      var err := ParseIPv4Fields(s, ip, i);
      if err.Err? {
        turn := Failed(err.error);
        return;
      }
      s' := [];
      i' := i + 4;
      assert ip[..i + 4] == ip[..][..i + 4];
      return;
    }
    ghost var before := ip[..i];
    ip[i] := acc / 0x100;
    ip[i + 1] := acc % 0x100;
    assert ip[..i + 2] == before + [acc / 0x100, acc % 0x100];
    i' := i + 2;
    s' := s[off..];
    if |s'| == 0 {
      return;
    }
    if s'[0] != ':' {
      turn := Failed(WantColon);
      return;
    } else if |s'| == 1 {
      turn := Failed(ColonAtEnd);
      return;
    }
    s' := s'[1..];
    if s'[0] == ':' {
      if ellipsis >= 0 {
        turn := Failed(MultipleEllipsis);
        return;
      }
      ellipsis' := i';
      s' := s'[1..];
      if |s'| == 0 {
        return;
      }
    }
    turn := Again;
  }

  /** The body of parseIPv6 once the zone is split off. */
  method Parse16Into(text: Bytes) returns (r: Result<seq<Octet>>)
    ensures r == Parse16(text)
  {
    var s := text;
    var ip := new Octet[16](_ => 0);
    var ellipsis := -1;
    if |s| >= 2 && s[0] == ':' && s[1] == ':' {
      ellipsis := 0;
      s := s[2..];
      if |s| == 0 {
        assert ip[..] == Zeros(16);
        return Ok(ip[..]);
      }
    }
    ghost var start, startEllipsis := s, ellipsis;
    var i, turn := 0, Again;
    while i < 16 && turn == Again
      invariant i <= 16 && -1 <= ellipsis <= i && i % 2 == 0
      invariant turn.Again? ==> Groups6(s, ip[..i], ellipsis) == Groups6(start, [], startEllipsis)
      invariant turn.Done? ==> Groups6(start, [], startEllipsis) == Ok((ip[..i], ellipsis, s))
      invariant turn.Failed? ==> Groups6(start, [], startEllipsis) == Err(turn.error)
      decreases turn.Again?, |s|
    {
      turn, s, i, ellipsis := ParseGroup(s, ip, i, ellipsis);
    }
    if turn.Failed? {
      return Err(turn.error);
    }
    assert Groups6(start, [], startEllipsis) == Ok((ip[..i], ellipsis, s));
    if |s| != 0 {
      return Err(TrailingGarbage);
    }
    if i < 16 {
      if ellipsis < 0 {
        return Err(TooFewGroups);
      }
      ghost var before := ip[..i];
      assert before[..ellipsis] == ip[..ellipsis] && before[ellipsis..] == ip[ellipsis..i];
      ExpandInPlace(ip, i, ellipsis);
    } else if ellipsis >= 0 {
      return Err(EllipsisForNothing);
    } else {
      assert ip[..16] == ip[..];
    }
    return Ok(ip[..]);
  }

  method ParseIPv6Into(s: Bytes) returns (r: Result<Addr>)
    ensures r == ParseIPv6(s)
  {
    var (address, zone, found) := Cut(s, '%');
    if found && zone == [] {
      return Err(EmptyZone);
    }
    var ip := Parse16Into(address);
    if ip.Err? {
      return Err(ip.error);
    }
    return Ok(WithZone(AddrFrom16(ip.value), zone));
  }

  method ParseIPv4Into(s: Bytes) returns (r: Result<Addr>)
    ensures r == ParseIPv4(s)
  {
    var fields := new Octet[4](_ => 0);
    var err := ParseIPv4Fields(s, fields, 0);
    if err.Err? {
      return Err(err.error);
    }
    return Ok(AddrFrom4(fields[..]));
  }

  method ParseAddrInto(s: Bytes) returns (r: Result<Addr>)
    ensures r == ParseAddr(s)
  {
    for i := 0 to |s|
      invariant Dispatch(s, i) == Dispatch(s, 0)
    {
      match s[i]
      case '.' =>
        r := ParseIPv4Into(s);
        return;
      case ':' =>
        r := ParseIPv6Into(s);
        return;
      case '%' =>
        return Err(MissingAddress);
      case _ =>
    }
    return Err(UnableToParse);
  }
}
