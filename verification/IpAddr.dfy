/** IP addresses (netip/netip.go, netip/leaf_alts.go): two 64-bit halves and a zone, and the packing of bytes and words
    into the halves. */
module IpAddr {
  import opened GoBytes

  type Octet = x: nat | x < 0x100
  type Word = x: nat | x < 0x1_0000
  type Half = x: nat | x < 0x1_0000_0000_0000_0000

  type ZoneName = s: Bytes | s != [] witness ['e']

  /** The pointer z: nil, z4, z6noz or an interned zone, which WithZone never makes from an empty name. */
  datatype Family = Z0 | Z4 | Z6NoZone | Z6(zone: ZoneName)

  datatype Addr = Addr(hi: Half, lo: Half, z: Family)

  /** The addresses the package hands out: an IPv4 address sits in the IPv4-mapped range. */
  predicate Valid(ip: Addr) {
    ip.z != Z0 && (ip.z == Z4 ==> ip.hi == 0 && ip.lo / 0x1_0000_0000 == 0xffff)
  }

  predicate Is6(ip: Addr) {
    ip.z.Z6NoZone? || ip.z.Z6?
  }

  predicate Is4In6(ip: Addr) {
    Is6(ip) && ip.hi == 0 && ip.lo / 0x1_0000_0000 == 0xffff
  }

  function Zone(ip: Addr): (text: Bytes) {
    if ip.z.Z6? then ip.z.zone else []
  }

  function WithZone(ip: Addr, zone: Bytes): (addr: Addr) {
    if !Is6(ip) then ip
    else if zone == [] then ip.(z := Z6NoZone)
    else ip.(z := Z6(zone))
  }

  function Unmap(ip: Addr): (addr: Addr) {
    if Is4In6(ip) then ip.(z := Z4) else ip
  }

  /** beUint64 */
  function BeUint64(b: seq<Octet>): (v: Half)
    requires |b| == 8
  {
    b[7] as int + b[6] as int * 0x100 + b[5] as int * 0x1_0000 + b[4] as int * 0x100_0000 + b[3] as int * 0x1_0000_0000
    + b[2] as int * 0x100_0000_0000 + b[1] as int * 0x1_0000_0000_0000 + b[0] as int * 0x100_0000_0000_0000
  }

  /** bePutUint64 */
  method BePutUint64(b: array<Octet>, at: nat, v: Half)
    requires at + 8 <= b.Length
    modifies b
    ensures BeUint64(b[at..at + 8]) == v
    ensures b[..at] == old(b[..at]) && b[at + 8..] == old(b[at + 8..])
  {
    b[at] := v / 0x100_0000_0000_0000;
    b[at + 1] := v / 0x1_0000_0000_0000 % 0x100;
    b[at + 2] := v / 0x100_0000_0000 % 0x100;
    b[at + 3] := v / 0x1_0000_0000 % 0x100;
    b[at + 4] := v / 0x100_0000 % 0x100;
    b[at + 5] := v / 0x1_0000 % 0x100;
    b[at + 6] := v / 0x100 % 0x100;
    b[at + 7] := v % 0x100;
    BytesOf(v);
  }

  lemma Shift16(v: nat)
    ensures v / 0x1_0000 == v / 0x100 / 0x100
  {
    var x := v / 0x100;
    assert v == (x / 0x100) * 0x1_0000 + (x % 0x100) * 0x100 + v % 0x100;
  }

  lemma Shift24(v: nat)
    ensures v / 0x100_0000 == v / 0x1_0000 / 0x100
  {
    var x := v / 0x1_0000;
    assert v == (x / 0x100) * 0x100_0000 + (x % 0x100) * 0x1_0000 + v % 0x1_0000;
  }

  lemma Shift32(v: nat)
    ensures v / 0x1_0000_0000 == v / 0x100_0000 / 0x100
  {
    var x := v / 0x100_0000;
    assert v == (x / 0x100) * 0x1_0000_0000 + (x % 0x100) * 0x100_0000 + v % 0x100_0000;
  }

  lemma Shift40(v: nat)
    ensures v / 0x100_0000_0000 == v / 0x1_0000_0000 / 0x100
  {
    var x := v / 0x1_0000_0000;
    assert v == (x / 0x100) * 0x100_0000_0000 + (x % 0x100) * 0x1_0000_0000 + v % 0x1_0000_0000;
  }

  lemma Shift48(v: nat)
    ensures v / 0x1_0000_0000_0000 == v / 0x100_0000_0000 / 0x100
  {
    var x := v / 0x100_0000_0000;
    assert v == (x / 0x100) * 0x1_0000_0000_0000 + (x % 0x100) * 0x100_0000_0000 + v % 0x100_0000_0000;
  }

  lemma Shift56(v: nat)
    ensures v / 0x100_0000_0000_0000 == v / 0x1_0000_0000_0000 / 0x100
  {
    var x := v / 0x1_0000_0000_0000;
    assert v == (x / 0x100) * 0x100_0000_0000_0000 + (x % 0x100) * 0x1_0000_0000_0000 + v % 0x1_0000_0000_0000;
  }

  /** A half is the sum of its shifted bytes. */
  lemma BytesOf(v: Half)
    ensures v == v % 0x100 + v / 0x100 % 0x100 * 0x100 + v / 0x1_0000 % 0x100 * 0x1_0000
      + v / 0x100_0000 % 0x100 * 0x100_0000 + v / 0x1_0000_0000 % 0x100 * 0x1_0000_0000
      + v / 0x100_0000_0000 % 0x100 * 0x100_0000_0000 + v / 0x1_0000_0000_0000 % 0x100 * 0x1_0000_0000_0000
      + v / 0x100_0000_0000_0000 * 0x100_0000_0000_0000
    ensures v / 0x100_0000_0000_0000 < 0x100
  {
    Shift16(v);
    Shift24(v);
    Shift32(v);
    Shift40(v);
    Shift48(v);
    Shift56(v);
  }

  function AddrFrom4(b: seq<Octet>): (addr: Addr)
    requires |b| == 4
  {
    Addr(0, 0xffff_0000_0000 + b[0] as int * 0x100_0000 + b[1] as int * 0x1_0000 + b[2] as int * 0x100 + b[3] as int,
      Z4)
  }

  function AddrFrom16(b: seq<Octet>): (addr: Addr)
    requires |b| == 16
  {
    Addr(BeUint64(b[..8]), BeUint64(b[8..]), Z6NoZone)
  }

  /** v4 */
  function V4(ip: Addr, i: nat): (r: Octet)
    requires i < 4
  {
    ip.lo / (match i case 0 => 0x100_0000 case 1 => 0x1_0000 case 2 => 0x100 case _ => 1) % 0x100
  }

  function WordOf(half: Half, i: nat): (r: Word)
    requires i < 4
  {
    half / (match i case 0 => 0x1_0000_0000_0000 case 1 => 0x1_0000_0000 case 2 => 0x1_0000 case _ => 1) % 0x1_0000
  }

  /** v6u16 */
  function V6u16(ip: Addr, i: nat): (r: Word)
    requires i < 8
  {
    WordOf(if i < 4 then ip.hi else ip.lo, i % 4)
  }

  /** The eight 16-bit groups of an address. */
  function Words(ip: Addr): (ws: seq<Word>)
    ensures |ws| == 8
  {
    seq(8, i requires 0 <= i < 8 => V6u16(ip, i))
  }

  /** Big-endian bytes of a list of words. */
  function Octets(ws: seq<Word>): (b: seq<Octet>)
    ensures |b| == 2 * |ws|
  {
    if ws == [] then [] else [ws[0] / 0x100, ws[0] % 0x100] + Octets(ws[1..])
  }

  lemma HalfOfWords(half: Half)
    ensures half == WordOf(half, 0) as int * 0x1_0000_0000_0000 + WordOf(half, 1) as int * 0x1_0000_0000
      + WordOf(half, 2) as int * 0x1_0000 + WordOf(half, 3) as int
  {
    var q1, q2 := half / 0x1_0000, half / 0x1_0000_0000;
    assert half == q1 * 0x1_0000 + half % 0x1_0000;
    TwoWords(half);
    TwoWords(q1);
    FourWords(half);
  }

  lemma TwoWords(v: nat)
    ensures v / 0x1_0000_0000 == v / 0x1_0000 / 0x1_0000
  {
    var x := v / 0x1_0000;
    assert v == (x / 0x1_0000) * 0x1_0000_0000 + (x % 0x1_0000) * 0x1_0000 + v % 0x1_0000;
  }

  lemma FourWords(v: nat)
    ensures v / 0x1_0000_0000_0000 == v / 0x1_0000_0000 / 0x1_0000
  {
    var x := v / 0x1_0000_0000;
    assert v == (x / 0x1_0000) * 0x1_0000_0000_0000 + (x % 0x1_0000) * 0x1_0000_0000 + v % 0x1_0000_0000;
  }

  lemma {:induction false} OctetsConcat(a: seq<Word>, b: seq<Word>)
    ensures Octets(a + b) == Octets(a) + Octets(b)
  {
    if a == [] {
      assert a + b == b;
    } else {
      assert (a + b)[1..] == a[1..] + b;
      OctetsConcat(a[1..], b);
    }
  }

  lemma PackFour(w: seq<Word>)
    requires |w| == 4
    ensures BeUint64(Octets(w))
      == w[0] as int * 0x1_0000_0000_0000 + w[1] as int * 0x1_0000_0000 + w[2] as int * 0x1_0000 + w[3] as int
  {
    assert w[1..][1..] == w[2..] && w[2..][1..] == w[3..] && w[3..][1..] == [];
    assert Octets(w[3..]) == [w[3] / 0x100, w[3] % 0x100] + [];
    assert Octets(w[2..]) == [w[2] / 0x100, w[2] % 0x100] + Octets(w[3..]);
    assert Octets(w[1..]) == [w[1] / 0x100, w[1] % 0x100] + Octets(w[2..]);
  }

  /** Packing the bytes of an address's groups gives the address back. */
  lemma WordsMakeAddr(ip: Addr)
    ensures AddrFrom16(Octets(Words(ip))) == ip.(z := Z6NoZone)
  {
    var ws := Words(ip);
    assert ws == ws[..4] + ws[4..];
    OctetsConcat(ws[..4], ws[4..]);
    PackFour(ws[..4]);
    PackFour(ws[4..]);
    HalfOfWords(ip.hi);
    HalfOfWords(ip.lo);
  }

  /** As16; AddrFrom16 undoes it but for the zone. */
  method As16(ip: Addr) returns (a16: array<Octet>)
    ensures fresh(a16) && a16.Length == 16 && AddrFrom16(a16[..]) == ip.(z := Z6NoZone)
  {
    a16 := new Octet[16](_ => 0);
    BePutUint64(a16, 0, ip.hi);
    assert a16[..8] == a16[0..8];
    BePutUint64(a16, 8, ip.lo);
    assert a16[..][..8] == a16[..8];
    assert a16[8..16] == a16[8..];
    assert a16[..][8..] == a16[8..];
  }
}
