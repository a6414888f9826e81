/** Bytes and byte strings, as Go's string and []byte hold them. */
module GoBytes {
  /** One byte. */
  type Byte = c: char | c as int < 256 witness 'a'
  type Bytes = seq<Byte>

  lemma Regroup(a: Bytes, b: Bytes, c: Bytes)
    ensures a + (b + c) == (a + b) + c
  {
  }

  predicate IsHex(c: Byte) {
    '0' <= c <= '9' || 'a' <= c <= 'f' || 'A' <= c <= 'F'
  }

  function UnHex(c: Byte): (n: nat)
    ensures n < 16
  {
    if '0' <= c <= '9' then c as int - '0' as int
    else if 'a' <= c <= 'f' then c as int - 'a' as int + 10
    else if 'A' <= c <= 'F' then c as int - 'A' as int + 10
    else 0
  }

  /** upperhex[n] */
  function UpperHex(n: nat): (c: Byte)
    requires n < 16
    ensures IsHex(c) && UnHex(c) == n
  {
    if n < 10 then (n + '0' as int) as char else (n - 10 + 'A' as int) as char
  }
}
