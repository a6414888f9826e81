/** The operations of Go's strings package that the modelled code uses, on bytes. */
module Strings {
  import opened GoBytes

  /** strings.Cut(s, string(c)) */
  function Cut(s: Bytes, c: Byte): (r: (Bytes, Bytes, bool))
    ensures c !in r.0
    ensures r.2 <==> c in s
    ensures s == if r.2 then r.0 + [c] + r.1 else r.0
    ensures !r.2 ==> r.1 == []
    ensures |r.1| <= |s| && (s != [] ==> |r.1| < |s|)
  {
    if s == [] then ([], [], false)
    else if s[0] == c then ([], s[1..], true)
    else
      var (before, after, found) := Cut(s[1..], c);
      assert s == [s[0]] + s[1..];
      ([s[0]] + before, after, found)
  }

  /** Cut is determined by what it promises. */
  lemma {:induction false} CutAt(a: Bytes, c: Byte, b: Bytes)
    requires c !in a
    ensures Cut(a + [c] + b, c) == (a, b, true)
  {
    var s := a + [c] + b;
    if a == [] {
      assert s[0] == c && s[1..] == b;
    } else {
      assert s[0] == a[0] && s[1..] == a[1..] + [c] + b;
      CutAt(a[1..], c, b);
      assert [a[0]] + a[1..] == a;
    }
  }

  lemma {:induction false} CutNowhere(s: Bytes, c: Byte)
    requires c !in s
    ensures Cut(s, c) == (s, [], false)
  {
    if s != [] {
      CutNowhere(s[1..], c);
      assert s == [s[0]] + s[1..];
    }
  }

  /** strings.LastIndexByte(s, c), -1 when there is none */
  function LastIndex(s: Bytes, c: Byte): (i: int)
    ensures -1 <= i < |s|
    ensures i >= 0 ==> s[i] == c
    ensures forall k :: i < k < |s| ==> s[k] != c
  {
    if s == [] then -1
    else if s[|s| - 1] == c then |s| - 1
    else LastIndex(s[..|s| - 1], c)
  }

  /** LastIndex is determined by what it promises. */
  lemma LastIndexAt(s: Bytes, n: nat, c: Byte)
    requires n < |s| && s[n] == c && c !in s[n + 1..]
    ensures LastIndex(s, c) == n
  {
    forall k | n < k < |s| ensures s[k] != c {
      assert s[k] == s[n + 1..][k - n - 1];
    }
  }

  /** strings.Index(s, sub), -1 when there is none */
  function Index(s: Bytes, sub: Bytes): (i: int)
    ensures -1 <= i <= |s|
    ensures i >= 0 ==> i + |sub| <= |s| && s[i..][..|sub|] == sub
  {
    if |s| < |sub| then -1
    else if s[..|sub|] == sub then 0
    else if s == [] then -1
    else
      var i := Index(s[1..], sub);
      assert i >= 0 ==> s[1..][i..] == s[i + 1..];
      if i < 0 then -1 else i + 1
  }
}
