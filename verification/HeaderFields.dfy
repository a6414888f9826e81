/** Headers as handlers set them, fields as they go over the wire, and how a client finds out from the fields where a
    reply's body ends (http/header.go, http/transfer.go). */
module HeaderFields {
  import opened GoBytes
  import opened Options
  import opened Chunked

  // ---- Header, a map from keys to lists of values ----

  datatype Entry = Entry(key: Bytes, values: seq<Bytes>)

  /** A Go map, in whatever order it hands out its entries. */
  type HeaderMap = seq<Entry>

  predicate IsMap(h: HeaderMap) {
    forall i, j :: 0 <= i < j < |h| ==> h[i].key != h[j].key
  }

  const LENGTH: Bytes := "Content-Length"
  const ENCODING: Bytes := "Transfer-Encoding"

  /** h[key] */
  function Values(h: HeaderMap, key: Bytes): (list: seq<Bytes>) {
    if h == [] then [] else if h[0].key == key then h[0].values else Values(h[1..], key)
  }

  /** get: the first value only. */
  function Get(h: HeaderMap, key: Bytes): (text: Bytes) {
    if Values(h, key) == [] then [] else Values(h, key)[0]
  }

  predicate Has(h: HeaderMap, key: Bytes) {
    exists i :: 0 <= i < |h| && h[i].key == key
  }

  lemma {:induction false} NotThere(h: HeaderMap, key: Bytes)
    requires !Has(h, key)
    ensures Values(h, key) == []
  {
    if h != [] {
      assert forall i :: 0 <= i < |h| - 1 ==> h[1..][i] == h[i + 1];
      NotThere(h[1..], key);
    }
  }

  /** Del of a canonical key. */
  function Del(h: HeaderMap, key: Bytes): (header: HeaderMap) {
    if h == [] then [] else (if h[0].key == key then [] else [h[0]]) + Del(h[1..], key)
  }

  /** Set of a canonical key. */
  function Put(h: HeaderMap, key: Bytes, value: Bytes): (header: HeaderMap) {
    Del(h, key) + [Entry(key, [value])]
  }

  // ---- numbers ----

  predicate Digits(s: Bytes) {
    s != [] && forall i :: 0 <= i < |s| ==> '0' <= s[i] <= '9'
  }

  function Decimal(s: Bytes): (n: nat)
    requires forall i :: 0 <= i < |s| ==> '0' <= s[i] <= '9'
  {
    if s == [] then 0 else Decimal(s[..|s| - 1]) * 10 + (s[|s| - 1] as int - '0' as int)
  }

  const INT64_LIMIT := 0x8000_0000_0000_0000

  /** strconv.ParseInt(s, 10, 64): a sign is allowed. */
  function ParseInt(s: Bytes): (r: Option<int>) {
    var signed := s != [] && (s[0] == '+' || s[0] == '-');
    var digits := if signed then s[1..] else s;
    if !Digits(digits) then None
    else
      var n: int := Decimal(digits);
      if signed && s[0] == '-' then if n <= INT64_LIMIT then Some(-n) else None
      else if n < INT64_LIMIT then Some(n) else None
  }

  /** strconv.ParseUint(s, 10, 63): no sign. */
  function ParseUint(s: Bytes): (r: Option<nat>) {
    if Digits(s) && Decimal(s) < INT64_LIMIT then Some(Decimal(s)) else None
  }

  /** strconv.AppendInt(_, n, 10) */
  function Itoa(n: nat): (s: Bytes)
    ensures Digits(s)
  {
    if n < 10 then [(n + '0' as int) as char] else Itoa(n / 10) + [(n % 10 + '0' as int) as char]
  }

  lemma {:induction false} ItoaIsRead(n: nat)
    ensures Decimal(Itoa(n)) == n
  {
    if n >= 10 {
      ItoaIsRead(n / 10);
      assert Itoa(n)[..|Itoa(n)| - 1] == Itoa(n / 10);
    } else {
      assert Itoa(n)[..0] == [];
    }
  }

  /** What the server reads in a Content-Length; -1 when there is none, or a bad one. */
  function LengthOf(h: HeaderMap): (n: int)
    ensures -1 <= n < INT64_LIMIT
  {
    var cl := Get(h, LENGTH);
    match ParseInt(cl)
    case None => -1
    case Some(v) => if v >= 0 then v else -1
  }

  // ---- fields on the wire ----

  datatype Field = Field(name: Bytes, value: Bytes)

  /** headerNewlineToSpace.Replace */
  function Spaced(v: Bytes): (text: Bytes) {
    if v == [] then [] else [if v[0] == '\n' || v[0] == '\r' then ' ' else v[0]] + Spaced(v[1..])
  }

  function TrimFront(v: Bytes): (text: Bytes) {
    if v != [] && IsSpace(v[0]) then TrimFront(v[1..]) else v
  }

  /** A value as writeSubset writes it. */
  function Clean(v: Bytes): (text: Bytes) {
    Trim(TrimFront(Spaced(v)))
  }

  lemma {:induction false} SpacedIsSame(v: Bytes)
    requires forall i :: 0 <= i < |v| ==> !IsSpace(v[i])
    ensures Spaced(v) == v
  {
    if v != [] {
      SpacedIsSame(v[1..]);
      assert v == [v[0]] + v[1..];
    }
  }

  /** A number is written as it is. */
  lemma NumberIsClean(v: Bytes)
    requires ParseInt(v).Some?
    ensures Clean(v) == v
  {
    forall i | 0 <= i < |v| ensures !IsSpace(v[i]) {
      assert i > 0 ==> v[i] == v[1..][i - 1];
    }
    SpacedIsSame(v);
  }

  function Lower(c: Byte): (r: Byte) {
    if 'A' <= c <= 'Z' then (c as int + 32) as char else c
  }

  /** Equal but for the case of ASCII letters: what textproto makes of keys, and ascii.EqualFold. */
  predicate EqualFold(a: Bytes, b: Bytes) {
    |a| == |b| && forall i :: 0 <= i < |a| ==> Lower(a[i]) == Lower(b[i])
  }

  predicate IsFraming(key: Bytes) {
    EqualFold(key, LENGTH) || EqualFold(key, ENCODING)
  }

  function FieldsOf(key: Bytes, values: seq<Bytes>): (list: seq<Field>) {
    if values == [] then [] else [Field(key, Clean(values[0]))] + FieldsOf(key, values[1..])
  }

  /** The fields that writeSubset writes for the header, as far as they have to do with framing. */
  function Written(h: HeaderMap): (list: seq<Field>) {
    if h == [] then []
    else (if IsFraming(h[0].key) then FieldsOf(h[0].key, h[0].values) else []) + Written(h[1..])
  }

  // ---- how a client reads them ----

  /** The values of a field, whatever the case of its name. */
  function Named(fields: seq<Field>, name: Bytes): (list: seq<Bytes>) {
    if fields == [] then []
    else (if EqualFold(fields[0].name, name) then [fields[0].value] else []) + Named(fields[1..], name)
  }

  lemma {:induction false} NamedConcat(a: seq<Field>, b: seq<Field>, name: Bytes)
    ensures Named(a + b, name) == Named(a, name) + Named(b, name)
  {
    if a == [] {
      assert a + b == b;
    } else {
      assert (a + b)[1..] == a[1..] + b;
      NamedConcat(a[1..], b, name);
    }
  }

  predicate AllSame(vs: seq<Bytes>) {
    forall i :: 0 <= i < |vs| ==> vs[i] == vs[0]
  }

  /** Where the body ends: there is none, behind the last chunk, after n bytes, at the end of the connection; or the
      client refuses the reply. */
  datatype Framing = NoBody | Chunks | Length(n: nat) | UntilClose | Refused

  /** parseTransferEncoding and fixLength for a response. */
  function ReadFraming(fields: seq<Field>, is11: bool, noBody: bool): (r: Framing) {
    var encodings, lengths := Named(fields, ENCODING), Named(fields, LENGTH);
    if is11 && encodings != [] && !(|encodings| == 1 && EqualFold(encodings[0], "chunked")) then Refused
    else if !AllSame(lengths) then Refused
    else if lengths != [] && ParseUint(lengths[0]) == None then Refused
    else if noBody then NoBody
    else if is11 && encodings != [] then Chunks
    else if lengths != [] then Length(ParseUint(lengths[0]).value)
    else UntilClose
  }

  // ---- what a header makes of it ----

  /** The values of all spellings of a key in a header, as they are written; own says whether the key itself stays. */
  function Spellings(h: HeaderMap, name: Bytes, own: bool): (list: seq<Bytes>) {
    if h == [] then []
    else
      (if EqualFold(h[0].key, name) && (own || h[0].key != name) then CleanAll(h[0].values) else [])
      + Spellings(h[1..], name, own)
  }

  function CleanAll(vs: seq<Bytes>): (r: seq<Bytes>)
    ensures |r| == |vs|
  {
    seq(|vs|, i requires 0 <= i < |vs| => Clean(vs[i]))
  }

  lemma {:induction false} NamedOfOne(key: Bytes, values: seq<Bytes>, name: Bytes)
    ensures Named(FieldsOf(key, values), name) == if EqualFold(key, name) then CleanAll(values) else []
  {
    if values != [] {
      NamedOfOne(key, values[1..], name);
      var fields := FieldsOf(key, values);
      assert fields[0] == Field(key, Clean(values[0])) && fields[1..] == FieldsOf(key, values[1..]);
      assert CleanAll(values) == [Clean(values[0])] + CleanAll(values[1..]);
    }
  }

  /** The client finds all spellings of a key. */
  lemma {:induction false} WrittenIsNamed(h: HeaderMap, name: Bytes)
    requires name == LENGTH || name == ENCODING
    ensures Named(Written(h), name) == Spellings(h, name, true)
  {
    if h != [] {
      WrittenIsNamed(h[1..], name);
      NamedOfOne(h[0].key, h[0].values, name);
      NamedConcat(if IsFraming(h[0].key) then FieldsOf(h[0].key, h[0].values) else [], Written(h[1..]), name);
    }
  }

  /** Deleting a key deletes its own spelling only, and nothing of the other key. */
  lemma {:induction false} DeletedSpellings(h: HeaderMap, name: Bytes, own: bool)
    ensures Spellings(Del(h, name), name, own) == Spellings(h, name, false)
    ensures !EqualFold(LENGTH, ENCODING)
  {
    if h != [] {
      DeletedSpellings(h[1..], name, own);
      var rest := Del(h[1..], name);
      if h[0].key != name {
        assert Del(h, name) == [h[0]] + rest;
        assert ([h[0]] + rest)[1..] == rest;
      } else {
        assert Del(h, name) == [] + rest == rest;
      }
    }
  }

  lemma {:induction false} DeletedOther(h: HeaderMap, name: Bytes, other: Bytes, own: bool)
    requires !EqualFold(other, name)
    ensures Spellings(Del(h, other), name, own) == Spellings(h, name, own)
  {
    if h != [] {
      DeletedOther(h[1..], name, other, own);
      var rest := Del(h[1..], other);
      if h[0].key != other {
        assert Del(h, other) == [h[0]] + rest;
        assert ([h[0]] + rest)[1..] == rest;
      } else {
        assert Del(h, other) == [] + rest == rest;
      }
    }
  }

  /** The first value of a key is among those of its spellings. */
  lemma {:induction false} OwnIsSpelled(h: HeaderMap, name: Bytes)
    requires Values(h, name) != []
    ensures Clean(Get(h, name)) in Spellings(h, name, true)
  {
    if h[0].key == name {
      assert CleanAll(h[0].values)[0] == Clean(Get(h, name));
    } else {
      OwnIsSpelled(h[1..], name);
    }
  }

  lemma {:induction false} NoneOfItsOwn(h: HeaderMap, name: Bytes)
    requires !Has(h, name)
    ensures Spellings(h, name, true) == Spellings(h, name, false)
  {
    if h != [] {
      assert forall i :: 0 <= i < |h| - 1 ==> h[1..][i] == h[i + 1];
      NoneOfItsOwn(h[1..], name);
    }
  }

  lemma {:induction false} ValuesOther(h: HeaderMap, key: Bytes, deleted: Bytes)
    requires key != deleted
    ensures Values(Del(h, deleted), key) == Values(h, key)
  {
    if h != [] {
      ValuesOther(h[1..], key, deleted);
      var rest := Del(h[1..], deleted);
      if h[0].key != deleted {
        assert Del(h, deleted) == [h[0]] + rest;
        assert ([h[0]] + rest)[1..] == rest;
      } else {
        assert Del(h, deleted) == [] + rest == rest;
      }
    }
  }

  /** An entry with a key of its own changes nothing of other keys. */
  lemma {:induction false} AppendedOther(h: HeaderMap, e: Entry, name: Bytes, own: bool)
    requires !EqualFold(e.key, name)
    ensures Spellings(h + [e], name, own) == Spellings(h, name, own)
    ensures e.key != name ==> Values(h + [e], name) == Values(h, name)
  {
    if h == [] {
      assert h + [e] == [e] && [e][1..] == [];
    } else {
      assert (h + [e])[1..] == h[1..] + [e] && (h + [e])[0] == h[0];
      AppendedOther(h[1..], e, name, own);
    }
  }
}
