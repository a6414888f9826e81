/** The query codec (url/url.go): Values.Encode and ParseQuery. */
module UrlQuery {
  import opened Options
  import opened GoBytes
  import opened UrlEscape
  import opened Strings

  type Values = map<Bytes, seq<Bytes>>

  datatype QueryError = Semicolon | BadEscape(error: UrlEscape.Error)

  // ---- parseQuery ----

  /** Values.Add */
  function Add(m: Values, key: Bytes, value: Bytes): (r: Values) {
    m[key := (if key in m then m[key] else []) + [value]]
  }

  /** What parseQuery does with one &-separated piece. */
  function ParsePiece(m: Values, err: Option<QueryError>, piece: Bytes): (r: (Values, Option<QueryError>)) {
    if ';' in piece then (m, Some(Semicolon))
    else if piece == [] then (m, err)
    else
      var (rawKey, rawValue, _) := Cut(piece, '=');
      match Unescape(rawKey, QueryComponent)
      case Err(e) => (m, if err == None then Some(BadEscape(e)) else err)
      case Ok(key) =>
        match Unescape(rawValue, QueryComponent)
        case Err(e) => (m, if err == None then Some(BadEscape(e)) else err)
        case Ok(value) => (Add(m, key, value), err)
  }

  function ParseFrom(m: Values, err: Option<QueryError>, query: Bytes): (r: (Values, Option<QueryError>))
    decreases |query|
  {
    if query == [] then (m, err)
    else
      var (piece, rest, _) := Cut(query, '&');
      var (m', err') := ParsePiece(m, err, piece);
      ParseFrom(m', err', rest)
  }

  /** ParseQuery, with the loop of parseQuery adding to its map. */
  method ParseQuery(query: Bytes) returns (m: Values, err: Option<QueryError>)
    ensures (m, err) == ParseFrom(map[], None, query)
  {
    m, err := map[], None;
    var rest := query;
    while rest != []
      invariant ParseFrom(m, err, rest) == ParseFrom(map[], None, query)
      decreases |rest|
    {
      var (piece, after, _) := Cut(rest, '&');
      rest := after;
      if ';' in piece {
        err := Some(Semicolon);
        continue;
      }
      if piece == [] {
        continue;
      }
      var (rawKey, rawValue, _) := Cut(piece, '=');
      var key := UnescapeInto(rawKey, QueryComponent);
      if key.Err? {
        if err == None {
          err := Some(BadEscape(key.error));
        }
        continue;
      }
      var value := UnescapeInto(rawValue, QueryComponent);
      if value.Err? {
        if err == None {
          err := Some(BadEscape(value.error));
        }
        continue;
      }
      m := m[key.value := (if key.value in m then m[key.value] else []) + [value.value]];
    }
  }

  // ---- Encode ----

  /** The key-value pairs of v in the order of `keys`. */
  function Pairs(v: Values, keys: seq<Bytes>): (list: seq<(Bytes, Bytes)>) {
    if keys == [] then []
    else PairsOf(keys[0], if keys[0] in v then v[keys[0]] else []) + Pairs(v, keys[1..])
  }

  function PairsOf(key: Bytes, values: seq<Bytes>): (list: seq<(Bytes, Bytes)>) {
    if values == [] then [] else [(key, values[0])] + PairsOf(key, values[1..])
  }

  function PairText(p: (Bytes, Bytes)): (text: Bytes) {
    Escape(p.0, QueryComponent) + ['='] + Escape(p.1, QueryComponent)
  }

  /** The builder after writing the pairs. */
  function Write(buf: Bytes, pairs: seq<(Bytes, Bytes)>): (text: Bytes)
    decreases |pairs|
  {
    if pairs == [] then buf
    else Write((if buf == [] then [] else buf + ['&']) + PairText(pairs[0]), pairs[1..])
  }

  /** Byte-wise lexicographic order, the order of sort.Strings. */
  predicate Less(a: Bytes, b: Bytes) {
    b != [] && (a == [] || a[0] < b[0] || (a[0] == b[0] && Less(a[1..], b[1..])))
  }

  /** The keys of v as Encode collects and sorts them. */
  ghost predicate SortedKeys(keys: seq<Bytes>, v: Values) {
    && (forall i, j :: 0 <= i < j < |keys| ==> Less(keys[i], keys[j]))
    && (forall k :: k in keys <==> k in v)
  }

  /** The inner loop of Encode: one key with all its values. */
  method WriteKey(buf: Bytes, k: Bytes, vs: seq<Bytes>, ghost rest: seq<(Bytes, Bytes)>) returns (r: Bytes)
    ensures Write(r, rest) == Write(buf, PairsOf(k, vs) + rest)
  {
    r := buf;
    var keyEscaped := EscapeInto(k, QueryComponent);
    for j := 0 to |vs|
      invariant Write(r, PairsOf(k, vs[j..]) + rest) == Write(buf, PairsOf(k, vs) + rest)
    {
      assert vs[j..][1..] == vs[j + 1..];
      assert (PairsOf(k, vs[j..]) + rest)[1..] == PairsOf(k, vs[j + 1..]) + rest;
      if |r| > 0 {
        r := r + ['&'];
      }
      var valueEscaped := EscapeInto(vs[j], QueryComponent);
      r := r + (keyEscaped + ['='] + valueEscaped);
    }
    assert PairsOf(k, vs[|vs|..]) + rest == rest;
  }

  /** Encode; `keys` is what sort.Strings leaves of the collected keys. */
  method Encode(v: Values, keys: seq<Bytes>) returns (r: Bytes)
    requires SortedKeys(keys, v)
    ensures r == Write([], Pairs(v, keys))
  {
    r := [];
    for i := 0 to |keys|
      invariant Write(r, Pairs(v, keys[i..])) == Write([], Pairs(v, keys))
    {
      assert keys[i] in v;
      assert keys[i..][1..] == keys[i + 1..];
      r := WriteKey(r, keys[i], v[keys[i]], Pairs(v, keys[i + 1..]));
    }
  }

  // ---- the codec ----

  /** What a list of pairs means: the values of each key in order. */
  function Collect(m: Values, pairs: seq<(Bytes, Bytes)>): (r: Values)
    decreases |pairs|
  {
    if pairs == [] then m else Collect(Add(m, pairs[0].0, pairs[0].1), pairs[1..])
  }

  lemma {:induction false} EscapedIsPlain(s: Bytes)
    ensures var t := Escape(s, QueryComponent); '&' !in t && ';' !in t && '=' !in t
  {
    if s != [] {
      EscapedIsPlain(s[1..]);
    }
  }

  lemma PieceIsRead(m: Values, p: (Bytes, Bytes))
    ensures ParsePiece(m, None, PairText(p)) == (Add(m, p.0, p.1), None)
  {
    EscapedIsPlain(p.0);
    EscapedIsPlain(p.1);
    CutAt(Escape(p.0, QueryComponent), '=', Escape(p.1, QueryComponent));
    RoundTripExactly(p.0, QueryComponent);
    RoundTripExactly(p.1, QueryComponent);
  }

  /** The text of a non-empty list of pairs, without the builder. */
  function Text(pairs: seq<(Bytes, Bytes)>): (text: Bytes)
    requires pairs != []
  {
    if |pairs| == 1 then PairText(pairs[0]) else PairText(pairs[0]) + ['&'] + Text(pairs[1..])
  }

  lemma {:induction false} WriteIsText(buf: Bytes, pairs: seq<(Bytes, Bytes)>)
    requires pairs != []
    ensures Write(buf, pairs) == (if buf == [] then [] else buf + ['&']) + Text(pairs)
    decreases |pairs|
  {
    var start := if buf == [] then [] else buf + ['&'];
    if |pairs| > 1 {
      WriteIsText(start + PairText(pairs[0]), pairs[1..]);
      Regroup(start, PairText(pairs[0]) + ['&'], Text(pairs[1..]));
      Regroup(start, PairText(pairs[0]), ['&']);
    }
  }

  lemma {:induction false} TextIsRead(m: Values, pairs: seq<(Bytes, Bytes)>)
    requires pairs != []
    ensures ParseFrom(m, None, Text(pairs)) == (Collect(m, pairs), None)
    decreases |pairs|
  {
    var piece := PairText(pairs[0]);
    PieceIsRead(m, pairs[0]);
    EscapedIsPlain(pairs[0].0);
    EscapedIsPlain(pairs[0].1);
    if |pairs| == 1 {
      CutNowhere(piece, '&');
      assert ParseFrom(Add(m, pairs[0].0, pairs[0].1), None, []) == (Add(m, pairs[0].0, pairs[0].1), None);
    } else {
      CutAt(piece, '&', Text(pairs[1..]));
      TextIsRead(Add(m, pairs[0].0, pairs[0].1), pairs[1..]);
    }
  }

  lemma {:induction false} CollectConcat(m: Values, a: seq<(Bytes, Bytes)>, b: seq<(Bytes, Bytes)>)
    ensures Collect(m, a + b) == Collect(Collect(m, a), b)
    decreases |a|
  {
    if a == [] {
      assert a + b == b;
    } else {
      assert (a + b)[1..] == a[1..] + b;
      CollectConcat(Add(m, a[0].0, a[0].1), a[1..], b);
    }
  }

  /** m with `values` added at the end of the list of `key`. */
  function AddAll(m: Values, key: Bytes, values: seq<Bytes>): (r: Values) {
    if values == [] then m else m[key := (if key in m then m[key] else []) + values]
  }

  lemma AddAllStep(m: Values, key: Bytes, value: Bytes, values: seq<Bytes>)
    ensures AddAll(Add(m, key, value), key, values) == AddAll(m, key, [value] + values)
  {
    var before := if key in m then m[key] else [];
    assert before + [value] + values == before + ([value] + values);
    if values == [] {
      assert [value] + values == [value];
    } else {
      var m' := Add(m, key, value);
      assert m'[key := m'[key] + values] == m[key := before + ([value] + values)];
    }
  }

  lemma {:induction false} CollectOneKey(m: Values, key: Bytes, values: seq<Bytes>)
    ensures Collect(m, PairsOf(key, values)) == AddAll(m, key, values)
    decreases |values|
  {
    if values != [] {
      assert values == [values[0]] + values[1..];
      assert PairsOf(key, values)[1..] == PairsOf(key, values[1..]);
      CollectOneKey(Add(m, key, values[0]), key, values[1..]);
      AddAllStep(m, key, values[0], values[1..]);
    }
  }

  /** The keys of `keys` that have values. */
  function Kept(v: Values, keys: seq<Bytes>): (r: Values) {
    map k | k in keys && k in v && v[k] != [] :: v[k]
  }

  lemma KeptStep(m: Values, v: Values, keys: seq<Bytes>)
    requires keys != [] && keys[0] in v && keys[0] !in m && keys[0] !in keys[1..]
    ensures AddAll(m, keys[0], v[keys[0]]) + Kept(v, keys[1..]) == m + Kept(v, keys)
  {
    var k0 := keys[0];
    assert forall k :: k in keys <==> k == k0 || k in keys[1..];
    assert [] + v[k0] == v[k0];
    var left, right := AddAll(m, k0, v[k0]) + Kept(v, keys[1..]), m + Kept(v, keys);
    assert left.Keys == right.Keys;
    forall k | k in left ensures left[k] == right[k] {
      if k == k0 {
        assert k0 !in Kept(v, keys[1..]);
      }
    }
  }

  /** Collecting the pairs of keys that m does not have adds exactly their non-empty lists. */
  lemma {:induction false} CollectPairs(m: Values, v: Values, keys: seq<Bytes>)
    requires forall i, j :: 0 <= i < j < |keys| ==> keys[i] != keys[j]
    requires forall k :: k in keys ==> k in v && k !in m
    ensures Collect(m, Pairs(v, keys)) == m + Kept(v, keys)
    decreases |keys|
  {
    if keys == [] {
      assert m + Kept(v, keys) == m;
    } else {
      var k0 := keys[0];
      CollectConcat(m, PairsOf(k0, v[k0]), Pairs(v, keys[1..]));
      CollectOneKey(m, k0, v[k0]);
      assert k0 !in keys[1..];
      CollectPairs(AddAll(m, k0, v[k0]), v, keys[1..]);
      KeptStep(m, v, keys);
    }
  }

  lemma {:induction false} LessIsStrict(a: Bytes, b: Bytes)
    requires Less(a, b)
    ensures !Less(b, a)
  {
    if a != [] && a[0] == b[0] {
      LessIsStrict(a[1..], b[1..]);
    }
  }

  lemma WrittenIsRead(pairs: seq<(Bytes, Bytes)>)
    ensures ParseFrom(map[], None, Write([], pairs)) == (Collect(map[], pairs), None)
  {
    if pairs != [] {
      WriteIsText([], pairs);
      TextIsRead(map[], pairs);
      assert [] + Text(pairs) == Text(pairs);
    }
  }

  /** The keys of v that have at least one value, with their values. */
  function NonEmpty(v: Values): (r: Values) {
    map k | k in v && v[k] != [] :: v[k]
  }

  lemma NothingLost(v: Values)
    ensures NonEmpty(v) == v <==> forall k :: k in v ==> v[k] != []
  {
    forall k | k in v && v[k] == [] ensures NonEmpty(v) != v {
      assert k !in NonEmpty(v);
    }
  }

  lemma SortedKeysDiffer(keys: seq<Bytes>, v: Values)
    requires SortedKeys(keys, v)
    ensures forall i, j :: 0 <= i < j < |keys| ==> keys[i] != keys[j]
  {
    forall i, j | 0 <= i < j < |keys| ensures keys[i] != keys[j] {
      if keys[i] == keys[j] { LessIsStrict(keys[i], keys[j]); }
    }
  }

  lemma CollectAll(v: Values, keys: seq<Bytes>)
    requires SortedKeys(keys, v)
    ensures Collect(map[], Pairs(v, keys)) == NonEmpty(v)
  {
    SortedKeysDiffer(keys, v);
    CollectPairs(map[], v, keys);
    assert map[] + Kept(v, keys) == NonEmpty(v);
  }

  /** ParseQuery undoes Encode, except that a key with an empty list leaves no trace. */
  lemma EncodeThenParse(v: Values, keys: seq<Bytes>)
    requires SortedKeys(keys, v)
    ensures ParseFrom(map[], None, Write([], Pairs(v, keys))) == (NonEmpty(v), None)
    ensures ParseFrom(map[], None, Write([], Pairs(v, keys))) == (v, None) <==> forall k :: k in v ==> v[k] != []
  {
    WrittenIsRead(Pairs(v, keys));
    CollectAll(v, keys);
    NothingLost(v);
  }

  lemma SameEmptiness(keys: seq<Bytes>, keys': seq<Bytes>, v: Values)
    requires SortedKeys(keys, v) && SortedKeys(keys', v) && keys != []
    ensures keys' != []
  {
    assert keys[0] in keys;
    assert keys[0] in keys';
  }

  lemma {:induction false} LessIsTransitive(a: Bytes, b: Bytes, c: Bytes)
    requires Less(a, b) && Less(b, c)
    ensures Less(a, c)
  {
    if a != [] && a[0] == b[0] && b[0] == c[0] {
      LessIsTransitive(a[1..], b[1..], c[1..]);
    }
  }

  lemma {:induction false} LessIsTotal(a: Bytes, b: Bytes)
    requires a != b
    ensures Less(a, b) || Less(b, a)
  {
    if a != [] && b != [] && a[0] == b[0] {
      assert a == [a[0]] + a[1..] && b == [b[0]] + b[1..];
      LessIsTotal(a[1..], b[1..]);
    }
  }

  /** Where k belongs among sorted keys. */
  lemma {:induction false} PlaceFor(k: Bytes, keys: seq<Bytes>, v: Values) returns (i: nat)
    requires SortedKeys(keys, v) && k !in v
    ensures i <= |keys| && (forall j :: 0 <= j < i ==> Less(keys[j], k))
      && (forall j :: i <= j < |keys| ==> Less(k, keys[j]))
  {
    i := 0;
    while i < |keys| && Less(keys[i], k)
      invariant i <= |keys| && forall j :: 0 <= j < i ==> Less(keys[j], k)
    {
      i := i + 1;
    }
    if i < |keys| {
      assert keys[i] in keys;
      LessIsTotal(keys[i], k);
      forall j | i <= j < |keys| ensures Less(k, keys[j]) {
        if i < j { LessIsTransitive(k, keys[i], keys[j]); }
      }
    }
  }

  /** Every map has sorted keys. */
  lemma {:induction false} SortedKeysExist(v: Values) returns (keys: seq<Bytes>)
    ensures SortedKeys(keys, v)
    decreases |v|
  {
    if v == map[] {
      keys := [];
    } else {
      var k :| k in v;
      var less := SortedKeysExist(v - {k});
      var i := PlaceFor(k, less, v - {k});
      Inserted(k, less, i, v);
      keys := less[..i] + [k] + less[i..];
    }
  }

  lemma Inserted(k: Bytes, less: seq<Bytes>, i: nat, v: Values)
    requires k in v && SortedKeys(less, v - {k})
    requires i <= |less| && (forall j :: 0 <= j < i ==> Less(less[j], k))
      && (forall j :: i <= j < |less| ==> Less(k, less[j]))
    ensures SortedKeys(less[..i] + [k] + less[i..], v)
  {
    var keys := less[..i] + [k] + less[i..];
    forall a, b | 0 <= a < b < |keys| ensures Less(keys[a], keys[b]) {
    }
    forall x ensures x in keys <==> x in v {
      assert x in less <==> x in v && x != k;
      assert less == less[..i] + less[i..];
    }
  }

  /** Encode does not depend on the order in which the map hands out its keys. */
  lemma {:induction false} SortedKeysAreUnique(keys: seq<Bytes>, keys': seq<Bytes>, v: Values)
    requires SortedKeys(keys, v) && SortedKeys(keys', v)
    ensures keys == keys'
    decreases |keys|
  {
    if keys != [] {
      SameEmptiness(keys, keys', v);
      FirstKeys(keys, keys', v);
      TailKeys(keys, v);
      TailKeys(keys', v);
      SortedKeysAreUnique(keys[1..], keys'[1..], v - {keys[0]});
      assert keys == [keys[0]] + keys[1..] && keys' == [keys'[0]] + keys'[1..];
    } else if keys' != [] {
      SameEmptiness(keys', keys, v);
    }
  }

  lemma FirstKeys(keys: seq<Bytes>, keys': seq<Bytes>, v: Values)
    requires SortedKeys(keys, v) && SortedKeys(keys', v) && keys != [] && keys' != []
    ensures keys[0] == keys'[0]
  {
    assert keys[0] in keys' && keys'[0] in keys;
    var i :| 0 <= i < |keys'| && keys'[i] == keys[0];
    var j :| 0 <= j < |keys| && keys[j] == keys'[0];
    if i > 0 && j > 0 {
      LessIsStrict(keys'[0], keys'[i]);
    }
  }

  lemma TailKeys(keys: seq<Bytes>, v: Values)
    requires SortedKeys(keys, v) && keys != []
    ensures SortedKeys(keys[1..], v - {keys[0]})
  {
    forall k | k in keys[1..] ensures k != keys[0] {
      var i :| 0 <= i < |keys| - 1 && keys[1..][i] == k;
      LessIsStrict(keys[0], keys[i + 1]);
    }
    assert keys == [keys[0]] + keys[1..];
  }
}
