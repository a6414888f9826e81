/** A dictionary that is a slice while it is small and a map once it has grown (http/mapping.go). */
module MappingClass {
  import opened Options

  const MAX_SLICE := 8

  /** The first value for the key in the slice. */
  function Lookup<K(==), V>(s: seq<(K, V)>, k: K): (r: Option<V>) {
    if s == [] then None else if s[0].0 == k then Some(s[0].1) else Lookup(s[1..], k)
  }

  predicate UniqueKeys<K(==), V>(s: seq<(K, V)>) {
    forall i, j :: 0 <= i < j < |s| ==> s[i].0 != s[j].0
  }

  function AsMap<K, V>(s: seq<(K, V)>): (m: map<K, V>) {
    map k | k in Firsts(s) && Lookup(s, k).Some? :: Lookup(s, k).value
  }

  function Firsts<K, V>(s: seq<(K, V)>): (found: set<K>) {
    set i | 0 <= i < |s| :: s[i].0
  }

  lemma {:induction false} LookupIs<K, V>(s: seq<(K, V)>, k: K)
    ensures Lookup(s, k).Some? <==> k in Firsts(s)
    ensures Lookup(s, k).Some? ==> exists i :: 0 <= i < |s| && s[i] == (k, Lookup(s, k).value)
  {
    if s != [] && s[0].0 != k {
      LookupIs(s[1..], k);
      if Lookup(s, k).Some? {
        var i :| 0 <= i < |s| - 1 && s[1..][i] == (k, Lookup(s, k).value);
        assert s[i + 1] == (k, Lookup(s, k).value);
      }
      if k in Firsts(s) {
        var i :| 0 <= i < |s| && s[i].0 == k;
        assert s[1..][i - 1].0 == k;
      }
    } else if s != [] {
      assert s[0] == (k, s[0].1);
    }
  }

  lemma LookupAt<K, V>(s: seq<(K, V)>, i: nat)
    requires UniqueKeys(s) && i < |s|
    ensures Lookup(s, s[i].0) == Some(s[i].1)
  {
    LookupIs(s, s[i].0);
  }

  lemma {:induction false} LookupAppend<K, V>(s: seq<(K, V)>, e: (K, V), k: K)
    ensures Lookup(s + [e], k) == if Lookup(s, k).Some? then Lookup(s, k) else if e.0 == k then Some(e.1) else None
  {
    if s == [] {
      assert s + [e] == [e];
    } else {
      assert (s + [e])[1..] == s[1..] + [e];
      LookupAppend(s[1..], e, k);
    }
  }

  lemma AsMapAppend<K, V>(s: seq<(K, V)>, e: (K, V))
    requires e.0 !in AsMap(s)
    ensures AsMap(s + [e]) == AsMap(s)[e.0 := e.1]
  {
    forall k
      ensures Lookup(s + [e], k)
        == if Lookup(s, k).Some? then Lookup(s, k) else if e.0 == k then Some(e.1) else None
    {
      LookupAppend(s, e, k);
    }
    forall k ensures Lookup(s, k).Some? <==> k in Firsts(s) { LookupIs(s, k); }
    forall k ensures Lookup(s + [e], k).Some? <==> k in Firsts(s + [e]) { LookupIs(s + [e], k); }
  }

  class Mapping<K(==), V> {
    var s: seq<(K, V)>
    var m: Option<map<K, V>>

    ghost predicate Valid()
      reads this
    {
      UniqueKeys(s) && (m.Some? ==> s == [])
    }

    /** The pairs the mapping stands for. */
    ghost function Contents(): (m: map<K, V>)
      reads this
    {
      if m.Some? then m.value else AsMap(s)
    }

    constructor ()
      ensures Valid() && Contents() == map[]
    {
      s, m := [], None;
      new;
      assert AsMap<K, V>([]) == map[];
    }

    /** add; keys are unique, so the caller adds only a key that is not there. */
    method Add(k: K, v: V)
      requires Valid() && k !in Contents()
      modifies this
      ensures Valid() && Contents() == old(Contents())[k := v]
    {
      forall j ensures Lookup(s, j).Some? <==> j in Firsts(s) { LookupIs(s, j); }
      if m == None && |s| < MAX_SLICE {
        AsMapAppend(s, (k, v));
        s := s + [(k, v)];
      } else {
        if m == None {
          var copied: map<K, V> := map[];
          assert AsMap(s[..0]) == map[];
          for i := 0 to |s|
            invariant m == None && s == old(s) && copied == AsMap(s[..i])
          {
            assert s[..i + 1] == s[..i] + [s[i]];
            forall j ensures Lookup(s[..i], j).Some? <==> j in Firsts(s[..i]) { LookupIs(s[..i], j); }
            AsMapAppend(s[..i], s[i]);
            copied := copied[s[i].0 := s[i].1];
          }
          assert s[..|s|] == s;
          m := Some(copied);
          s := [];
        }
        m := Some(m.value[k := v]);
      }
    }

    method Find(k: K) returns (r: Option<V>)
      requires Valid()
      ensures r == if k in Contents() then Some(Contents()[k]) else None
    {
      if m.Some? {
        return if k in m.value then Some(m.value[k]) else None;
      }
      LookupIs(s, k);
      for i := 0 to |s|
        invariant forall j :: 0 <= j < i ==> s[j].0 != k
      {
        if s[i].0 == k {
          LookupAt(s, i);
          return Some(s[i].1);
        }
      }
      return None;
    }
  }
}
