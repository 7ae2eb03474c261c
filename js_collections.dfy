/** The JavaScript built-ins the servers rely on: a `Map`, which remembers the
    order in which its keys were first inserted, and the array searches
    `findIndex` and `find`. */
module JsCollections {
  import opened Protocol

  /** No element occurs twice. */
  predicate Distinct<T(==)>(s: seq<T>) {
    forall i, j :: 0 <= i < j < |s| ==> s[i] != s[j]
  }

  /** The head of a sequence without repetitions is not in its tail, and the
      tail has no repetitions either. */
  lemma DistinctTail<T>(s: seq<T>)
    requires s != []
    ensures Distinct(s) ==> s[0] !in s[1..] && Distinct(s[1..])
  {
    if Distinct(s) {
      forall i | 0 <= i < |s| - 1 ensures s[1..][i] != s[0] {
        assert s[i + 1] != s[0];
      }
    }
  }

  /** An element of a sequence without repetitions occurs neither before nor
      after its own position. */
  lemma DistinctMiddle<T>(a: seq<T>, x: T, b: seq<T>)
    requires Distinct(a + [x] + b)
    ensures x !in a && x !in b
  {
    var s := a + [x] + b;
    assert s[|a|] == x;
    forall i | 0 <= i < |a| ensures a[i] != x {
      assert s[i] == a[i];
    }
    forall j | 0 <= j < |b| ensures b[j] != x {
      assert s[|a| + 1 + j] == b[j];
    }
  }

  /** `s` without `k`, the other elements in their order. */
  function Remove<T(==)>(s: seq<T>, k: T): (r: seq<T>)
    ensures |r| <= |s|
  {
    if s == [] then []
    else if s[0] == k then Remove(s[1..], k)
    else [s[0]] + Remove(s[1..], k)
  }

  /** `Remove` takes out exactly `k`, keeps a sequence free of repetitions,
      and changes nothing when `k` is absent. */
  lemma {:induction false} RemoveFacts<T(!new)>(s: seq<T>, k: T)
    ensures forall x :: x in Remove(s, k) <==> x in s && x != k
    ensures Distinct(s) ==> Distinct(Remove(s, k))
    ensures k !in s ==> Remove(s, k) == s
  {
    if s != [] {
      RemoveFacts(s[1..], k);
      DistinctTail(s);
      assert s == [s[0]] + s[1..];
    }
  }

  /** Removing an element other than the head keeps the head in front. */
  lemma RemoveCons<T(!new)>(h: T, t: seq<T>, k: T)
    requires h != k
    ensures Remove([h] + t, k) == [h] + Remove(t, k)
  {
    assert ([h] + t)[0] == h && ([h] + t)[1..] == t;
  }

  /** Removing an element that occurs once, after the prefix `a`, leaves the
      prefix in place and takes the element out of the rest. */
  lemma {:induction false} RemoveAfter<T(!new)>(a: seq<T>, x: T, b: seq<T>)
    requires x !in a
    ensures Remove(a + [x] + b, x) == a + Remove(b, x)
  {
    if a == [] {
      assert a + [x] + b == [x] + b;
      assert ([x] + b)[0] == x && ([x] + b)[1..] == b;
    } else {
      var t := a[1..] + [x] + b;
      RemoveAfter(a[1..], x, b);
      assert a + [x] + b == [a[0]] + t;
      RemoveCons(a[0], t, x);
      assert a == [a[0]] + a[1..];
    }
  }

  /** The elements of `s` that are in `c`, in their order. */
  function Keep<T(!new)>(s: seq<T>, c: set<T>): (r: seq<T>)
    ensures forall x :: x in r <==> x in s && x in c
    ensures Distinct(s) ==> Distinct(r)
  {
    if s == [] then []
    else
      var rest := Keep(s[1..], c);
      DistinctTail(s);
      (if s[0] in c then [s[0]] else []) + rest
  }

  /** Filtering keeps the relative order: the kept elements of a
      concatenation are those of its first part, then those of its second. */
  lemma {:induction false} KeepConcat<T(!new)>(a: seq<T>, b: seq<T>, c: set<T>)
    ensures Keep(a + b, c) == Keep(a, c) + Keep(b, c)
  {
    if a == [] {
      assert a + b == b;
    } else {
      assert (a + b)[0] == a[0] && (a + b)[1..] == a[1..] + b;
      KeepConcat(a[1..], b, c);
    }
  }

  /** A sequence without repetitions has as many elements as its set. */
  lemma {:induction false} DistinctSetSize<T(!new)>(s: seq<T>)
    requires Distinct(s)
    ensures |set x | x in s| == |s|
  {
    if s != [] {
      var init, last := s[..|s| - 1], s[|s| - 1];
      assert Distinct(init);
      DistinctSetSize(init);
      assert last !in init;
      assert (set x | x in s) == (set x | x in init) + {last};
    }
  }

  /** A JavaScript `Map`: the entries in `vals`, and in `keys` the order in
      which `entries()`, `values()` and `Array.from` visit them, which is the
      order of first insertion. */
  datatype JsMap<K(==,!new), V> = JsMap(keys: seq<K>, vals: map<K, V>) {

    /** Each key is listed once, and exactly the stored keys are listed. */
    ghost predicate Valid() {
      Distinct(keys) && forall k :: k in vals <==> k in keys
    }

    /** `map.has(k)`: on a well-formed map, exactly the keys iteration
        visits are present. */
    predicate Has(k: K): (r: bool)
      ensures Valid() ==> (r <==> k in keys)
    {
      k in vals
    }

    /** `map.set(k, v)`: an existing key keeps its place in the order, a new
        key goes last. */
    function Set(k: K, v: V): (r: JsMap<K, V>)
      requires Valid()
      ensures r.Valid()
      ensures r.vals == vals[k := v]
      ensures k in vals ==> r.keys == keys
      ensures k !in vals ==> r.keys == keys + [k]
    {
      JsMap(if k in vals then keys else keys + [k], vals[k := v])
    }

    /** `map.delete(k)`: a no-op for a missing key. */
    function Delete(k: K): (r: JsMap<K, V>)
      requires Valid()
      ensures r.Valid()
      ensures r.vals == vals - {k}
      ensures r.keys == Remove(keys, k)
      ensures k !in vals ==> r == this
    {
      assert k !in vals ==> vals - {k} == vals;
      RemoveFacts(keys, k);
      JsMap(Remove(keys, k), vals - {k})
    }

    /** `Array.from(map.values())`: the stored values in key order. */
    function Values(): (r: seq<V>)
      requires Valid()
      ensures |r| == |keys|
      ensures forall i :: 0 <= i < |keys| ==> r[i] == vals[keys[i]]
    {
      seq(|keys|, i requires 0 <= i < |keys| => vals[keys[i]])
    }

    /** The map after `map.delete(k)` for every key not in `c`, visited in
        order; the remaining keys keep their order. */
    function KeepOnly(c: set<K>): (r: JsMap<K, V>)
      requires Valid()
      ensures r.Valid()
      ensures r.keys == Keep(keys, c)
      ensures r.vals.Keys == vals.Keys * c
      ensures forall k :: k in r.vals ==> r.vals[k] == vals[k]
    {
      JsMap(Keep(keys, c), map k | k in vals && k in c :: vals[k])
    }
  }

  /** `new Map()`. */
  function EmptyMap<K(==,!new), V>(): (m: JsMap<K, V>)
    ensures m.Valid() && m.vals == map[]
  {
    JsMap([], map[])
  }

  /** `map.size` equals the number of keys iteration visits. */
  lemma KeyCount<K(!new), V>(m: JsMap<K, V>)
    requires m.Valid()
    ensures |m.vals| == |m.keys|
  {
    DistinctSetSize(m.keys);
    assert m.vals.Keys == set x | x in m.keys;
  }

  /** `xs.findIndex(p)`: the first index whose element satisfies `p`, or -1. */
  function FindIndex<T>(xs: seq<T>, p: T -> bool): (i: int)
    ensures -1 <= i < |xs|
    ensures i == -1 <==> forall j :: 0 <= j < |xs| ==> !p(xs[j])
    ensures 0 <= i ==> p(xs[i]) && forall j :: 0 <= j < i ==> !p(xs[j])
  {
    if xs == [] then -1
    else if p(xs[0]) then 0
    else
      var i := FindIndex(xs[1..], p);
      if i == -1 then -1 else i + 1
  }

  /** `xs.find(p)`: the first element that satisfies `p`, if there is one. */
  function Find<T>(xs: seq<T>, p: T -> bool): (r: Option<T>)
    ensures r.None? <==> forall j :: 0 <= j < |xs| ==> !p(xs[j])
    ensures r.Some? ==> p(r.value)
    ensures r.Some? ==> exists i :: 0 <= i < |xs| && xs[i] == r.value && forall j :: 0 <= j < i ==> !p(xs[j])
  {
    var i := FindIndex(xs, p);
    if i == -1 then None else Some(xs[i])
  }

  /** Searching the values of a map for the one entry that satisfies `p`
      finds that entry, whatever the order of the keys. */
  lemma FindOnlyMatch<K(!new), V>(m: JsMap<K, V>, p: V -> bool, k: K)
    requires m.Valid() && k in m.vals && p(m.vals[k])
    requires forall j :: j in m.vals && p(m.vals[j]) ==> j == k
    ensures Find(m.Values(), p) == Some(m.vals[k])
  {
    var vs := m.Values();
    var ik :| 0 <= ik < |m.keys| && m.keys[ik] == k;
    assert p(vs[ik]);
    var i := FindIndex(vs, p);
    assert p(m.vals[m.keys[i]]);
  }

  /** Searching the values of a map in which no entry satisfies `p` finds
      nothing. */
  lemma FindNoMatch<K(!new), V>(m: JsMap<K, V>, p: V -> bool)
    requires m.Valid()
    requires forall j :: j in m.vals ==> !p(m.vals[j])
    ensures Find(m.Values(), p) == None
  {
    var vs := m.Values();
    forall j | 0 <= j < |vs| ensures !p(vs[j]) {
      assert m.keys[j] in m.vals;
    }
  }
}
