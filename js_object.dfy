/**
 * Plain JavaScript objects used as hash buckets, and first-appearance deduplication.
 * An object is its own keys in insertion order (the order `for...in` and
 * `Object.entries` visit string keys) together with the key-to-value map.
 */
module JsObject {

  datatype Obj<V> = Obj(keys: seq<string>, vals: map<string, V>)

  /** No key is listed twice and exactly the listed keys have values. */
  predicate Valid<V>(o: Obj<V>) {
    && (forall i, j :: 0 <= i < j < |o.keys| ==> o.keys[i] != o.keys[j])
    && (forall k :: k in o.vals ==> k in o.keys)
    && (forall i :: 0 <= i < |o.keys| ==> o.keys[i] in o.vals)
  }

  /** `{}` */
  function Empty<V>(): (r: Obj<V>)
    ensures Valid(r) && r.keys == []
  {
    Obj([], map[])
  }

  /**
   * `o[k] = v`: a new key is appended to the key order, an existing key keeps its
   * position and only its value changes.
   */
  function Put<V>(o: Obj<V>, k: string, v: V): (r: Obj<V>)
    ensures r.vals == o.vals[k := v]
    ensures Valid(o) ==> Valid(r)
    ensures Valid(o) && k in o.vals ==> r.keys == o.keys
    ensures Valid(o) && k !in o.vals ==> r.keys == o.keys + [k]
  {
    if k in o.vals then Obj(o.keys, o.vals[k := v]) else Obj(o.keys + [k], o.vals[k := v])
  }

  /** No element occurs twice. */
  predicate NoDuplicates(s: seq<string>) {
    forall i, j :: 0 <= i < j < |s| ==> s[i] != s[j]
  }

  /** The elements of `s`, each kept at its first appearance only. */
  function Distinct(s: seq<string>): (r: seq<string>)
    ensures NoDuplicates(r)
    ensures forall x :: x in r <==> x in s
    ensures |r| <= |s|
  {
    if s == [] then []
    else
      var d := Distinct(s[..|s| - 1]);
      var x := s[|s| - 1];
      assert forall y :: y in s <==> y in s[..|s| - 1] || y == x;
      if x in d then d else d + [x]
  }

  /** The number of distinct elements is the size of the set of elements. */
  lemma {:induction false} DistinctCardinality(s: seq<string>)
    ensures |Distinct(s)| == |set x | x in s|
  {
    if s != [] {
      var init := s[..|s| - 1];
      var x := s[|s| - 1];
      DistinctCardinality(init);
      DistinctSetSize(Distinct(s));
      DistinctSetSize(Distinct(init));
      assert (set y | y in s) == (set y | y in Distinct(s));
    }
  }

  /** A duplicate-free sequence is as long as its set of elements is large. */
  lemma {:induction false} DistinctSetSize(s: seq<string>)
    requires NoDuplicates(s)
    ensures |set x | x in s| == |s|
  {
    if s != [] {
      var init := s[..|s| - 1];
      DistinctSetSize(init);
      assert (set x | x in s) == (set x | x in init) + {s[|s| - 1]};
    }
  }

  /** A duplicate-free sequence is its own deduplication. */
  lemma {:induction false} DistinctOfDistinct(s: seq<string>)
    requires NoDuplicates(s)
    ensures Distinct(s) == s
  {
    if s != [] {
      DistinctOfDistinct(s[..|s| - 1]);
      assert s == s[..|s| - 1] + [s[|s| - 1]];
    }
  }

  /** The position of the first occurrence of `x` in `s`. */
  function FirstIndex(s: seq<string>, x: string): (i: nat)
    requires x in s
    ensures i < |s| && s[i] == x && x !in s[..i]
  {
    if s[0] == x then 0 else 1 + FirstIndex(s[1..], x)
  }

  /** Deduplication keeps the order of first appearance. */
  lemma {:induction false} DistinctOrder(s: seq<string>, i: nat, j: nat)
    requires i < j < |Distinct(s)|
    ensures FirstIndex(s, Distinct(s)[i]) < FirstIndex(s, Distinct(s)[j])
  {
    var init := s[..|s| - 1];
    var d := Distinct(init);
    var r := Distinct(s);
    assert r[i] == d[i] && d[i] in init;
    FirstIndexPrefix(s, init, r[i]);
    if j < |d| {
      assert r[j] == d[j] && d[j] in init;
      FirstIndexPrefix(s, init, r[j]);
      DistinctOrder(init, i, j);
    } else {
      var x := s[|s| - 1];
      assert r[j] == x && x !in init;
      FirstIndexAbsent(s, init, x);
    }
  }

  /** An element first found at the end is found there. */
  lemma {:induction false} FirstIndexAbsent(s: seq<string>, p: seq<string>, x: string)
    requires s == p + [x] && x !in p
    ensures FirstIndex(s, x) == |p|
  {
    if p != [] {
      assert s[1..] == p[1..] + [x];
      FirstIndexAbsent(s[1..], p[1..], x);
    }
  }

  /** The first occurrence in a prefix that contains the element is the first occurrence. */
  lemma {:induction false} FirstIndexPrefix(s: seq<string>, p: seq<string>, x: string)
    requires p <= s && x in p
    ensures FirstIndex(s, x) == FirstIndex(p, x)
  {
    if p[0] != x {
      FirstIndexPrefix(s[1..], p[1..], x);
    }
  }

  /** The object with every value transformed by `f`, keys in the same order. */
  function MapObj<V, W>(o: Obj<V>, f: V -> W): (r: Obj<W>)
    ensures r.keys == o.keys
    ensures forall k :: k in r.vals <==> k in o.vals
    ensures forall k :: k in r.vals ==> r.vals[k] == f(o.vals[k])
  {
    Obj(o.keys, map k | k in o.vals :: f(o.vals[k]))
  }

  /** Transforming values commutes with storing one. */
  lemma MapObjPut<V, W>(o: Obj<V>, k: string, v: V, f: V -> W)
    ensures MapObj(Put(o, k, v), f) == Put(MapObj(o, f), k, f(v))
  {
  }

  /** Storing twice under one key is storing the second value. */
  lemma PutPut<V>(o: Obj<V>, k: string, x: V, y: V)
    ensures Put(Put(o, k, x), k, y) == Put(o, k, y)
  {
  }
}
