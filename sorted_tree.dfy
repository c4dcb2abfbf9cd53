/**
 * The sorted nested maps built from a tally (`toSortedMap`): every level of buckets becomes a
 * list of entries `{key, count}` carrying the next level, ordered by descending count, with
 * the `_count` bookkeeping left out of the listed keys.
 */
module SortedTree {
  import opened JsObject
  import opened CountOrder
  import opened Tally

  /** One entry per listed key that has a value, in the listed order. */
  function Entries<V, W>(o: Obj<V>, ks: seq<string>, count: V -> int, nest: V -> W): (r: seq<Item<W>>)
    ensures |r| <= |ks|
  {
    if ks == [] then []
    else
      Entries(o, ks[..|ks| - 1], count, nest)
      + (if ks[|ks| - 1] in o.vals
         then [Item(ks[|ks| - 1], count(o.vals[ks[|ks| - 1]]), nest(o.vals[ks[|ks| - 1]]))]
         else [])
  }

  /** The entries are exactly the listed keys with values, each with its count and nested part. */
  lemma {:induction false} EntriesMembers<V, W>(o: Obj<V>, ks: seq<string>, count: V -> int, nest: V -> W, x: Item<W>)
    ensures x in Entries(o, ks, count, nest) <==>
      x.key in ks && x.key in o.vals && x == Item(x.key, count(o.vals[x.key]), nest(o.vals[x.key]))
  {
    if ks != [] {
      EntriesMembers(o, ks[..|ks| - 1], count, nest, x);
      assert x.key in ks <==> x.key in ks[..|ks| - 1] || x.key == ks[|ks| - 1];
    }
  }

  /** Distinct listed keys give entries with distinct keys. */
  lemma {:induction false} EntriesDistinct<V, W>(o: Obj<V>, ks: seq<string>, count: V -> int, nest: V -> W)
    requires NoDuplicates(ks)
    ensures DistinctKeys(Entries(o, ks, count, nest))
  {
    if ks != [] {
      var init := ks[..|ks| - 1];
      var e := Entries(o, init, count, nest);
      EntriesDistinct(o, init, count, nest);
      forall i | 0 <= i < |e| ensures e[i].key != ks[|ks| - 1] {
        EntriesMembers(o, init, count, nest, e[i]);
      }
    }
  }

  /** A level of buckets as entries sorted by descending count. */
  function SortedLevel<V, W>(o: Obj<V>, count: V -> int, nest: V -> W): (r: seq<Item<W>>)
    ensures SortedDesc(r)
    ensures |r| <= |o.keys|
  {
    SortDesc(Entries(o, o.keys, count, nest))
  }

  /** One more listed key with a value adds its entry at the end. */
  lemma EntriesSnoc<V, W>(o: Obj<V>, ks: seq<string>, k: string, count: V -> int, nest: V -> W)
    requires k in o.vals
    ensures Entries(o, ks + [k], count, nest) == Entries(o, ks, count, nest) + [Item(k, count(o.vals[k]), nest(o.vals[k]))]
  {
    assert (ks + [k])[..|ks|] == ks;
  }

  /**
   * One more listed key: a key with a value adds its entry to the sorted container (the entry
   * goes after those whose count is at least its own); a key without one adds nothing.
   */
  lemma AddEntry<V, W>(o: Obj<V>, ks: seq<string>, i: nat, count: V -> int, nest: V -> W)
    requires i < |ks|
    ensures ks[i] in o.vals ==>
      SortDesc(Entries(o, ks[..i + 1], count, nest))
      == InsertDesc(SortDesc(Entries(o, ks[..i], count, nest)), Item(ks[i], count(o.vals[ks[i]]), nest(o.vals[ks[i]])))
    ensures ks[i] !in o.vals ==> Entries(o, ks[..i + 1], count, nest) == Entries(o, ks[..i], count, nest)
  {
    assert ks[..i + 1][..i] == ks[..i];
    if ks[i] in o.vals {
      EntriesSnoc(o, ks[..i], ks[i], count, nest);
      SortDescSnoc(Entries(o, ks[..i], count, nest), Item(ks[i], count(o.vals[ks[i]]), nest(o.vals[ks[i]])));
    }
  }

  /** Transforming what the entries carry is building them with the transformed nesting. */
  lemma {:induction false} EntriesMapValues<V, W, U>(o: Obj<V>, ks: seq<string>, count: V -> int, nest: V -> W, nest': V -> U, g: W -> U)
    requires forall v :: nest'(v) == g(nest(v))
    ensures MapValues(Entries(o, ks, count, nest), g) == Entries(o, ks, count, nest')
  {
    if ks != [] {
      var init := ks[..|ks| - 1];
      EntriesMapValues(o, init, count, nest, nest', g);
      var e := Entries(o, init, count, nest);
      var tail := if ks[|ks| - 1] in o.vals
        then [Item(ks[|ks| - 1], count(o.vals[ks[|ks| - 1]]), nest(o.vals[ks[|ks| - 1]]))] else [];
      assert MapValues(e + tail, g) == MapValues(e, g) + MapValues(tail, g);
    }
  }

  /** The entries' counts add up to the sum of the listed keys' counts. */
  lemma {:induction false} SumCountsEntries<V, W>(o: Obj<V>, ks: seq<string>, count: V -> int, nest: V -> W)
    ensures SumCounts(Entries(o, ks, count, nest)) == SumValues(o, ks, count)
  {
    if ks != [] {
      var init := ks[..|ks| - 1];
      SumCountsEntries(o, init, count, nest);
      var tail := if ks[|ks| - 1] in o.vals
        then [Item(ks[|ks| - 1], count(o.vals[ks[|ks| - 1]]), nest(o.vals[ks[|ks| - 1]]))] else [];
      SumCountsAppend(Entries(o, init, count, nest), tail);
      assert tail != [] ==> tail[..0] == [];
    }
  }

  /** Some entry has the key. */
  ghost predicate HasKey<W>(items: seq<Item<W>>, k: string) {
    exists i :: 0 <= i < |items| && items[i].key == k
  }

  /**
   * The sorted level lists every bucket exactly once, with its count and nested part, and
   * nothing else.
   */
  lemma SortedLevelContents<V, W>(o: Obj<V>, count: V -> int, nest: V -> W)
    requires Valid(o)
    ensures DistinctKeys(SortedLevel(o, count, nest))
    ensures forall k :: HasKey(SortedLevel(o, count, nest), k) <==> k in o.vals
    ensures forall i :: 0 <= i < |SortedLevel(o, count, nest)| ==>
      var x := SortedLevel(o, count, nest)[i];
      x.key in o.vals && x.count == count(o.vals[x.key]) && x.value == nest(o.vals[x.key])
  {
    var e := Entries(o, o.keys, count, nest);
    var r := SortDesc(e);
    EntriesDistinct(o, o.keys, count, nest);
    SortDescDistinct(e);
    forall i | 0 <= i < |r|
      ensures r[i].key in o.vals && r[i].count == count(o.vals[r[i].key]) && r[i].value == nest(o.vals[r[i].key])
    {
      assert r[i] in multiset(e);
      EntriesMembers(o, o.keys, count, nest, r[i]);
    }
    forall k ensures HasKey(r, k) <==> k in o.vals {
      if k in o.vals {
        var x := Item(k, count(o.vals[k]), nest(o.vals[k]));
        EntriesMembers(o, o.keys, count, nest, x);
        assert x in multiset(r);
        var i :| 0 <= i < |r| && r[i] == x;
      }
    }
  }

  // ---------------------------------------------------------------------------------------
  // The three levels of a tally
  // ---------------------------------------------------------------------------------------

  /** A leaf entry `{key, count: value}` that carries nothing besides its count. */
  function NoNested(n: int): () { () }

  /** The leaves of a second-level bucket: `{key, count: value}` entries carrying `leaf(value)`. */
  function SortedLeaves<W>(o: Obj<int>, leaf: int -> W): seq<Item<W>> {
    SortedLevel(o, LeafCount, leaf)
  }

  function MidNest<W>(leaf: int -> W): Mid<int> -> seq<Item<W>> {
    (m: Mid<int>) => SortedLeaves(m.leaves, leaf)
  }

  lemma MidNestOf<W>(leaf: int -> W, m: Mid<int>)
    ensures MidNest(leaf)(m) == SortedLeaves(m.leaves, leaf) && MidCount(m) == m.count
  {
  }

  /** The second level of a first-level bucket: `{key, count: _count}` entries nesting their leaves. */
  function SortedMids<W>(o: Obj<Mid<int>>, leaf: int -> W): seq<Item<seq<Item<W>>>> {
    SortedLevel(o, MidCount, MidNest(leaf))
  }

  function TopNest<W>(leaf: int -> W): Top<int> -> seq<Item<seq<Item<W>>>> {
    (t: Top<int>) => SortedMids(t.mids, leaf)
  }

  lemma TopNestOf<W>(leaf: int -> W, t: Top<int>)
    ensures TopNest(leaf)(t) == SortedMids(t.mids, leaf) && TopCount(t) == t.count
  {
  }

  /** The whole tally as nested sorted maps. */
  function ToSortedMap<W>(s: Stats<int>, leaf: int -> W): (r: seq<Item<seq<Item<seq<Item<W>>>>>>)
    ensures SortedDesc(r)
    ensures |r| <= |s.keys|
  {
    SortedLevel(s, TopCount, TopNest(leaf))
  }

  /** A sorted leaf level that lists the rows under `(a, b)` by their third level. */
  ghost predicate LeafLevel<W>(items: seq<Item<W>>, rows: seq<Row>, a: string, b: string, leaf: int -> W) {
    && SortedDesc(items)
    && DistinctKeys(items)
    && (forall c :: HasKey(items, c) <==> Count(rows, P3(a, b, c)) > 0)
    && (forall i :: 0 <= i < |items| ==>
         items[i].count == Count(rows, P3(a, b, items[i].key)) && items[i].value == leaf(items[i].count))
  }

  /** A sorted second level that lists the rows under `a` by their second level, each nesting its leaves. */
  ghost predicate MidLevel<W>(items: seq<Item<seq<Item<W>>>>, rows: seq<Row>, a: string, leaf: int -> W) {
    && SortedDesc(items)
    && DistinctKeys(items)
    && (forall b :: HasKey(items, b) <==> Count(rows, P2(a, b)) > 0)
    && (forall i :: 0 <= i < |items| ==>
         items[i].count == Count(rows, P2(a, items[i].key)) && LeafLevel(items[i].value, rows, a, items[i].key, leaf))
  }

  /** A sorted first level that lists the rows by their first level, each nesting its second level. */
  ghost predicate TopLevel<W>(items: seq<Item<seq<Item<seq<Item<W>>>>>>, rows: seq<Row>, leaf: int -> W) {
    && SortedDesc(items)
    && DistinctKeys(items)
    && (forall a :: HasKey(items, a) <==> Count(rows, P1(a)) > 0)
    && (forall i :: 0 <= i < |items| ==>
         items[i].count == Count(rows, P1(items[i].key)) && MidLevel(items[i].value, rows, items[i].key, leaf))
  }

  lemma LeafLevelOf<W>(o: Obj<int>, rows: seq<Row>, a: string, b: string, leaf: int -> W)
    requires LeavesAgree(o, rows, a, b)
    ensures LeafLevel(SortedLeaves(o, leaf), rows, a, b, leaf)
  {
    SortedLevelContents(o, LeafCount, leaf);
  }

  lemma MidLevelOf<W>(o: Obj<Mid<int>>, rows: seq<Row>, a: string, leaf: int -> W)
    requires MidsAgree(o, rows, a)
    ensures MidLevel(SortedMids(o, leaf), rows, a, leaf)
  {
    var items := SortedMids(o, leaf);
    SortedLevelContents(o, MidCount, MidNest(leaf));
    forall i | 0 <= i < |items|
      ensures items[i].count == Count(rows, P2(a, items[i].key)) && LeafLevel(items[i].value, rows, a, items[i].key, leaf)
    {
      LeafLevelOf(o.vals[items[i].key].leaves, rows, a, items[i].key, leaf);
    }
  }

  lemma TopLevelOf<W>(s: Stats<int>, rows: seq<Row>, leaf: int -> W)
    requires StatsAgree(s, rows)
    ensures TopLevel(ToSortedMap(s, leaf), rows, leaf)
  {
    var items := ToSortedMap(s, leaf);
    SortedLevelContents(s, TopCount, TopNest(leaf));
    forall i | 0 <= i < |items|
      ensures items[i].count == Count(rows, P1(items[i].key)) && MidLevel(items[i].value, rows, items[i].key, leaf)
    {
      MidLevelOf(s.vals[items[i].key].mids, rows, items[i].key, leaf);
    }
  }

  /**
   * The sorted map of a scan's tally lists, at every level, each key that occurs under its
   * parent exactly once, with the number of rows under its path as its count, siblings in
   * non-increasing count order.
   */
  lemma SortedTally<W>(rows: seq<Row>, leaf: int -> W)
    ensures TopLevel(ToSortedMap(Tally.Tally(rows), leaf), rows, leaf)
  {
    TallyAgrees(rows);
    TopLevelOf(Tally.Tally(rows), rows, leaf);
  }

  /** The first-level counts of the sorted map of a scan add up to the number of scanned rows. */
  lemma SortedTallyTotal<W>(rows: seq<Row>, leaf: int -> W)
    ensures SumCounts(ToSortedMap(Tally.Tally(rows), leaf)) == |rows|
  {
    var s := Tally.Tally(rows);
    SumCountsSortDesc(Entries(s, s.keys, TopCount, TopNest(leaf)));
    SumCountsEntries(s, s.keys, TopCount, TopNest(leaf));
    TallySums(rows);
  }
}
