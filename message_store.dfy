/**
 * The message store of the dashboard (`src/stores/messageStore.js`): distinct domains, and
 * the to → domain → from statistics handed to the tree view as nested sorted maps. The
 * sorted container comes from a collections library; what the store relies on is that it
 * keeps its entries ordered by descending count, each new entry going after the entries
 * whose count is at least its own.
 */
module MessageStore {
  import opened Wrappers
  import opened JsObject
  import opened CountOrder
  import opened Tally
  import opened SortedTree

  // ---------------------------------------------------------------------------------------
  // findUniqueDomains
  // ---------------------------------------------------------------------------------------

  /** The truthy domains of a scan, in scan order. */
  function TruthyDomains(domains: seq<Option<string>>): (r: seq<string>)
    ensures forall d :: d in r <==> Some(d) in domains && d != ""
  {
    if domains == [] then []
    else
      var init := TruthyDomains(domains[..|domains| - 1]);
      var last := domains[|domains| - 1];
      assert forall x :: x in domains <==> x in domains[..|domains| - 1] || x == last;
      if Truthy(last) then init + [last.value] else init
  }

  /**
   * `findUniqueDomains`: every record's `domain` is visited in index order and each truthy
   * one is added to a `Set`; the array of the set lists each such domain once, in order of
   * first appearance.
   */
  method FindUniqueDomains(domains: seq<Option<string>>) returns (unique: seq<string>)
    ensures unique == Distinct(TruthyDomains(domains))
    ensures NoDuplicates(unique)
    ensures forall d :: d in unique <==> Some(d) in domains && d != ""
  {
    var seen: set<string> := {};
    unique := [];
    var i := 0;
    while i < |domains|
      invariant 0 <= i <= |domains|
      invariant unique == Distinct(TruthyDomains(domains[..i]))
      invariant forall d :: d in seen <==> d in unique
    {
      assert domains[..i + 1][..i] == domains[..i];
      var domain := domains[i];
      if domain.Some? && domain.value != "" {
        if domain.value !in seen {
          unique := unique + [domain.value];
          seen := seen + {domain.value};
        }
      }
      i := i + 1;
    }
    assert domains[..i] == domains;
  }

  // ---------------------------------------------------------------------------------------
  // toSortedMap and generateStats
  // ---------------------------------------------------------------------------------------

  // Each level visits its object's keys in order; every listed key has a value in a
  // well-formed object, so the `in` test below only spells out that `obj[key]` is defined.

  /** `toSortedMap` of a second-level bucket's leaves: one `add` per key. */
  method SortLeaves(o: Obj<int>) returns (r: seq<Item<()>>)
    ensures r == SortedLeaves(o, NoNested)
  {
    r := [];
    var i := 0;
    while i < |o.keys|
      invariant 0 <= i <= |o.keys|
      invariant r == SortDesc(Entries(o, o.keys[..i], LeafCount, NoNested))
    {
      var key := o.keys[i];
      AddEntry(o, o.keys, i, LeafCount, NoNested);
      if key in o.vals {
        r := InsertDesc(r, Item(key, o.vals[key], ()));
      }
      i := i + 1;
    }
    assert o.keys[..i] == o.keys;
  }

  /** `toSortedMap` of a first-level bucket: each second-level bucket with its sorted leaves. */
  method SortMids(o: Obj<Mid<int>>) returns (r: seq<Item<seq<Item<()>>>>)
    ensures r == SortedMids(o, NoNested)
  {
    r := [];
    var i := 0;
    while i < |o.keys|
      invariant 0 <= i <= |o.keys|
      invariant r == SortDesc(Entries(o, o.keys[..i], MidCount, MidNest(NoNested)))
    {
      var key := o.keys[i];
      AddEntry(o, o.keys, i, MidCount, MidNest(NoNested));
      if key in o.vals {
        MidNestOf(NoNested, o.vals[key]);
        var nested := SortLeaves(o.vals[key].leaves);
        r := InsertDesc(r, Item(key, o.vals[key].count, nested));
      }
      i := i + 1;
    }
    assert o.keys[..i] == o.keys;
  }

  /** `toSortedMap(statsHierarchy)`: each first-level bucket with its sorted second level. */
  method SortTops(s: Stats<int>) returns (r: seq<Item<seq<Item<seq<Item<()>>>>>>)
    ensures r == ToSortedMap(s, NoNested)
  {
    r := [];
    var i := 0;
    while i < |s.keys|
      invariant 0 <= i <= |s.keys|
      invariant r == SortDesc(Entries(s, s.keys[..i], TopCount, TopNest(NoNested)))
    {
      var key := s.keys[i];
      AddEntry(s, s.keys, i, TopCount, TopNest(NoNested));
      if key in s.vals {
        TopNestOf(NoNested, s.vals[key]);
        var nested := SortMids(s.vals[key].mids);
        r := InsertDesc(r, Item(key, s.vals[key].count, nested));
      }
      i := i + 1;
    }
    assert s.keys[..i] == s.keys;
  }

  /**
   * `generateStats`: scan the `[to+domain+from]` keys, tally them, and convert the tally.
   * Every level lists each key occurring under its parent once, with the exact number of
   * scanned keys under it, siblings by non-increasing count.
   */
  method GenerateStats(keys: seq<Row>) returns (stats: seq<Item<seq<Item<seq<Item<()>>>>>>)
    ensures stats == ToSortedMap(Tally.Tally(keys), NoNested)
    ensures TopLevel(stats, keys, NoNested)
    ensures keys == [] ==> stats == []
  {
    var tally := Scan(keys);
    stats := SortTops(tally);
    SortedTally(keys, NoNested);
  }
}
