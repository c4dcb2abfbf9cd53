/**
 * The browser-database module of the dashboard (`src/database.js`): an array-backed
 * `SortedArrayMap`, the domain → sender → subject statistics built into it, and the most
 * frequent senders.
 */
module Database {
  import opened JsObject
  import opened CountOrder
  import opened Tally
  import opened SortedTree
  import opened Contacts

  /** One row of `getSortedEntries()`: `{name, count, children}`. */
  datatype Entry<V> = Entry(name: string, count: int, children: V)

  /**
   * The `SortedArrayMap` placeholder: an array of `{key: {key, count}, value}` entries (an
   * `Item(key, count, value)` here). With a sort comparer, which the program only ever gives
   * as the descending count comparison, the array is re-sorted after every change; the key
   * equality comparer is stored and never consulted.
   */
  class SortedArrayMap<V> {
    var data: seq<Item<V>>
    const sortByCount: bool

    /** With a sort comparer the entries are in descending count order. */
    predicate Valid()
      reads this
    {
      sortByCount ==> SortedDesc(data)
    }

    /** `new SortedArrayMap(initialData, comparer, sortComparer)`: sorts the initial entries if asked to. */
    constructor(initialData: seq<Item<V>>, sortByCount: bool)
      ensures this.sortByCount == sortByCount
      ensures data == if sortByCount then SortDesc(initialData) else initialData
      ensures Valid()
      ensures multiset(data) == multiset(initialData)
    {
      this.sortByCount := sortByCount;
      data := if sortByCount then SortDesc(initialData) else initialData;
    }

    /**
     * `add(value, keyObject)`: pushes one entry, then re-sorts. A key already present is not
     * replaced: the map simply holds one more entry. Re-sorting a sorted array after a push
     * puts the new entry after every entry whose count is at least its own.
     */
    method Add(value: V, key: string, count: int)
      modifies this
      ensures data == if sortByCount then SortDesc(old(data) + [Item(key, count, value)])
                      else old(data) + [Item(key, count, value)]
      ensures |data| == |old(data)| + 1
      ensures multiset(data) == multiset(old(data)) + multiset{Item(key, count, value)}
      ensures Valid()
      ensures old(Valid()) && sortByCount ==> data == InsertDesc(old(data), Item(key, count, value))
    {
      var x := Item(key, count, value);
      if sortByCount {
        SortDescSnoc(data, x);
        if SortedDesc(data) {
          SortDescOfSorted(data);
        }
        data := SortDesc(data + [x]);
      } else {
        data := data + [x];
      }
    }

    /** `entries()`: `[name, value]` per entry, in the stored order. */
    function Entries(): (r: seq<(string, V)>)
      reads this
      ensures |r| == |data|
      ensures forall i :: 0 <= i < |r| ==> r[i] == (data[i].key, data[i].value)
    {
      seq(|data|, i requires 0 <= i < |data| reads this => (data[i].key, data[i].value))
    }

    /** `getSortedEntries()`: `{name, count, children}` per entry, in the stored order. */
    function GetSortedEntries(): (r: seq<Entry<V>>)
      reads this
      ensures |r| == |data|
      ensures forall i :: 0 <= i < |r| ==> r[i] == Entry(data[i].key, data[i].count, data[i].value)
    {
      seq(|data|, i requires 0 <= i < |data| reads this => Entry(data[i].key, data[i].count, data[i].value))
    }
  }

  /** The projection `getSortedEntries` applies to a sequence of entries. */
  function EntriesOf<V>(items: seq<Item<V>>): (r: seq<Entry<V>>)
    ensures |r| == |items|
    ensures forall i :: 0 <= i < |r| ==> r[i] == Entry(items[i].key, items[i].count, items[i].value)
  {
    seq(|items|, i requires 0 <= i < |items| => Entry(items[i].key, items[i].count, items[i].value))
  }

  /** Read off a valid sorting map, `getSortedEntries` lists the counts in non-increasing order. */
  lemma SortedEntriesDescend<V>(m: SortedArrayMap<V>)
    requires m.Valid() && m.sortByCount
    ensures forall i, j :: 0 <= i < j < |m.GetSortedEntries()| ==>
      m.GetSortedEntries()[i].count >= m.GetSortedEntries()[j].count
  {
  }

  // ---------------------------------------------------------------------------------------
  // toSortedMap: one map per level, filled by `add` in key order
  // ---------------------------------------------------------------------------------------

  // Each level visits its object's keys in order (`for...in`); every listed key has a value in
  // a well-formed object, so the `in` test below only spells out that `obj[key]` is defined.

  /** The `'subjects'` level: each subject's entry carries its count as both count and value. */
  method SubjectsMap(subjects: Obj<int>) returns (map_: SortedArrayMap<int>)
    ensures fresh(map_) && map_.sortByCount
    ensures map_.data == SortedLeaves(subjects, LeafCount)
  {
    map_ := new SortedArrayMap([], true);
    var i := 0;
    while i < |subjects.keys|
      invariant 0 <= i <= |subjects.keys|
      invariant fresh(map_) && map_.sortByCount && map_.Valid()
      invariant map_.data == SortDesc(Entries(subjects, subjects.keys[..i], LeafCount, LeafCount))
    {
      var key := subjects.keys[i];
      AddEntry(subjects, subjects.keys, i, LeafCount, LeafCount);
      if key in subjects.vals {
        var countForKey := subjects.vals[key];
        map_.Add(countForKey, key, countForKey);
      }
      i := i + 1;
    }
    assert subjects.keys[..i] == subjects.keys;
  }

  /** The `'senders'` level: each sender's `_count`, with its subjects' map nested. */
  method SendersMap(senders: Obj<Mid<int>>) returns (map_: SortedArrayMap<seq<Item<int>>>)
    ensures fresh(map_) && map_.sortByCount
    ensures map_.data == SortedMids(senders, LeafCount)
  {
    map_ := new SortedArrayMap([], true);
    var i := 0;
    while i < |senders.keys|
      invariant 0 <= i <= |senders.keys|
      invariant fresh(map_) && map_.sortByCount && map_.Valid()
      invariant map_.data == SortDesc(Entries(senders, senders.keys[..i], MidCount, MidNest(LeafCount)))
    {
      var key := senders.keys[i];
      AddEntry(senders, senders.keys, i, MidCount, MidNest(LeafCount));
      if key in senders.vals {
        MidNestOf(LeafCount, senders.vals[key]);
        var nested := SubjectsMap(senders.vals[key].leaves);
        map_.Add(nested.data, key, senders.vals[key].count);
      }
      i := i + 1;
    }
    assert senders.keys[..i] == senders.keys;
  }

  /** `toSortedMap(stats)`: the `'domains'` level, each domain's `_count` with its senders' map nested. */
  method ToSortedMapOf(stats: Stats<int>) returns (map_: SortedArrayMap<seq<Item<seq<Item<int>>>>>)
    ensures fresh(map_) && map_.sortByCount
    ensures map_.data == ToSortedMap(stats, LeafCount)
  {
    map_ := new SortedArrayMap([], true);
    var i := 0;
    while i < |stats.keys|
      invariant 0 <= i <= |stats.keys|
      invariant fresh(map_) && map_.sortByCount && map_.Valid()
      invariant map_.data == SortDesc(Entries(stats, stats.keys[..i], TopCount, TopNest(LeafCount)))
    {
      var key := stats.keys[i];
      AddEntry(stats, stats.keys, i, TopCount, TopNest(LeafCount));
      if key in stats.vals {
        TopNestOf(LeafCount, stats.vals[key]);
        var nested := SendersMap(stats.vals[key].mids);
        map_.Add(nested.data, key, stats.vals[key].count);
      }
      i := i + 1;
    }
    assert stats.keys[..i] == stats.keys;
  }

  /**
   * `generateStats`: scan the `[domain+from+subject]` index, tally it, and convert the tally.
   * Every level lists each key occurring under its parent once, with the exact number of
   * scanned messages under it, siblings by non-increasing count; a leaf's value is its count.
   */
  method GenerateStats(keys: seq<Row>) returns (stats: SortedArrayMap<seq<Item<seq<Item<int>>>>>)
    ensures fresh(stats) && stats.sortByCount
    ensures stats.data == ToSortedMap(Tally.Tally(keys), LeafCount)
    ensures TopLevel(stats.data, keys, LeafCount)
  {
    var tally := Scan(keys);
    stats := ToSortedMapOf(tally);
    SortedTally(keys, LeafCount);
  }

  /**
   * `getMostFrequentContactsFromDb`: every stored message's `from` is counted while the table
   * is visited (in primary-key order, given here as the senders in that order), and the five
   * most frequent senders are returned with their counts.
   */
  method GetMostFrequentContactsFromDb(froms: seq<string>) returns (top: seq<(string, int)>)
    ensures top == MostFrequent(froms)
    ensures |top| <= 5
    ensures forall i :: 0 <= i < |top| ==> top[i].0 in froms && top[i].1 == Occurrences(froms, top[i].0)
    ensures forall i, j :: 0 <= i < j < |top| ==> top[i].0 != top[j].0 && top[i].1 >= top[j].1
  {
    var counts := CountSenders(froms);
    top := Ranking(counts);
    MostFrequentSpec(froms);
  }
}
