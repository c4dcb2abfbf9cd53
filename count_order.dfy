/**
 * Ordering siblings by descending count. Every sort in the system compares two entries by
 * the difference of their counts (`b.count - a.count`, `countB - countA`); the sorts are
 * stable, so entries with equal counts keep the order in which they were listed.
 */
module CountOrder {

  /** An entry `{key, count}` together with what it carries (a nested map, or nothing). */
  datatype Item<V> = Item(key: string, count: int, value: V)

  /** Counts never increase from left to right. */
  predicate SortedDesc<V>(s: seq<Item<V>>) {
    forall i, j :: 0 <= i < j < |s| ==> s[i].count >= s[j].count
  }

  /**
   * How many leading entries stay in front of an entry with count `c` appended last:
   * everything up to the last entry whose count is at least `c`.
   */
  function InsertPos<V>(s: seq<Item<V>>, c: int): (p: nat)
    ensures p <= |s|
    ensures forall i :: p <= i < |s| ==> s[i].count < c
    ensures p > 0 ==> s[p - 1].count >= c
  {
    if s == [] then 0
    else if s[|s| - 1].count >= c then |s|
    else InsertPos(s[..|s| - 1], c)
  }

  /**
   * Inserts `x` into a descending sequence after every entry whose count is at least
   * `x.count`: the place a stable sort gives an entry appended last.
   */
  function InsertDesc<V>(s: seq<Item<V>>, x: Item<V>): (r: seq<Item<V>>)
    ensures |r| == |s| + 1
    ensures multiset(r) == multiset(s) + multiset{x}
  {
    var p := InsertPos(s, x.count);
    assert s == s[..p] + s[p..];
    s[..p] + [x] + s[p..]
  }

  /** The entries of `s` with `x` put at position `p`. */
  lemma SplitAt<V>(s: seq<Item<V>>, p: nat, x: Item<V>)
    requires p <= |s|
    ensures forall i :: 0 <= i <= |s| ==>
      (s[..p] + [x] + s[p..])[i] == if i < p then s[i] else if i == p then x else s[i - 1]
  {
  }

  /** Inserting into a descending sequence keeps it descending. */
  lemma {:induction false} InsertDescKeepsSorted<V>(s: seq<Item<V>>, x: Item<V>)
    requires SortedDesc(s)
    ensures SortedDesc(InsertDesc(s, x))
  {
    var p := InsertPos(s, x.count);
    var r := s[..p] + [x] + s[p..];
    SplitAt(s, p, x);
    forall i, j | 0 <= i < j < |r| ensures r[i].count >= r[j].count {
      if i < p && p <= j {
        assert s[i].count >= s[p - 1].count;
      }
    }
  }

  /** The stable descending sort: entries are inserted one by one in their listed order. */
  function SortDesc<V>(s: seq<Item<V>>): (r: seq<Item<V>>)
    ensures |r| == |s|
    ensures multiset(r) == multiset(s)
    ensures SortedDesc(r)
  {
    if s == [] then []
    else
      var init := s[..|s| - 1];
      assert s == init + [s[|s| - 1]];
      InsertDescKeepsSorted(SortDesc(init), s[|s| - 1]);
      InsertDesc(SortDesc(init), s[|s| - 1])
  }

  /** Sorting one more entry is inserting it into the sorted rest. */
  lemma SortDescSnoc<W>(e: seq<Item<W>>, x: Item<W>)
    ensures SortDesc(e + [x]) == InsertDesc(SortDesc(e), x)
  {
    assert (e + [x])[..|e|] == e;
  }

  /** Appending an entry at or below the last count leaves a sorted sequence as it is. */
  lemma {:induction false} InsertDescSorted<V>(s: seq<Item<V>>, x: Item<V>)
    requires SortedDesc(s + [x])
    ensures InsertDesc(s, x) == s + [x]
  {
    if s != [] {
      assert (s + [x])[|s| - 1] == s[|s| - 1] && (s + [x])[|s|] == x;
      assert InsertPos(s, x.count) == |s|;
      assert s[..|s|] == s && s[|s|..] == [];
    }
  }

  /** Sorting a sequence that is already in descending order changes nothing. */
  lemma {:induction false} SortDescOfSorted<V>(s: seq<Item<V>>)
    requires SortedDesc(s)
    ensures SortDesc(s) == s
  {
    if s != [] {
      var init := s[..|s| - 1];
      assert s == init + [s[|s| - 1]];
      SortDescOfSorted(init);
      InsertDescSorted(init, s[|s| - 1]);
    }
  }

  /** Sorting again changes nothing. */
  lemma SortDescIdempotent<V>(s: seq<Item<V>>)
    ensures SortDesc(SortDesc(s)) == SortDesc(s)
  {
    SortDescOfSorted(SortDesc(s));
  }

  /** The entries with a given count, in their listed order. */
  function WithCount<V>(s: seq<Item<V>>, c: int): (r: seq<Item<V>>)
    ensures |r| <= |s|
    ensures forall i :: 0 <= i < |r| ==> r[i].count == c
  {
    if s == [] then []
    else WithCount(s[..|s| - 1], c) + (if s[|s| - 1].count == c then [s[|s| - 1]] else [])
  }

  lemma {:induction false} WithCountAppend<V>(s: seq<Item<V>>, t: seq<Item<V>>, c: int)
    ensures WithCount(s + t, c) == WithCount(s, c) + WithCount(t, c)
    decreases |t|
  {
    if t == [] {
      assert s + t == s;
    } else {
      var t' := t[..|t| - 1];
      assert (s + t)[..|s + t| - 1] == s + t';
      WithCountAppend(s, t', c);
    }
  }

  /** One entry is kept exactly when it has the count. */
  lemma WithCountSingle<V>(x: Item<V>, c: int)
    ensures WithCount([x], c) == if x.count == c then [x] else []
  {
    assert [x][..0] == [];
  }

  /** An entry with count `c` placed in front of entries with smaller counts comes last among count `c`. */
  lemma {:induction false} WithCountInsertSame<V>(a: seq<Item<V>>, x: Item<V>, b: seq<Item<V>>, c: int)
    requires x.count == c
    requires forall i :: 0 <= i < |b| ==> b[i].count < c
    ensures WithCount(a + [x] + b, c) == WithCount(a + b, c) + [x]
  {
    WithCountAppend(a + [x], b, c);
    WithCountAppend(a, [x], c);
    WithCountAppend(a, b, c);
    WithCountSingle(x, c);
    WithCountNone(b, c);
  }

  /** An entry with another count does not show among count `c`. */
  lemma {:induction false} WithCountInsertOther<V>(a: seq<Item<V>>, x: Item<V>, b: seq<Item<V>>, c: int)
    requires x.count != c
    ensures WithCount(a + [x] + b, c) == WithCount(a + b, c)
  {
    WithCountAppend(a + [x], b, c);
    WithCountAppend(a, [x], c);
    WithCountAppend(a, b, c);
    WithCountSingle(x, c);
  }

  /** Inserting keeps the relative order of the entries that share a count. */
  lemma {:induction false} InsertDescStable<V>(s: seq<Item<V>>, x: Item<V>, c: int)
    ensures WithCount(InsertDesc(s, x), c) == WithCount(s, c) + WithCount([x], c)
  {
    var p := InsertPos(s, x.count);
    WithCountSingle(x, c);
    if x.count == c {
      WithCountSplitSame(s, p, x, c);
    } else {
      WithCountSplitOther(s, p, x, c);
    }
  }

  /** An entry with count `c` put before entries with smaller counts comes last among those with count `c`. */
  lemma WithCountSplitSame<V>(s: seq<Item<V>>, p: nat, x: Item<V>, c: int)
    requires p <= |s| && x.count == c
    requires forall i :: p <= i < |s| ==> s[i].count < c
    ensures WithCount(s[..p] + [x] + s[p..], c) == WithCount(s, c) + [x]
  {
    var a, b := s[..p], s[p..];
    assert s == a + b;
    forall i | 0 <= i < |b| ensures b[i].count < c {
      assert b[i] == s[p + i];
    }
    WithCountInsertSame(a, x, b, c);
  }

  /** An entry with another count does not change the entries with count `c`. */
  lemma WithCountSplitOther<V>(s: seq<Item<V>>, p: nat, x: Item<V>, c: int)
    requires p <= |s| && x.count != c
    ensures WithCount(s[..p] + [x] + s[p..], c) == WithCount(s, c)
  {
    assert s == s[..p] + s[p..];
    WithCountInsertOther(s[..p], x, s[p..], c);
  }

  /** No entry with count `c` when all counts are below `c`. */
  lemma {:induction false} WithCountNone<V>(s: seq<Item<V>>, c: int)
    requires forall i :: 0 <= i < |s| ==> s[i].count < c
    ensures WithCount(s, c) == []
  {
    if s != [] {
      WithCountNone(s[..|s| - 1], c);
    }
  }

  /**
   * The sort is stable: the entries that share any one count appear in the sorted
   * sequence in the order they were listed.
   */
  lemma {:induction false} SortDescStable<V>(s: seq<Item<V>>, c: int)
    ensures WithCount(SortDesc(s), c) == WithCount(s, c)
  {
    if s != [] {
      var init := s[..|s| - 1];
      assert s == init + [s[|s| - 1]];
      SortDescStable(init, c);
      InsertDescStable(SortDesc(init), s[|s| - 1], c);
      WithCountAppend(init, [s[|s| - 1]], c);
    }
  }

  /** No key is listed twice. */
  predicate DistinctKeys<V>(s: seq<Item<V>>) {
    forall i, j :: 0 <= i < j < |s| ==> s[i].key != s[j].key
  }

  /** Inserting an entry whose key is not listed keeps the keys distinct. */
  lemma InsertDescDistinct<V>(s: seq<Item<V>>, x: Item<V>)
    requires DistinctKeys(s) && forall i :: 0 <= i < |s| ==> s[i].key != x.key
    ensures DistinctKeys(InsertDesc(s, x))
  {
    var p := InsertPos(s, x.count);
    var r := s[..p] + [x] + s[p..];
    SplitAt(s, p, x);
    forall i, j | 0 <= i < j < |r| ensures r[i].key != r[j].key {
      if i < p && j > p {
        assert r[i] == s[i] && r[j] == s[j - 1];
      }
    }
  }

  /** Sorting keeps distinct keys distinct. */
  lemma {:induction false} SortDescDistinct<V>(s: seq<Item<V>>)
    requires DistinctKeys(s)
    ensures DistinctKeys(SortDesc(s))
  {
    if s != [] {
      var init, x := s[..|s| - 1], s[|s| - 1];
      assert s == init + [x];
      SortDescDistinct(init);
      var sorted := SortDesc(init);
      forall i | 0 <= i < |sorted| ensures sorted[i].key != x.key {
        assert sorted[i] in multiset(init);
      }
      InsertDescDistinct(sorted, x);
    }
  }

  // ---------------------------------------------------------------------------------------
  // Reading entries: the order depends on the counts only, and the counts add up
  // ---------------------------------------------------------------------------------------

  /** Each entry with the same key and count and what it carries transformed by `g`. */
  function MapValues<V, W>(s: seq<Item<V>>, g: V -> W): (r: seq<Item<W>>)
    ensures |r| == |s|
    ensures forall i :: 0 <= i < |r| ==> r[i] == Item(s[i].key, s[i].count, g(s[i].value))
  {
    seq(|s|, i requires 0 <= i < |s| => Item(s[i].key, s[i].count, g(s[i].value)))
  }

  lemma {:induction false} InsertPosMapValues<V, W>(s: seq<Item<V>>, g: V -> W, c: int)
    ensures InsertPos(MapValues(s, g), c) == InsertPos(s, c)
  {
    if s != [] {
      assert MapValues(s, g)[..|s| - 1] == MapValues(s[..|s| - 1], g);
      InsertPosMapValues(s[..|s| - 1], g, c);
    }
  }

  /** Transforming what entries carry commutes with inserting by count. */
  lemma InsertDescMapValues<V, W>(s: seq<Item<V>>, x: Item<V>, g: V -> W)
    ensures MapValues(InsertDesc(s, x), g) == InsertDesc(MapValues(s, g), Item(x.key, x.count, g(x.value)))
  {
    var p := InsertPos(s, x.count);
    InsertPosMapValues(s, g, x.count);
    var m := MapValues(s, g);
    assert MapValues(s[..p] + [x] + s[p..], g) == m[..p] + [Item(x.key, x.count, g(x.value))] + m[p..];
  }

  /** Transforming what entries carry commutes with the sort: it orders by counts alone. */
  lemma {:induction false} SortDescMapValues<V, W>(s: seq<Item<V>>, g: V -> W)
    ensures MapValues(SortDesc(s), g) == SortDesc(MapValues(s, g))
  {
    if s != [] {
      var init := s[..|s| - 1];
      var x := s[|s| - 1];
      var m := MapValues(s, g);
      assert m[..|s| - 1] == MapValues(init, g) && m[|s| - 1] == Item(x.key, x.count, g(x.value));
      assert SortDesc(s) == InsertDesc(SortDesc(init), x);
      assert SortDesc(m) == InsertDesc(SortDesc(MapValues(init, g)), Item(x.key, x.count, g(x.value)));
      SortDescMapValues(init, g);
      InsertDescMapValues(SortDesc(init), x, g);
    }
  }

  /** The sum of the counts. */
  function SumCounts<V>(s: seq<Item<V>>): int {
    if s == [] then 0 else SumCounts(s[..|s| - 1]) + s[|s| - 1].count
  }

  lemma {:induction false} SumCountsAppend<V>(s: seq<Item<V>>, t: seq<Item<V>>)
    ensures SumCounts(s + t) == SumCounts(s) + SumCounts(t)
    decreases |t|
  {
    if t == [] {
      assert s + t == s;
    } else {
      assert (s + t)[..|s + t| - 1] == s + t[..|t| - 1];
      SumCountsAppend(s, t[..|t| - 1]);
    }
  }

  /** Inserting adds the entry's count. */
  lemma SumCountsInsertDesc<V>(s: seq<Item<V>>, x: Item<V>)
    ensures SumCounts(InsertDesc(s, x)) == SumCounts(s) + x.count
  {
    var p := InsertPos(s, x.count);
    assert s == s[..p] + s[p..];
    SumCountsAppend(s[..p], s[p..]);
    SumCountsAppend(s[..p] + [x], s[p..]);
    SumCountsAppend(s[..p], [x]);
    assert [x][..0] == [];
  }

  /** Sorting does not change the sum of the counts. */
  lemma {:induction false} SumCountsSortDesc<V>(s: seq<Item<V>>)
    ensures SumCounts(SortDesc(s)) == SumCounts(s)
  {
    if s != [] {
      var init := s[..|s| - 1];
      var x := s[|s| - 1];
      assert SortDesc(s) == InsertDesc(SortDesc(init), x);
      SumCountsSortDesc(init);
      SumCountsInsertDesc(SortDesc(init), x);
    }
  }
}
