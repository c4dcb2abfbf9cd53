/**
 * The hash-style three-level tally shared by `generateStats` of `src/stores/messageStore.js`
 * (levels to, domain, from), `generateStats` of `src/database.js` and the tree `reduce` of
 * the dashboards (levels domain, from, subject): for each scanned row, create each missing
 * bucket, then add one at every level.
 */
module Tally {
  import opened Wrappers
  import opened JsObject

  /** One scanned key: three levels, outermost first. */
  datatype Row = Row(a: string, b: string, c: string)

  /** A second-level bucket: its `_count` and its leaves. */
  datatype Mid<L> = Mid(count: int, leaves: Obj<L>)

  /** A first-level bucket: its `_count` and its second-level buckets. */
  datatype Top<L> = Top(count: int, mids: Obj<Mid<L>>)

  type Stats<L> = Obj<Top<L>>

  /** A prefix of a row: one, two or three leading levels. */
  datatype Prefix = P1(a: string) | P2(a: string, b: string) | P3(a: string, b: string, c: string)

  predicate Under(r: Row, p: Prefix) {
    match p
    case P1(a) => r.a == a
    case P2(a, b) => r.a == a && r.b == b
    case P3(a, b, c) => r.a == a && r.b == b && r.c == c
  }

  /** How many rows share the prefix. */
  function Count(rows: seq<Row>, p: Prefix): (n: nat)
    ensures n <= |rows|
  {
    if rows == [] then 0
    else Count(rows[..|rows| - 1], p) + (if Under(rows[|rows| - 1], p) then 1 else 0)
  }

  // ---------------------------------------------------------------------------------------
  // The tally
  // ---------------------------------------------------------------------------------------

  /** `stats[a]`, or the fresh `{ _count: 0 }` bucket the scan creates when it is missing. */
  function GetTop(s: Stats<int>, a: string): Top<int> {
    if a in s.vals then s.vals[a] else Top(0, Empty())
  }

  /** `stats[a][b]`, or a fresh `{ _count: 0 }` bucket. */
  function GetMid(o: Obj<Mid<int>>, b: string): Mid<int> {
    if b in o.vals then o.vals[b] else Mid(0, Empty())
  }

  /** `stats[a][b][c]`, or 0 when it is still undefined. */
  function GetLeaf(o: Obj<int>, c: string): int {
    if c in o.vals then o.vals[c] else 0
  }

  /** `stats[a][b][c]++` on a leaf level, starting from undefined-as-zero. */
  function BumpLeaves(o: Obj<int>, c: string): Obj<int> {
    Put(o, c, GetLeaf(o, c) + 1)
  }

  /** A second-level bucket after a row under it: its `_count` and its leaf go up by one. */
  function BumpMid(m: Mid<int>, c: string): Mid<int> {
    Mid(m.count + 1, BumpLeaves(m.leaves, c))
  }

  /** The second level of a row's first-level bucket after the row. */
  function BumpMids(o: Obj<Mid<int>>, r: Row): Obj<Mid<int>> {
    Put(o, r.b, BumpMid(GetMid(o, r.b), r.c))
  }

  /** A first-level bucket after a row under it. */
  function BumpTop(t: Top<int>, r: Row): Top<int> {
    Top(t.count + 1, BumpMids(t.mids, r))
  }

  /** One scanned row: every bucket on its path is created if missing and incremented. */
  function Bump(s: Stats<int>, r: Row): (s': Stats<int>)
    ensures r.a in s'.vals
    ensures Valid(s) ==> Valid(s')
  {
    Put(s, r.a, BumpTop(GetTop(s, r.a), r))
  }

  /** The tally of a scan: `Bump` applied to each row in scan order, starting from `{}`. */
  function Tally(rows: seq<Row>): (s: Stats<int>)
    ensures Valid(s)
    ensures |s.keys| <= |rows|
  {
    if rows == [] then Empty() else Bump(Tally(rows[..|rows| - 1]), rows[|rows| - 1])
  }

  /**
   * The scan loop: for each key, take the bucket at each level (a fresh `{ _count: 0 }` when
   * it is missing, `0` for a missing leaf), add one at every level, and store the path back.
   */
  method Scan(rows: seq<Row>) returns (stats: Stats<int>)
    ensures stats == Tally(rows)
    ensures Valid(stats)
  {
    stats := Empty();
    var i := 0;
    while i < |rows|
      invariant 0 <= i <= |rows|
      invariant stats == Tally(rows[..i])
    {
      var r := rows[i];
      ghost var before := stats;
      var top := GetTop(stats, r.a);
      var mid := GetMid(top.mids, r.b);
      var leaf := GetLeaf(mid.leaves, r.c);
      stats := Put(stats, r.a, Top(top.count + 1, Put(top.mids, r.b, Mid(mid.count + 1, Put(mid.leaves, r.c, leaf + 1)))));
      ScanStep(before, r, top, mid, leaf);
      TallySnoc(rows, i);
      i := i + 1;
    }
    assert rows[..i] == rows;
    TallyAgrees(rows);
  }

  /** The tally of one more row of the scan. */
  lemma TallySnoc(rows: seq<Row>, i: nat)
    requires i < |rows|
    ensures Tally(rows[..i + 1]) == Bump(Tally(rows[..i]), rows[i])
  {
    assert rows[..i + 1][..i] == rows[..i];
  }

  /** The scan loop's update of one row, written level by level, is `Bump`. */
  lemma ScanStep(s: Stats<int>, r: Row, top: Top<int>, mid: Mid<int>, leaf: int)
    requires top == GetTop(s, r.a) && mid == GetMid(top.mids, r.b) && leaf == GetLeaf(mid.leaves, r.c)
    ensures Put(s, r.a, Top(top.count + 1, Put(top.mids, r.b, Mid(mid.count + 1, Put(mid.leaves, r.c, leaf + 1))))) == Bump(s, r)
  {
  }

  // ---------------------------------------------------------------------------------------
  // Agreement with the prefix counts
  // ---------------------------------------------------------------------------------------

  ghost predicate LeavesAgree(o: Obj<int>, rows: seq<Row>, a: string, b: string) {
    && Valid(o)
    && (forall c :: c in o.vals <==> Count(rows, P3(a, b, c)) > 0)
    && (forall c :: c in o.vals ==> o.vals[c] == Count(rows, P3(a, b, c)))
  }

  ghost predicate MidAgrees(m: Mid<int>, rows: seq<Row>, a: string, b: string) {
    m.count == Count(rows, P2(a, b)) && LeavesAgree(m.leaves, rows, a, b)
  }

  ghost predicate MidsAgree(o: Obj<Mid<int>>, rows: seq<Row>, a: string) {
    && Valid(o)
    && (forall b :: b in o.vals <==> Count(rows, P2(a, b)) > 0)
    && (forall b :: b in o.vals ==> MidAgrees(o.vals[b], rows, a, b))
  }

  ghost predicate TopAgrees(t: Top<int>, rows: seq<Row>, a: string) {
    t.count == Count(rows, P1(a)) && MidsAgree(t.mids, rows, a)
  }

  /**
   * Every bucket holds exactly the number of rows under its path, and a bucket exists
   * exactly when that number is positive.
   */
  ghost predicate StatsAgree(s: Stats<int>, rows: seq<Row>) {
    && Valid(s)
    && (forall a :: a in s.vals <==> Count(rows, P1(a)) > 0)
    && (forall a :: a in s.vals ==> TopAgrees(s.vals[a], rows, a))
  }

  /** Fewer rows share a longer prefix. */
  lemma {:induction false} CountNested(rows: seq<Row>, a: string, b: string, c: string)
    ensures Count(rows, P3(a, b, c)) <= Count(rows, P2(a, b)) <= Count(rows, P1(a))
  {
    if rows != [] {
      CountNested(rows[..|rows| - 1], a, b, c);
    }
  }

  lemma GetMidAgrees(o: Obj<Mid<int>>, rows: seq<Row>, a: string, b: string)
    requires MidsAgree(o, rows, a)
    ensures MidAgrees(GetMid(o, b), rows, a, b)
  {
    if b !in o.vals {
      forall c ensures Count(rows, P3(a, b, c)) == 0 {
        CountNested(rows, a, b, c);
      }
    }
  }

  lemma GetTopAgrees(s: Stats<int>, rows: seq<Row>, a: string)
    requires StatsAgree(s, rows)
    ensures TopAgrees(GetTop(s, a), rows, a)
  {
    if a !in s.vals {
      forall b ensures Count(rows, P2(a, b)) == 0 {
        CountNested(rows, a, b, "");
      }
    }
  }

  /** A row changes only the counts of the prefixes it lies under. */
  lemma CountStep(rows: seq<Row>, r: Row, p: Prefix)
    ensures Count(rows + [r], p) == Count(rows, p) + (if Under(r, p) then 1 else 0)
  {
    assert (rows + [r])[..|rows|] == rows;
  }

  lemma BumpMidAgrees(m: Mid<int>, rows: seq<Row>, r: Row)
    requires MidAgrees(m, rows, r.a, r.b)
    ensures MidAgrees(BumpMid(m, r.c), rows + [r], r.a, r.b)
  {
    CountStep(rows, r, P2(r.a, r.b));
    forall c {
      CountStep(rows, r, P3(r.a, r.b, c));
    }
  }

  /** Buckets off the row's path keep agreeing after the row. */
  lemma OffPathMid(m: Mid<int>, rows: seq<Row>, r: Row, a: string, b: string)
    requires MidAgrees(m, rows, a, b) && (a != r.a || b != r.b)
    ensures MidAgrees(m, rows + [r], a, b)
  {
    CountStep(rows, r, P2(a, b));
    forall c {
      CountStep(rows, r, P3(a, b, c));
    }
  }

  /** Storing an agreeing second-level bucket under the row's key keeps the level agreeing. */
  lemma PutMidAgrees(o: Obj<Mid<int>>, rows: seq<Row>, r: Row, m: Mid<int>)
    requires MidsAgree(o, rows, r.a) && MidAgrees(m, rows + [r], r.a, r.b)
    ensures MidsAgree(Put(o, r.b, m), rows + [r], r.a)
  {
    var o' := Put(o, r.b, m);
    forall b ensures b in o'.vals <==> Count(rows + [r], P2(r.a, b)) > 0 {
      CountStep(rows, r, P2(r.a, b));
    }
    forall b | b in o'.vals && b != r.b ensures MidAgrees(o'.vals[b], rows + [r], r.a, b) {
      OffPathMid(o.vals[b], rows, r, r.a, b);
    }
  }

  lemma BumpTopAgrees(t: Top<int>, rows: seq<Row>, r: Row)
    requires TopAgrees(t, rows, r.a)
    ensures TopAgrees(BumpTop(t, r), rows + [r], r.a)
  {
    var m := GetMid(t.mids, r.b);
    GetMidAgrees(t.mids, rows, r.a, r.b);
    BumpMidAgrees(m, rows, r);
    CountStep(rows, r, P1(r.a));
    PutMidAgrees(t.mids, rows, r, BumpMid(m, r.c));
  }

  lemma OffPathTop(t: Top<int>, rows: seq<Row>, r: Row, a: string)
    requires TopAgrees(t, rows, a) && a != r.a
    ensures TopAgrees(t, rows + [r], a)
  {
    CountStep(rows, r, P1(a));
    forall b ensures b in t.mids.vals <==> Count(rows + [r], P2(a, b)) > 0 {
      CountStep(rows, r, P2(a, b));
    }
    forall b | b in t.mids.vals ensures MidAgrees(t.mids.vals[b], rows + [r], a, b) {
      OffPathMid(t.mids.vals[b], rows, r, a, b);
    }
  }

  /** Storing an agreeing bucket under the row's first-level key keeps the whole tally agreeing. */
  lemma PutTopAgrees(s: Stats<int>, rows: seq<Row>, r: Row, top: Top<int>)
    requires StatsAgree(s, rows) && TopAgrees(top, rows + [r], r.a)
    ensures StatsAgree(Put(s, r.a, top), rows + [r])
  {
    var s' := Put(s, r.a, top);
    forall a ensures a in s'.vals <==> Count(rows + [r], P1(a)) > 0 {
      CountStep(rows, r, P1(a));
    }
    forall a | a in s'.vals && a != r.a ensures TopAgrees(s'.vals[a], rows + [r], a) {
      OffPathTop(s.vals[a], rows, r, a);
    }
  }

  lemma BumpAgrees(s: Stats<int>, rows: seq<Row>, r: Row)
    requires StatsAgree(s, rows)
    ensures StatsAgree(Bump(s, r), rows + [r])
  {
    var t := GetTop(s, r.a);
    GetTopAgrees(s, rows, r.a);
    BumpTopAgrees(t, rows, r);
    PutTopAgrees(s, rows, r, BumpTop(t, r));
  }

  /**
   * The tally is exact: the bucket of a first-level key exists exactly when some row has that
   * key and holds the number of such rows; the same holds for every second-level bucket
   * under it and for every leaf under that.
   */
  lemma {:induction false} TallyAgrees(rows: seq<Row>)
    ensures StatsAgree(Tally(rows), rows)
  {
    if rows != [] {
      var init, last := rows[..|rows| - 1], rows[|rows| - 1];
      assert rows == init + [last];
      assert Tally(rows) == Bump(Tally(init), last);
      TallyAgrees(init);
      BumpAgrees(Tally(init), init, last);
    }
  }

  /** The count stored at the end of a path, or `None` when some bucket on it is missing. */
  function Lookup(s: Stats<int>, p: Prefix): Option<int> {
    if p.a !in s.vals then None
    else
      match p
      case P1(_) => Some(s.vals[p.a].count)
      case P2(_, b) =>
        if b in s.vals[p.a].mids.vals then Some(s.vals[p.a].mids.vals[b].count) else None
      case P3(_, b, c) =>
        if b in s.vals[p.a].mids.vals && c in s.vals[p.a].mids.vals[b].leaves.vals
        then Some(s.vals[p.a].mids.vals[b].leaves.vals[c])
        else None
  }

  /** Every path of the tally holds the number of scanned rows under it, or is missing when there are none. */
  lemma TallyLookup(rows: seq<Row>, p: Prefix)
    ensures Lookup(Tally(rows), p) == if Count(rows, p) > 0 then Some(Count(rows, p)) else None
  {
    TallyAgrees(rows);
    LookupAgrees(Tally(rows), rows, p);
  }

  /** Statistics that agree with a scan hold each prefix's number of keys, and only prefixes that occur. */
  lemma LookupAgrees(s: Stats<int>, rows: seq<Row>, p: Prefix)
    requires StatsAgree(s, rows)
    ensures Lookup(s, p) == if Count(rows, p) > 0 then Some(Count(rows, p)) else None
  {
    match p
    case P1(a) =>
    case P2(a, b) =>
      CountNested(rows, a, b, "");
    case P3(a, b, c) =>
      CountNested(rows, a, b, c);
  }

  lemma TallyLookups(rows: seq<Row>)
    ensures forall p :: Lookup(Tally(rows), p) == if Count(rows, p) > 0 then Some(Count(rows, p)) else None
  {
    forall p ensures Lookup(Tally(rows), p) == if Count(rows, p) > 0 then Some(Count(rows, p)) else None {
      TallyLookup(rows, p);
    }
  }

  lemma {:induction false} CountAppend(xs: seq<Row>, ys: seq<Row>, p: Prefix)
    ensures Count(xs + ys, p) == Count(xs, p) + Count(ys, p)
    decreases |ys|
  {
    if ys == [] {
      assert xs + ys == xs;
    } else {
      var init := ys[..|ys| - 1];
      assert (xs + ys)[..|xs + ys| - 1] == xs + init;
      CountAppend(xs, init, p);
    }
  }

  /** Taking one row out of the scan takes it out of the counts of its prefixes only. */
  lemma CountRemove(rows: seq<Row>, i: nat, p: Prefix)
    requires i < |rows|
    ensures Count(rows, p) == Count(rows[..i] + rows[i + 1..], p) + (if Under(rows[i], p) then 1 else 0)
  {
    assert rows == rows[..i] + [rows[i]] + rows[i + 1..];
    CountAppend(rows[..i] + [rows[i]], rows[i + 1..], p);
    CountAppend(rows[..i], [rows[i]], p);
    CountAppend(rows[..i], rows[i + 1..], p);
    CountStep([], rows[i], p);
  }

  /** Reordering the scan does not change any prefix count. */
  lemma {:induction false} CountPermutation(rows: seq<Row>, rows': seq<Row>, p: Prefix)
    requires multiset(rows) == multiset(rows')
    ensures Count(rows, p) == Count(rows', p)
  {
    if rows != [] {
      var init, x := rows[..|rows| - 1], rows[|rows| - 1];
      assert rows == init + [x];
      assert x in multiset(rows');
      var i :| 0 <= i < |rows'| && rows'[i] == x;
      var rest := rows'[..i] + rows'[i + 1..];
      assert rows' == rows'[..i] + [x] + rows'[i + 1..];
      assert multiset(rows') == multiset(rows'[..i]) + multiset{x} + multiset(rows'[i + 1..]);
      assert multiset(rest) == multiset(rows'[..i]) + multiset(rows'[i + 1..]);
      assert multiset(rows) == multiset(init) + multiset{x};
      assert multiset(init) == multiset(rows) - multiset{x};
      assert multiset(rest) == multiset(rows') - multiset{x};
      CountPermutation(init, rest, p);
      CountRemove(rows', i, p);
      CountStep(init, x, p);
    } else {
      assert rows' == [];
    }
  }

  /**
   * Buckets are created on first sight, so the counts do not depend on the scan order: any
   * reordering of the same rows stores the same count at every path.
   */
  lemma ScanOrderIrrelevant(rows: seq<Row>, rows': seq<Row>, p: Prefix)
    requires multiset(rows) == multiset(rows')
    ensures Lookup(Tally(rows), p) == Lookup(Tally(rows'), p)
  {
    TallyLookup(rows, p);
    TallyLookup(rows', p);
    CountPermutation(rows, rows', p);
  }

  // ---------------------------------------------------------------------------------------
  // Parents are the sums of their children
  // ---------------------------------------------------------------------------------------

  /** The count of each level: a leaf's value, a bucket's `_count`. */
  function LeafCount(n: int): int { n }
  function MidCount(m: Mid<int>): int { m.count }
  function TopCount(t: Top<int>): int { t.count }

  /** The sum of `f` over the values stored under the keys `ks` (missing keys add nothing). */
  function SumValues<V>(o: Obj<V>, ks: seq<string>, f: V -> int): int {
    if ks == [] then 0
    else SumValues(o, ks[..|ks| - 1], f) + (if ks[|ks| - 1] in o.vals then f(o.vals[ks[|ks| - 1]]) else 0)
  }

  /** Every `_count` is the sum of its children's counts (`_count`s or leaf values). */
  ghost predicate ParentsAreSums(s: Stats<int>) {
    forall a :: a in s.vals ==>
      && s.vals[a].count == SumValues(s.vals[a].mids, s.vals[a].mids.keys, MidCount)
      && forall b :: b in s.vals[a].mids.vals ==>
        s.vals[a].mids.vals[b].count == SumValues(s.vals[a].mids.vals[b].leaves, s.vals[a].mids.vals[b].leaves.keys, LeafCount)
  }

  /** How often `x` occurs in `xs`. */
  function Occurrences(xs: seq<string>, x: string): nat {
    if xs == [] then 0 else Occurrences(xs[..|xs| - 1], x) + (if xs[|xs| - 1] == x then 1 else 0)
  }

  /** The sum of the occurrence counts of the keys `ks` in `xs`. */
  function SumOccurrences(xs: seq<string>, ks: seq<string>): int {
    if ks == [] then 0 else SumOccurrences(xs, ks[..|ks| - 1]) + Occurrences(xs, ks[|ks| - 1])
  }

  lemma {:induction false} SumOccurrencesStep(xs: seq<string>, y: string, ks: seq<string>)
    requires NoDuplicates(ks)
    ensures SumOccurrences(xs + [y], ks) == SumOccurrences(xs, ks) + (if y in ks then 1 else 0)
  {
    assert (xs + [y])[..|xs|] == xs;
    if ks != [] {
      var init := ks[..|ks| - 1];
      SumOccurrencesStep(xs, y, init);
      assert y in ks <==> y in init || y == ks[|ks| - 1];
    }
  }

  /** Distinct keys covering every element of `xs` account for all of `xs` exactly once. */
  lemma {:induction false} SumOccurrencesAll(xs: seq<string>, ks: seq<string>)
    requires NoDuplicates(ks) && forall x :: x in xs ==> x in ks
    ensures SumOccurrences(xs, ks) == |xs|
  {
    if xs == [] {
      SumOccurrencesEmpty(ks);
    } else {
      var init := xs[..|xs| - 1];
      assert xs == init + [xs[|xs| - 1]];
      SumOccurrencesAll(init, ks);
      SumOccurrencesStep(init, xs[|xs| - 1], ks);
    }
  }

  lemma {:induction false} SumOccurrencesEmpty(ks: seq<string>)
    ensures SumOccurrences([], ks) == 0
  {
    if ks != [] {
      SumOccurrencesEmpty(ks[..|ks| - 1]);
    }
  }

  /** A sum over values that agree key by key with occurrence counts is the sum of those counts. */
  lemma {:induction false} SumValuesOccurrences<V>(o: Obj<V>, ks: seq<string>, f: V -> int, xs: seq<string>)
    requires forall k :: k in ks ==> Occurrences(xs, k) == if k in o.vals then f(o.vals[k]) else 0
    ensures SumValues(o, ks, f) == SumOccurrences(xs, ks)
  {
    if ks != [] {
      SumValuesOccurrences(o, ks[..|ks| - 1], f, xs);
    }
  }

  /** The second-level keys of the rows under `a`, in scan order. */
  function Column2(rows: seq<Row>, a: string): (col: seq<string>)
    ensures |col| == Count(rows, P1(a))
    ensures forall b :: Occurrences(col, b) == Count(rows, P2(a, b))
  {
    if rows == [] then []
    else
      var init := rows[..|rows| - 1];
      var r := rows[|rows| - 1];
      var col := Column2(init, a);
      if r.a == a then
        assert (col + [r.b])[..|col|] == col;
        col + [r.b]
      else col
  }

  /** The leaf keys of the rows under `(a, b)`, in scan order. */
  function Column3(rows: seq<Row>, a: string, b: string): (col: seq<string>)
    ensures |col| == Count(rows, P2(a, b))
    ensures forall c :: Occurrences(col, c) == Count(rows, P3(a, b, c))
  {
    if rows == [] then []
    else
      var init := rows[..|rows| - 1];
      var r := rows[|rows| - 1];
      var col := Column3(init, a, b);
      if r.a == a && r.b == b then
        assert (col + [r.c])[..|col|] == col;
        col + [r.c]
      else col
  }

  /** The first-level keys of the rows, in scan order. */
  function Column1(rows: seq<Row>): (col: seq<string>)
    ensures |col| == |rows|
    ensures forall a :: Occurrences(col, a) == Count(rows, P1(a))
  {
    if rows == [] then []
    else
      var col := Column1(rows[..|rows| - 1]);
      assert (col + [rows[|rows| - 1].a])[..|col|] == col;
      col + [rows[|rows| - 1].a]
  }

  /** An occurring element makes a positive count. */
  lemma {:induction false} OccursPositive(xs: seq<string>, x: string)
    requires x in xs
    ensures Occurrences(xs, x) > 0
  {
    if xs[|xs| - 1] != x {
      assert x in xs[..|xs| - 1];
      OccursPositive(xs[..|xs| - 1], x);
    }
  }

  lemma LeafSum(rows: seq<Row>, o: Obj<int>, a: string, b: string)
    requires LeavesAgree(o, rows, a, b)
    ensures SumValues(o, o.keys, LeafCount) == Count(rows, P2(a, b))
  {
    var col := Column3(rows, a, b);
    forall c | c in col ensures c in o.keys {
      OccursPositive(col, c);
    }
    SumValuesOccurrences(o, o.keys, LeafCount, col);
    SumOccurrencesAll(col, o.keys);
  }

  lemma MidSum(rows: seq<Row>, o: Obj<Mid<int>>, a: string)
    requires MidsAgree(o, rows, a)
    ensures SumValues(o, o.keys, MidCount) == Count(rows, P1(a))
  {
    var col := Column2(rows, a);
    forall b | b in col ensures b in o.keys {
      OccursPositive(col, b);
    }
    SumValuesOccurrences(o, o.keys, MidCount, col);
    SumOccurrencesAll(col, o.keys);
  }

  /** Within one agreeing first-level bucket, every count is the sum of its children's. */
  lemma TopSums(rows: seq<Row>, t: Top<int>, a: string)
    requires TopAgrees(t, rows, a)
    ensures t.count == SumValues(t.mids, t.mids.keys, MidCount)
    ensures forall b :: b in t.mids.vals ==>
      t.mids.vals[b].count == SumValues(t.mids.vals[b].leaves, t.mids.vals[b].leaves.keys, LeafCount)
  {
    MidSum(rows, t.mids, a);
    forall b | b in t.mids.vals
      ensures t.mids.vals[b].count == SumValues(t.mids.vals[b].leaves, t.mids.vals[b].leaves.keys, LeafCount)
    {
      LeafSum(rows, t.mids.vals[b].leaves, a, b);
    }
  }

  /** The first-level counts of an agreeing tally add up to the number of rows. */
  lemma RootSum(rows: seq<Row>, s: Stats<int>)
    requires StatsAgree(s, rows)
    ensures SumValues(s, s.keys, TopCount) == |rows|
  {
    var col := Column1(rows);
    forall a | a in col ensures a in s.keys {
      OccursPositive(col, a);
    }
    SumValuesOccurrences(s, s.keys, TopCount, col);
    SumOccurrencesAll(col, s.keys);
  }

  /**
   * Every parent count of the tally is the sum of its children's counts, and the first-level
   * counts add up to the number of scanned rows.
   */
  lemma TallySums(rows: seq<Row>)
    ensures ParentsAreSums(Tally(rows))
    ensures SumValues(Tally(rows), Tally(rows).keys, TopCount) == |rows|
  {
    var s := Tally(rows);
    TallyAgrees(rows);
    forall a | a in s.vals
      ensures s.vals[a].count == SumValues(s.vals[a].mids, s.vals[a].mids.keys, MidCount)
      ensures forall b :: b in s.vals[a].mids.vals ==>
        s.vals[a].mids.vals[b].count == SumValues(s.vals[a].mids.vals[b].leaves, s.vals[a].mids.vals[b].leaves.keys, LeafCount)
    {
      TopSums(rows, s.vals[a], a);
    }
    RootSum(rows, s);
  }
}
