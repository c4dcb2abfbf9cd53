/**
 * The proof-of-concept store of `src/poc/messages.js`, whose `generateStats` scan is repeated
 * verbatim by `collateMessages` in `src/gmail/collateMessages.js`. The `[to+domain+from]`
 * index is scanned in order, and a bucket is opened at a level only when that level's own
 * value differs from the same level of the previous key (`lastSeen`), instead of when it is
 * missing.
 */
module PocMessages {
  import opened Wrappers
  import opened JsObject
  import opened Tally
  import opened KeyOrder
  import opened SortedTree

  // ---------------------------------------------------------------------------------------
  // findUniqueDomains
  // ---------------------------------------------------------------------------------------

  /** No element equals the one before it. */
  predicate NoAdjacent(s: seq<string>) {
    forall i :: 0 < i < |s| ==> s[i - 1] != s[i]
  }

  /** The elements of `s`, each dropped when it equals the one kept before it. */
  function Dedupe(s: seq<string>): (r: seq<string>)
    ensures NoAdjacent(r)
    ensures forall x :: x in r <==> x in s
    ensures |r| <= |s|
    ensures s != [] ==> r != [] && r[|r| - 1] == s[|s| - 1]
  {
    if s == [] then []
    else
      var d := Dedupe(s[..|s| - 1]);
      var x := s[|s| - 1];
      assert forall y :: y in s <==> y in s[..|s| - 1] || y == x;
      if d != [] && d[|d| - 1] == x then d else d + [x]
  }

  /** A sequence without equal neighbours, in particular one without repeats, is kept whole. */
  lemma {:induction false} DedupeKeeps(s: seq<string>)
    requires NoAdjacent(s)
    ensures Dedupe(s) == s
  {
    if s != [] {
      var init := s[..|s| - 1];
      assert NoAdjacent(init) by {
        forall i | 0 < i < |init| ensures init[i - 1] != init[i] {
          assert init[i - 1] == s[i - 1] && init[i] == s[i];
        }
      }
      DedupeKeeps(init);
      if |s| > 1 {
        assert s[|s| - 2] != s[|s| - 1];
      }
      assert init + [s[|s| - 1]] == s;
    }
  }

  /**
   * `findUniqueDomains`: the unique keys of the `domain` index, in index order, each pushed when
   * it differs from the previous one (`lastSeen`, undefined at first). The scan yields each
   * domain once, so nothing is dropped.
   */
  method FindUniqueDomains(domains: seq<string>) returns (seenDomains: seq<string>)
    ensures seenDomains == Dedupe(domains)
    ensures NoAdjacent(seenDomains)
    ensures forall d :: d in seenDomains <==> d in domains
    ensures NoDuplicates(domains) ==> seenDomains == domains
  {
    seenDomains := [];
    var lastSeen: Option<string> := None;
    var i := 0;
    while i < |domains|
      invariant 0 <= i <= |domains|
      invariant seenDomains == Dedupe(domains[..i])
      invariant lastSeen == if i == 0 then None else Some(domains[i - 1])
    {
      assert domains[..i + 1][..i] == domains[..i];
      var domain := domains[i];
      if lastSeen != Some(domain) {
        seenDomains := seenDomains + [domain];
        lastSeen := Some(domain);
      }
      i := i + 1;
    }
    assert domains[..i] == domains;
    if NoDuplicates(domains) {
      DedupeKeeps(domains);
    }
  }

  /** A number as the scan computes it: an integer, or `NaN` (`undefined + 1`). */
  datatype Num = Num(n: int) | NaN

  function Inc(x: Num): Num {
    if x.Num? then Num(x.n + 1) else NaN
  }

  /** `stats[to][domain][from] += 1`: a leaf never set is `undefined`, and `undefined + 1` is `NaN`. */
  function LeafPlusOne(leaves: Obj<Num>, c: string): Num {
    if c in leaves.vals then Inc(leaves.vals[c]) else NaN
  }

  /** `stats[to] = { _count: 0 }` when asked to. */
  function OpenTop(s: Stats<Num>, r: Row, open: bool): Stats<Num> {
    if open then Put(s, r.a, Top(0, Empty())) else s
  }

  /** `stats[to][domain] = { _count: 0 }` when asked to. */
  function OpenMid(t: Top<Num>, r: Row, open: bool): Top<Num> {
    if open then Top(t.count, Put(t.mids, r.b, Mid(0, Empty()))) else t
  }

  /** `stats[to][domain][from] = 0` when asked to. */
  function OpenLeaf(m: Mid<Num>, r: Row, open: bool): Mid<Num> {
    if open then Mid(m.count, Put(m.leaves, r.c, Num(0))) else m
  }

  /** The three increments on the key's path. */
  function AddOne(s: Stats<Num>, t: Top<Num>, m: Mid<Num>, r: Row): Stats<Num> {
    Put(s, r.a, Top(t.count + 1, Put(t.mids, r.b, Mid(m.count + 1, Put(m.leaves, r.c, LeafPlusOne(m.leaves, r.c))))))
  }

  /**
   * One key: open the buckets the flags say, then add one at every level of the key's path.
   * `None` is the `TypeError` of reading or writing through a missing bucket.
   */
  function Step(s: Stats<Num>, r: Row, openA: bool, openB: bool, openC: bool): Option<Stats<Num>> {
    StepTop(OpenTop(s, r, openA), r, openB, openC)
  }

  function StepTop(s: Stats<Num>, r: Row, openB: bool, openC: bool): Option<Stats<Num>> {
    if r.a !in s.vals then None else StepMid(s, OpenMid(s.vals[r.a], r, openB), r, openC)
  }

  function StepMid(s: Stats<Num>, t: Top<Num>, r: Row, openC: bool): Option<Stats<Num>> {
    if r.b !in t.mids.vals then None else Some(AddOne(s, t, OpenLeaf(t.mids.vals[r.b], r, openC), r))
  }

  /** The level's own value differs from the previous key's (always true for the first key). */
  predicate NewA(last: Option<Row>, r: Row) { last.None? || last.value.a != r.a }
  predicate NewB(last: Option<Row>, r: Row) { last.None? || last.value.b != r.b }
  predicate NewC(last: Option<Row>, r: Row) { last.None? || last.value.c != r.c }

  /**
   * When a level's bucket is opened. As written (`byPrefix` false) a level opens when its
   * own value changes; corrected (`byPrefix` true) it also opens whenever an outer level does,
   * that is, whenever the prefix up to it changes.
   */
  predicate OpenB(last: Option<Row>, r: Row, byPrefix: bool) {
    NewB(last, r) || (byPrefix && NewA(last, r))
  }

  predicate OpenC(last: Option<Row>, r: Row, byPrefix: bool) {
    NewC(last, r) || (byPrefix && (NewA(last, r) || NewB(last, r)))
  }

  /** The scan's state: the statistics and the previous key (`lastSeen`). */
  datatype Acc = Acc(stats: Stats<Num>, last: Option<Row>)

  function KeyStep(acc: Acc, r: Row, byPrefix: bool): (next: Option<Acc>)
    ensures next.Some? ==> next.value.last == Some(r)
  {
    match Step(acc.stats, r, NewA(acc.last, r), OpenB(acc.last, r, byPrefix), OpenC(acc.last, r, byPrefix))
    case None => None
    case Some(s) => Some(Acc(s, Some(r)))
  }

  /** The scan of the keys in order; `None` once a key has thrown. */
  function Run(rows: seq<Row>, byPrefix: bool): (r: Option<Acc>)
    ensures r.Some? ==> r.value.last == LastOf(rows)
  {
    if rows == [] then Some(Acc(Empty(), None))
    else
      match Run(rows[..|rows| - 1], byPrefix)
      case None => None
      case Some(acc) => KeyStep(acc, rows[|rows| - 1], byPrefix)
  }

  function LastOf(rows: seq<Row>): Option<Row> {
    if rows == [] then None else Some(rows[|rows| - 1])
  }

  // ---------------------------------------------------------------------------------------
  // The scan loop
  // ---------------------------------------------------------------------------------------

  /**
   * `generateStats` / `collateMessages` up to the final `toSortedMap`: the `eachKey` loop
   * with its three `lastSeen` slots. `None` is the promise rejected by a `TypeError`.
   */
  method GenerateStats(keys: seq<Row>) returns (stats: Option<Stats<Num>>)
    ensures Run(keys, false).None? ==> stats.None?
    ensures Run(keys, false).Some? ==> stats == Some(Run(keys, false).value.stats)
  {
    var s: Stats<Num> := Empty();
    var lastTo: Option<string> := None;
    var lastDomain: Option<string> := None;
    var lastFrom: Option<string> := None;
    var i := 0;
    while i < |keys|
      invariant 0 <= i <= |keys|
      invariant Run(keys[..i], false) == Some(Acc(s, LastOf(keys[..i])))
      invariant i == 0 ==> lastTo.None? && lastDomain.None? && lastFrom.None?
      invariant i > 0 ==> lastTo == Some(keys[i - 1].a) && lastDomain == Some(keys[i - 1].b) && lastFrom == Some(keys[i - 1].c)
    {
      var key := keys[i];
      RunSnoc(keys, i, false);
      ghost var before := s;
      ghost var last := LastOf(keys[..i]);
      assert (lastTo != Some(key.a)) == NewA(last, key);
      assert (lastDomain != Some(key.b)) == NewB(last, key);
      assert (lastFrom != Some(key.c)) == NewC(last, key);
      if lastTo != Some(key.a) {
        lastTo := Some(key.a);
        s := Put(s, key.a, Top(0, Empty()));
      }
      if key.a !in s.vals {
        // cannot happen: the previous key's bucket is still there
        KeyStepThrows(before, last, key, s, None);
        RunThrown(keys, i + 1);
        stats := None;
        return;
      }
      var top := s.vals[key.a];
      if lastDomain != Some(key.b) {
        lastDomain := Some(key.b);
        top := Top(top.count, Put(top.mids, key.b, Mid(0, Empty())));
      }
      if key.b !in top.mids.vals {
        // `stats[to][domain]` is undefined
        KeyStepThrows(before, last, key, s, Some(top));
        RunThrown(keys, i + 1);
        stats := None;
        return;
      }
      var mid := top.mids.vals[key.b];
      if lastFrom != Some(key.c) {
        lastFrom := Some(key.c);
        mid := Mid(mid.count, Put(mid.leaves, key.c, Num(0)));
      }
      s := AddOne(s, top, mid, key);
      KeyStepAdds(before, last, key, s, top, mid);
      i := i + 1;
    }
    assert keys[..i] == keys;
    stats := Some(s);
  }

  /** The loop body, bucket by bucket, is one as-written key step. */
  lemma KeyStepAdds(s: Stats<Num>, last: Option<Row>, r: Row, s': Stats<Num>, t: Top<Num>, m: Mid<Num>)
    requires r.a in OpenTop(s, r, NewA(last, r)).vals
    requires t == OpenMid(OpenTop(s, r, NewA(last, r)).vals[r.a], r, NewB(last, r)) && r.b in t.mids.vals
    requires m == OpenLeaf(t.mids.vals[r.b], r, NewC(last, r))
    requires s' == AddOne(OpenTop(s, r, NewA(last, r)), t, m, r)
    ensures KeyStep(Acc(s, last), r, false) == Some(Acc(s', Some(r)))
  {
  }

  /** A missing bucket in the loop body is a thrown key step. */
  lemma KeyStepThrows(s: Stats<Num>, last: Option<Row>, r: Row, s1: Stats<Num>, t: Option<Top<Num>>)
    requires s1 == OpenTop(s, r, NewA(last, r))
    requires t.None? ==> r.a !in s1.vals
    requires t.Some? ==> r.a in s1.vals && t.value == OpenMid(s1.vals[r.a], r, NewB(last, r)) && r.b !in t.value.mids.vals
    ensures KeyStep(Acc(s, last), r, false).None?
  {
  }

  /** One more key of the scan. */
  lemma RunSnoc(keys: seq<Row>, i: nat, byPrefix: bool)
    requires i < |keys|
    ensures Run(keys[..i], byPrefix).None? ==> Run(keys[..i + 1], byPrefix).None?
    ensures Run(keys[..i], byPrefix).Some? ==>
      Run(keys[..i + 1], byPrefix) == KeyStep(Run(keys[..i], byPrefix).value, keys[i], byPrefix)
    ensures LastOf(keys[..i + 1]) == Some(keys[i])
  {
    assert keys[..i + 1][..i] == keys[..i];
  }

  /** Once a key has thrown, the scan stays thrown. */
  lemma {:induction false} RunThrown(keys: seq<Row>, i: nat)
    requires i <= |keys| && Run(keys[..i], false).None?
    ensures Run(keys, false).None?
    decreases |keys| - i
  {
    if i < |keys| {
      RunSnoc(keys, i, false);
      RunThrown(keys, i + 1);
    } else {
      assert keys[..i] == keys;
    }
  }

  // ---------------------------------------------------------------------------------------
  // When the scan counts correctly
  // ---------------------------------------------------------------------------------------

  function ToNum(n: int): Num { Num(n) }
  function LiftMid(m: Mid<int>): Mid<Num> { Mid(m.count, MapObj(m.leaves, ToNum)) }
  function LiftTop(t: Top<int>): Top<Num> { Top(t.count, MapObj(t.mids, LiftMid)) }

  /** A tally of integers seen as numbers. */
  function Lift(s: Stats<int>): Stats<Num> { MapObj(s, LiftTop) }

  lemma LiftEmpty()
    ensures LiftTop(Top(0, Empty())) == Top(0, Empty())
    ensures LiftMid(Mid(0, Empty())) == Mid(0, Empty())
  {
    assert MapObj(Empty<Mid<int>>(), LiftMid).vals == map[];
    assert MapObj(Empty<int>(), ToNum).vals == map[];
  }

  /** A leaf opened exactly when it is missing, then incremented, is the hash tally's leaf. */
  lemma LeafStepLifts(mid: Mid<int>, r: Row, openC: bool)
    requires openC <==> r.c !in mid.leaves.vals
    ensures OpenLeaf(LiftMid(mid), r, openC).count == mid.count
    ensures Put(OpenLeaf(LiftMid(mid), r, openC).leaves, r.c, LeafPlusOne(OpenLeaf(LiftMid(mid), r, openC).leaves, r.c))
      == MapObj(BumpLeaves(mid.leaves, r.c), ToNum)
  {
    var lifted := MapObj(mid.leaves, ToNum);
    MapObjPut(mid.leaves, r.c, GetLeaf(mid.leaves, r.c) + 1, ToNum);
    if openC {
      PutPut(lifted, r.c, Num(0), Num(1));
    }
  }

  /** A second-level bucket whose leaf is opened exactly when missing is bumped as the hash tally bumps it. */
  lemma MidBumpLifts(mid: Mid<int>, r: Row, openC: bool, m: Mid<Num>)
    requires openC <==> r.c !in mid.leaves.vals
    requires m == OpenLeaf(LiftMid(mid), r, openC)
    ensures Mid(m.count + 1, Put(m.leaves, r.c, LeafPlusOne(m.leaves, r.c))) == LiftMid(BumpMid(mid, r.c))
  {
    LeafStepLifts(mid, r, openC);
  }

  /** The second level of a first-level bucket, opened exactly when missing, is bumped as the hash tally bumps it. */
  lemma MidsBumpLift(top: Top<int>, r: Row, openB: bool, bumped: Mid<Num>)
    requires openB <==> r.b !in top.mids.vals
    requires bumped == LiftMid(BumpMid(GetMid(top.mids, r.b), r.c))
    ensures Put(OpenMid(LiftTop(top), r, openB).mids, r.b, bumped) == MapObj(BumpMids(top.mids, r), LiftMid)
  {
    MapObjPut(top.mids, r.b, BumpMid(GetMid(top.mids, r.b), r.c), LiftMid);
    if openB {
      PutPut(MapObj(top.mids, LiftMid), r.b, Mid(0, Empty()), bumped);
    }
  }

  /** The increments of a key, once its second level is known. */
  lemma AddOneIs(s: Stats<Num>, t: Top<Num>, m: Mid<Num>, r: Row, mids: Obj<Mid<Num>>)
    requires Put(t.mids, r.b, Mid(m.count + 1, Put(m.leaves, r.c, LeafPlusOne(m.leaves, r.c)))) == mids
    ensures AddOne(s, t, m, r) == Put(s, r.a, Top(t.count + 1, mids))
  {
  }

  /** The second level of a lifted first-level bucket, opened when asked to. */
  lemma OpenMidLifts(top: Top<int>, r: Row, openB: bool)
    requires openB <==> r.b !in top.mids.vals
    ensures OpenMid(LiftTop(top), r, openB).count == top.count
    ensures r.b in OpenMid(LiftTop(top), r, openB).mids.vals
    ensures OpenMid(LiftTop(top), r, openB).mids.vals[r.b] == LiftMid(GetMid(top.mids, r.b))
  {
    LiftEmpty();
  }

  /** Buckets below the first level opened exactly when missing give the hash tally's step. */
  lemma MidStepLifts(s: Stats<Num>, top: Top<int>, r: Row, openB: bool, openC: bool)
    requires openB <==> r.b !in top.mids.vals
    requires openC <==> r.c !in GetMid(top.mids, r.b).leaves.vals
    ensures StepMid(s, OpenMid(LiftTop(top), r, openB), r, openC) == Some(Put(s, r.a, LiftTop(BumpTop(top, r))))
  {
    var mid := GetMid(top.mids, r.b);
    var t := OpenMid(LiftTop(top), r, openB);
    OpenMidLifts(top, r, openB);
    var m := OpenLeaf(LiftMid(mid), r, openC);
    var bumped := Mid(m.count + 1, Put(m.leaves, r.c, LeafPlusOne(m.leaves, r.c)));
    MidBumpLifts(mid, r, openC, m);
    MidsBumpLift(top, r, openB, bumped);
    var mids := MapObj(BumpMids(top.mids, r), LiftMid);
    AddOneIs(s, t, m, r, mids);
    calc {
      StepMid(s, t, r, openC);
      Some(AddOne(s, t, m, r));
      Some(Put(s, r.a, Top(top.count + 1, mids)));
    }
  }

  /** A key whose buckets are opened exactly when missing is the hash tally's step. */
  lemma StepLifts(s: Stats<int>, r: Row, openA: bool, openB: bool, openC: bool)
    requires openA <==> r.a !in s.vals
    requires openB <==> r.b !in GetTop(s, r.a).mids.vals
    requires openC <==> r.c !in GetMid(GetTop(s, r.a).mids, r.b).leaves.vals
    ensures Step(Lift(s), r, openA, openB, openC) == Some(Lift(Bump(s, r)))
  {
    var top := GetTop(s, r.a);
    var s1 := OpenTop(Lift(s), r, openA);
    LiftEmpty();
    assert r.a in s1.vals && s1.vals[r.a] == LiftTop(top);
    MidStepLifts(s1, top, r, openB, openC);
    MapObjPut(s, r.a, BumpTop(top, r), LiftTop);
    if openA {
      PutPut(Lift(s), r.a, Top(0, Empty()), LiftTop(BumpTop(top, r)));
    }
  }

  /** A prefix occurs in a scan exactly when some key lies under it. */
  lemma {:induction false} CountPositive(rows: seq<Row>, p: Prefix)
    ensures Count(rows, p) > 0 <==> exists j :: 0 <= j < |rows| && Under(rows[j], p)
  {
    if rows != [] {
      var init := rows[..|rows| - 1];
      CountPositive(init, p);
      assert forall j :: 0 <= j < |init| ==> init[j] == rows[j];
    }
  }

  /**
   * In a grouped scan, the prefix of the next key has occurred before exactly when the
   * previous key lies under it.
   */
  lemma SeenBefore(rows: seq<Row>, p: Prefix)
    requires Grouped(rows) && rows != [] && Under(rows[|rows| - 1], p)
    ensures Count(rows[..|rows| - 1], p) > 0 <==> (|rows| > 1 && Under(rows[|rows| - 2], p))
  {
    var init := rows[..|rows| - 1];
    CountPositive(init, p);
    if Count(init, p) > 0 {
      var j :| 0 <= j < |init| && Under(init[j], p);
      if j < |rows| - 2 {
        assert Under(rows[j], p) && Under(rows[|rows| - 1], p);
      }
    }
    if |rows| > 1 && Under(rows[|rows| - 2], p) {
      assert Under(init[|rows| - 2], p);
    }
  }

  /** A prefix of a grouped scan is grouped. */
  lemma GroupedPrefix(rows: seq<Row>, n: nat)
    requires Grouped(rows) && n <= |rows|
    ensures Grouped(rows[..n])
  {
    var pre := rows[..n];
    forall p: Prefix, i, j, k | 0 <= i < j < k < |pre| && Under(pre[i], p) && Under(pre[k], p)
      ensures Under(pre[j], p)
    {
      assert pre[i] == rows[i] && pre[j] == rows[j] && pre[k] == rows[k];
    }
  }

  /** In a grouped scan the corrected step opens each bucket exactly when the hash tally creates it. */
  lemma OpensWhenMissing(rows: seq<Row>)
    requires Grouped(rows) && rows != []
    ensures var s := Tally.Tally(rows[..|rows| - 1]);
      var last := LastOf(rows[..|rows| - 1]);
      var r := rows[|rows| - 1];
      && (NewA(last, r) <==> r.a !in s.vals)
      && (OpenB(last, r, true) <==> r.b !in GetTop(s, r.a).mids.vals)
      && (OpenC(last, r, true) <==> r.c !in GetMid(GetTop(s, r.a).mids, r.b).leaves.vals)
  {
    var init := rows[..|rows| - 1];
    var r := rows[|rows| - 1];
    SeenBefore(rows, P1(r.a));
    SeenBefore(rows, P2(r.a, r.b));
    SeenBefore(rows, P3(r.a, r.b, r.c));
    TallyLookup(init, P1(r.a));
    TallyLookup(init, P2(r.a, r.b));
    TallyLookup(init, P3(r.a, r.b, r.c));
    if |rows| > 1 {
      assert init[|init| - 1] == rows[|rows| - 2];
    }
  }

  /** Corrected, the scan of a grouped sequence of keys is the hash tally, and never throws. */
  lemma {:induction false} GroupedCorrectedRun(rows: seq<Row>)
    requires Grouped(rows)
    ensures Run(rows, true) == Some(Acc(Lift(Tally.Tally(rows)), LastOf(rows)))
  {
    if rows == [] {
      assert Lift(Empty()).vals == map[];
    } else {
      var init := rows[..|rows| - 1];
      var r := rows[|rows| - 1];
      GroupedPrefix(rows, |rows| - 1);
      GroupedCorrectedRun(init);
      OpensWhenMissing(rows);
      StepLifts(Tally.Tally(init), r, NewA(LastOf(init), r), OpenB(LastOf(init), r, true), OpenC(LastOf(init), r, true));
    }
  }

  /** Every change of a level comes with a change of every deeper level. */
  predicate CleanPair(x: Row, y: Row) {
    && (x.a != y.a ==> x.b != y.b)
    && (x.a != y.a || x.b != y.b ==> x.c != y.c)
  }

  predicate Clean(rows: seq<Row>) {
    forall i :: 0 < i < |rows| ==> CleanPair(rows[i - 1], rows[i])
  }

  /** On a clean scan, comparing each level alone opens the same buckets as comparing prefixes. */
  lemma {:induction false} CleanRunIsCorrected(rows: seq<Row>)
    requires Clean(rows)
    ensures Run(rows, false) == Run(rows, true)
  {
    if rows != [] {
      var init := rows[..|rows| - 1];
      var r := rows[|rows| - 1];
      assert Clean(init) by {
        forall i | 0 < i < |init| ensures CleanPair(init[i - 1], init[i]) {
          assert init[i - 1] == rows[i - 1] && init[i] == rows[i];
        }
      }
      CleanRunIsCorrected(init);
      if |init| > 0 {
        assert CleanPair(rows[|rows| - 2], r);
        assert init[|init| - 1] == rows[|rows| - 2];
      }
    }
  }

  /**
   * The scan as written counts correctly when the keys come in index order and every change
   * of a level comes with a change of every deeper level: it never throws, and it builds
   * exactly the hash tally, so each count is the number of keys under its path.
   */
  lemma SortedCleanScanCounts(rows: seq<Row>)
    requires Sorted(rows) && Clean(rows)
    ensures Run(rows, false) == Some(Acc(Lift(Tally.Tally(rows)), LastOf(rows)))
  {
    SortedIsGrouped(rows);
    GroupedCorrectedRun(rows);
    CleanRunIsCorrected(rows);
  }

  /** The sorted scan, corrected to open a bucket whenever its prefix changes, builds the hash tally. */
  lemma SortedCorrectedScanCounts(rows: seq<Row>)
    requires Sorted(rows)
    ensures Run(rows, true) == Some(Acc(Lift(Tally.Tally(rows)), LastOf(rows)))
  {
    SortedIsGrouped(rows);
    GroupedCorrectedRun(rows);
  }

  // ---------------------------------------------------------------------------------------
  // Where the scan as written goes wrong
  // ---------------------------------------------------------------------------------------

  /** `stats[a][b][c]`, when every bucket on the way exists. */
  function LeafAt(s: Stats<Num>, a: string, b: string, c: string): Option<Num> {
    if a in s.vals && b in s.vals[a].mids.vals && c in s.vals[a].mids.vals[b].leaves.vals
    then Some(s.vals[a].mids.vals[b].leaves.vals[c])
    else None
  }

  /** Lifting a tally keeps each leaf, as a number. */
  lemma LeafAtLift(s: Stats<int>, a: string, b: string, c: string)
    ensures LeafAt(Lift(s), a, b, c) ==
      match Lookup(s, P3(a, b, c)) case None => None case Some(n) => Some(Num(n))
  {
    if a in s.vals {
      var t := s.vals[a];
      assert Lift(s).vals[a] == LiftTop(t);
      if b in t.mids.vals {
        assert LiftTop(t).mids.vals[b] == LiftMid(t.mids.vals[b]);
      }
    }
  }

  /** A leaf of the lifted hash tally is the number of keys on its path. */
  lemma LeafAtTally(rows: seq<Row>, a: string, b: string, c: string)
    ensures LeafAt(Lift(Tally.Tally(rows)), a, b, c) ==
      if Count(rows, P3(a, b, c)) > 0 then Some(Num(Count(rows, P3(a, b, c)))) else None
  {
    LeafAtLift(Tally.Tally(rows), a, b, c);
    TallyLookup(rows, P3(a, b, c));
  }

  /**
   * Keys shaped like the collate test's: three keys under one recipient, then a second
   * recipient whose domain and sender equal the first key's.
   */
  function CollateKeys(t1: string, t2: string, d1: string, d2: string, f1: string, f2: string): seq<Row> {
    [Row(t1, d1, f1), Row(t1, d1, f2), Row(t1, d2, f1), Row(t2, d1, f1)]
  }

  /** Such keys are in index order when each pair of names is. */
  lemma CollateKeysSorted(t1: string, t2: string, d1: string, d2: string, f1: string, f2: string)
    requires t1 != t2 && d1 != d2 && f1 != f2
    requires StrLe(t1, t2) && StrLe(d1, d2) && StrLe(f1, f2)
    ensures Sorted(CollateKeys(t1, t2, d1, d2, f1, f2))
  {
    StrLeReflexive(t1);
    StrLeReflexive(d1);
  }

  /** Changing recipient but not domain: `stats[to]` is reset and `stats[to][domain]` is never opened. */
  lemma RecipientChangeThrows(acc: Acc, r: Row)
    requires acc.last.Some? && acc.last.value.a != r.a && acc.last.value.b == r.b
    ensures KeyStep(acc, r, false).None?
  {
  }

  /**
   * As written, the scan throws as soon as two consecutive keys have different recipients and
   * the same domain, wherever they occur.
   */
  lemma AsWrittenThrows(rows: seq<Row>, i: nat)
    requires 0 < i < |rows| && rows[i - 1].a != rows[i].a && rows[i - 1].b == rows[i].b
    ensures Run(rows, false).None?
  {
    var pre := rows[..i];
    var run := Run(pre, false);
    if run.Some? {
      assert pre[i - 1] == rows[i - 1];
      RecipientChangeThrows(run.value, rows[i]);
    }
    RunSnoc(rows, i, false);
    RunThrown(rows, i + 1);
  }

  /**
   * Changing domain but not sender, under a new recipient or one whose bucket exists: the
   * domain bucket is reset and the leaf is never opened, so `+= 1` turns the missing leaf
   * into `NaN`.
   */
  lemma SenderKeptLeafIsNaN(acc: Acc, r: Row)
    requires acc.last.Some? && acc.last.value.b != r.b && acc.last.value.c == r.c
    requires acc.last.value.a != r.a || r.a in acc.stats.vals
    ensures KeyStep(acc, r, false).Some?
    ensures LeafAt(KeyStep(acc, r, false).value.stats, r.a, r.b, r.c) == Some(NaN)
  {
    assert Put(Empty<Mid<Num>>(), r.b, Mid(0, Empty())).vals[r.b] == Mid(0, Empty());
  }

  /** The first three of those keys are in index order and clean, so as written they scan without throwing. */
  lemma CollateKeysPrefixScans(t1: string, t2: string, d1: string, d2: string, f1: string, f2: string)
    requires t1 != t2 && d1 != d2 && f1 != f2
    requires StrLe(t1, t2) && StrLe(d1, d2) && StrLe(f1, f2)
    ensures Run(CollateKeys(t1, t2, d1, d2, f1, f2)[..3], false).Some?
    ensures Run(CollateKeys(t1, t2, d1, d2, f1, f2)[..3], false).value.last == Some(Row(t1, d2, f1))
  {
    var keys := CollateKeys(t1, t2, d1, d2, f1, f2);
    CollateKeysSorted(t1, t2, d1, d2, f1, f2);
    var pre := keys[..3];
    assert pre == [Row(t1, d1, f1), Row(t1, d1, f2), Row(t1, d2, f1)];
    assert Sorted(pre) by {
      forall i, j | 0 <= i < j < |pre| ensures RowLe(pre[i], pre[j]) {
        assert pre[i] == keys[i] && pre[j] == keys[j];
      }
    }
    SortedCleanScanCounts(pre);
  }

  /**
   * The collate test's keys (`to1 < to2`, `domain1 < domain2`, `from1 < from2`) are in index
   * order, yet scanned as written the last key's leaf holds `NaN`.
   */
  lemma CollateTestLeafIsNaN(t1: string, t2: string, d1: string, d2: string, f1: string, f2: string)
    requires t1 != t2 && d1 != d2 && f1 != f2
    requires StrLe(t1, t2) && StrLe(d1, d2) && StrLe(f1, f2)
    ensures Sorted(CollateKeys(t1, t2, d1, d2, f1, f2))
    ensures Run(CollateKeys(t1, t2, d1, d2, f1, f2), false).Some?
    ensures LeafAt(Run(CollateKeys(t1, t2, d1, d2, f1, f2), false).value.stats, t2, d1, f1) == Some(NaN)
  {
    var keys := CollateKeys(t1, t2, d1, d2, f1, f2);
    CollateKeysPrefixScans(t1, t2, d1, d2, f1, f2);
    var acc := Run(keys[..3], false).value;
    SenderKeptLeafIsNaN(acc, keys[3]);
    assert Run(keys, false) == KeyStep(acc, keys[3], false);
    CollateKeysSorted(t1, t2, d1, d2, f1, f2);
  }

  /** One of those keys lies on the last key's path: the last key itself. */
  lemma CollateKeysCount(t1: string, t2: string, d1: string, d2: string, f1: string, f2: string)
    requires t1 != t2
    ensures Count(CollateKeys(t1, t2, d1, d2, f1, f2), P3(t2, d1, f1)) == 1
  {
    var keys := CollateKeys(t1, t2, d1, d2, f1, f2);
    var pre := keys[..3];
    assert pre == [Row(t1, d1, f1), Row(t1, d1, f2), Row(t1, d2, f1)];
    CountPositive(pre, P3(t2, d1, f1));
  }

  /** Corrected, the same leaf holds 1: the one key on its path. */
  lemma CollateTestLeafCorrected(t1: string, t2: string, d1: string, d2: string, f1: string, f2: string)
    requires t1 != t2 && d1 != d2 && f1 != f2
    requires StrLe(t1, t2) && StrLe(d1, d2) && StrLe(f1, f2)
    ensures Run(CollateKeys(t1, t2, d1, d2, f1, f2), true).Some?
    ensures LeafAt(Run(CollateKeys(t1, t2, d1, d2, f1, f2), true).value.stats, t2, d1, f1) == Some(Num(1))
  {
    var keys := CollateKeys(t1, t2, d1, d2, f1, f2);
    CollateKeysSorted(t1, t2, d1, d2, f1, f2);
    CollateKeysCount(t1, t2, d1, d2, f1, f2);
    SortedCorrectedScanCounts(keys);
    LeafAtTally(keys, t2, d1, f1);
  }

  /**
   * Two keys in index order, `(a, x, u)` then `(b, x, v)`: two recipients with a sender from the
   * same domain. As written the scan throws on the second key; corrected, it counts both.
   */
  lemma SharedDomainThrows(a: string, b: string, x: string, u: string, v: string)
    requires a != b && StrLe(a, b)
    ensures Sorted([Row(a, x, u), Row(b, x, v)])
    ensures Run([Row(a, x, u), Row(b, x, v)], false).None?
    ensures Run([Row(a, x, u), Row(b, x, v)], true) == Some(Acc(Lift(Tally.Tally([Row(a, x, u), Row(b, x, v)])), Some(Row(b, x, v))))
  {
    var keys := [Row(a, x, u), Row(b, x, v)];
    assert Sorted(keys);
    AsWrittenThrows(keys, 1);
    SortedCorrectedScanCounts(keys);
  }

  /** Changing recipient resets `stats[to]`: after the key, its count is 1 whatever it was. */
  lemma RecipientChangeResets(acc: Acc, r: Row)
    requires acc.last.Some? && acc.last.value.a != r.a
    ensures KeyStep(acc, r, false).Some? ==>
      r.a in KeyStep(acc, r, false).value.stats.vals && KeyStep(acc, r, false).value.stats.vals[r.a].count == 1
    ensures acc.last.value.b != r.b && acc.last.value.c != r.c ==> KeyStep(acc, r, false).Some?
  {
  }

  /** Two of the keys `(a, x, u), (b, y, v), (a, z, w)` lie under `a`. */
  lemma ReappearanceCount(a: string, b: string, x: string, y: string, z: string, u: string, v: string, w: string)
    requires a != b
    ensures Count([Row(a, x, u), Row(b, y, v), Row(a, z, w)], P1(a)) == 2
  {
    var keys := [Row(a, x, u), Row(b, y, v), Row(a, z, w)];
    CountAppend([Row(a, x, u), Row(b, y, v)], [Row(a, z, w)], P1(a));
    CountAppend([Row(a, x, u)], [Row(b, y, v)], P1(a));
    assert [Row(a, x, u), Row(b, y, v)] + [Row(a, z, w)] == keys;
    assert [Row(a, x, u)] + [Row(b, y, v)] == [Row(a, x, u), Row(b, y, v)];
  }

  /**
   * A recipient that comes back after another one, `(a, x, u), (b, y, v), (a, z, w)`: the scan
   * as written does not throw, yet `stats.a._count` is 1 although two keys lie under `a`.
   */
  lemma ReappearanceResets(a: string, b: string, x: string, y: string, z: string, u: string, v: string, w: string)
    requires a != b && x != y && y != z && u != v && v != w && StrLe(a, b)
    ensures Count([Row(a, x, u), Row(b, y, v), Row(a, z, w)], P1(a)) == 2
    ensures Run([Row(a, x, u), Row(b, y, v), Row(a, z, w)], false).Some?
    ensures a in Run([Row(a, x, u), Row(b, y, v), Row(a, z, w)], false).value.stats.vals
    ensures Run([Row(a, x, u), Row(b, y, v), Row(a, z, w)], false).value.stats.vals[a].count == 1
  {
    var keys := [Row(a, x, u), Row(b, y, v), Row(a, z, w)];
    var pre := keys[..2];
    assert pre == [Row(a, x, u), Row(b, y, v)];
    assert Sorted(pre) && Clean(pre);
    SortedCleanScanCounts(pre);
    var acc := Run(pre, false).value;
    RecipientChangeResets(acc, keys[2]);
    assert Run(keys, false) == KeyStep(acc, keys[2], false);
    ReappearanceCount(a, b, x, y, z, u, v, w);
  }

  /**
   * `generateStats` on a scan that counts correctly: the statistics are the hash tally, and
   * `toSortedMap` turns them into the same nested tree as the store's conversion, a leaf's
   * nested map being empty. Every level then lists each key occurring under its parent once,
   * with the number of scanned keys under it, siblings by non-increasing count.
   */
  lemma CountedScanTree(rows: seq<Row>)
    requires Sorted(rows) && Clean(rows)
    ensures Run(rows, false) == Some(Acc(Lift(Tally.Tally(rows)), LastOf(rows)))
    ensures TopLevel(ToSortedMap(Tally.Tally(rows), NoNested), rows, NoNested)
  {
    SortedCleanScanCounts(rows);
    SortedTally(rows, NoNested);
  }
}
