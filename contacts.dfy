/**
 * The most frequent senders: every message's `from` is counted in a plain object
 * (`counts[from] = (counts[from] || 0) + 1`), the object's `[from, count]` entries are sorted
 * by descending count, and the first five are kept.
 */
module Contacts {
  import opened JsObject
  import opened CountOrder
  import opened Tally
  import opened SortedTree

  /** The `from` of each email, in order. */
  function Froms(emails: seq<Row>): (r: seq<string>)
    ensures |r| == |emails| && forall i :: 0 <= i < |r| ==> r[i] == emails[i].b
  {
    seq(|emails|, i requires 0 <= i < |emails| => emails[i].b)
  }

  /** `counts[f] = (counts[f] || 0) + 1`: a sender seen for the first time starts at one. */
  function Tick(counts: Obj<int>, f: string): Obj<int> {
    Put(counts, f, (if f in counts.vals then counts.vals[f] else 0) + 1)
  }

  /** The counting object after visiting the senders in order. */
  function SenderCounts(froms: seq<string>): (r: Obj<int>)
    ensures Valid(r)
    ensures |r.keys| <= |froms|
  {
    if froms == [] then Empty() else Tick(SenderCounts(froms[..|froms| - 1]), froms[|froms| - 1])
  }

  /**
   * The counting object lists every sender once, in order of first appearance, and holds
   * the number of messages from each.
   */
  lemma {:induction false} SenderCountsSpec(froms: seq<string>)
    ensures Valid(SenderCounts(froms))
    ensures SenderCounts(froms).keys == Distinct(froms)
    ensures forall f :: f in SenderCounts(froms).vals <==> f in froms
    ensures forall f :: f in SenderCounts(froms).vals ==> SenderCounts(froms).vals[f] == Occurrences(froms, f)
  {
    if froms != [] {
      var init := froms[..|froms| - 1];
      var x := froms[|froms| - 1];
      SenderCountsSpec(init);
      assert forall f :: f in froms <==> f in init || f == x;
      assert forall f :: f !in init ==> Occurrences(init, f) == 0 by {
        forall f | f !in init ensures Occurrences(init, f) == 0 {
          NotOccurring(init, f);
        }
      }
    }
  }

  lemma {:induction false} NotOccurring(xs: seq<string>, x: string)
    requires x !in xs
    ensures Occurrences(xs, x) == 0
  {
    if xs != [] {
      assert x !in xs[..|xs| - 1];
      NotOccurring(xs[..|xs| - 1], x);
    }
  }

  /** The counting loop (`forEach`, or the table's `each`) builds the counting object. */
  method CountSenders(froms: seq<string>) returns (counts: Obj<int>)
    ensures counts == SenderCounts(froms)
  {
    counts := Empty();
    var i := 0;
    while i < |froms|
      invariant 0 <= i <= |froms|
      invariant counts == SenderCounts(froms[..i])
    {
      assert froms[..i + 1][..i] == froms[..i];
      var f := froms[i];
      counts := Put(counts, f, (if f in counts.vals then counts.vals[f] else 0) + 1);
      i := i + 1;
    }
    assert froms[..i] == froms;
  }

  /** `[from, count]` per entry. */
  function Pairs(items: seq<Item<()>>): (r: seq<(string, int)>)
    ensures |r| == |items|
    ensures forall i :: 0 <= i < |r| ==> r[i] == (items[i].key, items[i].count)
  {
    seq(|items|, i requires 0 <= i < |items| => (items[i].key, items[i].count))
  }

  /** `.slice(0, 5)` */
  function FirstFive<V>(items: seq<V>): (r: seq<V>)
    ensures r == items[..if |items| < 5 then |items| else 5]
  {
    if |items| < 5 then items else items[..5]
  }

  /** The first five entries of a counting object sorted by descending count. */
  function Ranking(counts: Obj<int>): (r: seq<(string, int)>)
    ensures |r| <= 5
  {
    Pairs(FirstFive(SortedLeaves(counts, NoNested)))
  }

  /** `Object.entries(counts)` sorted by descending count, first five. */
  function MostFrequent(froms: seq<string>): (r: seq<(string, int)>)
    ensures |r| <= 5
  {
    Ranking(SenderCounts(froms))
  }

  /** The first five of a ranking are its best five, in order. */
  lemma FirstFivePairs(s: seq<Item<()>>)
    requires SortedDesc(s) && DistinctKeys(s)
    ensures |Pairs(FirstFive(s))| <= 5
    ensures forall i :: 0 <= i < |Pairs(FirstFive(s))| ==> Pairs(FirstFive(s))[i] == (s[i].key, s[i].count)
    ensures forall i, j :: 0 <= i < j < |Pairs(FirstFive(s))| ==>
      Pairs(FirstFive(s))[i].0 != Pairs(FirstFive(s))[j].0 && Pairs(FirstFive(s))[i].1 >= Pairs(FirstFive(s))[j].1
    ensures forall j :: |Pairs(FirstFive(s))| <= j < |s| ==> |Pairs(FirstFive(s))| == 5 && s[j].count <= Pairs(FirstFive(s))[4].1
  {
  }

  /** The sorted entries of a counting object: each key once, with its own value, by descending value. */
  lemma SortedCounts(counts: Obj<int>)
    requires Valid(counts)
    ensures SortedDesc(SortedLeaves(counts, NoNested)) && DistinctKeys(SortedLeaves(counts, NoNested))
    ensures forall k :: HasKey(SortedLeaves(counts, NoNested), k) <==> k in counts.vals
    ensures forall i :: 0 <= i < |SortedLeaves(counts, NoNested)| ==>
      SortedLeaves(counts, NoNested)[i].key in counts.vals
      && SortedLeaves(counts, NoNested)[i].count == counts.vals[SortedLeaves(counts, NoNested)[i].key]
    ensures counts.keys == [] ==> SortedLeaves(counts, NoNested) == []
  {
    SortedLevelContents(counts, LeafCount, NoNested);
  }

  /**
   * At most five keys of the object, each once with its value, by non-increasing value; a key
   * left out has a value no larger than the fifth one listed.
   */
  lemma RankingSpec(counts: Obj<int>)
    requires Valid(counts)
    ensures |Ranking(counts)| <= 5
    ensures forall i :: 0 <= i < |Ranking(counts)| ==>
      Ranking(counts)[i].0 in counts.vals && Ranking(counts)[i].1 == counts.vals[Ranking(counts)[i].0]
    ensures forall i, j :: 0 <= i < j < |Ranking(counts)| ==>
      Ranking(counts)[i].0 != Ranking(counts)[j].0 && Ranking(counts)[i].1 >= Ranking(counts)[j].1
    ensures forall k :: k in counts.vals && (forall i :: 0 <= i < |Ranking(counts)| ==> Ranking(counts)[i].0 != k) ==>
      |Ranking(counts)| == 5 && counts.vals[k] <= Ranking(counts)[4].1
    ensures counts.keys == [] ==> Ranking(counts) == []
  {
    SortedCounts(counts);
    FirstFivePairs(SortedLeaves(counts, NoNested));
    RankingLeftOut(counts);
  }

  /** A key the ranking leaves out has a value no larger than the fifth one listed. */
  lemma RankingLeftOut(counts: Obj<int>)
    requires Valid(counts)
    ensures forall k :: k in counts.vals && (forall i :: 0 <= i < |Ranking(counts)| ==> Ranking(counts)[i].0 != k) ==>
      |Ranking(counts)| == 5 && counts.vals[k] <= Ranking(counts)[4].1
  {
    var s := SortedLeaves(counts, NoNested);
    var r := Ranking(counts);
    SortedCounts(counts);
    FirstFivePairs(s);
    forall k | k in counts.vals && (forall i :: 0 <= i < |r| ==> r[i].0 != k)
      ensures |r| == 5 && counts.vals[k] <= r[4].1
    {
      assert HasKey(s, k);
      var j :| 0 <= j < |s| && s[j].key == k;
      assert j >= |r|;
    }
  }

  /**
   * At most five senders, each listed once with its exact number of messages, by
   * non-increasing count; a sender left out has no more messages than the fifth one listed,
   * so fewer than five are listed only when every sender is.
   */
  lemma MostFrequentSpec(froms: seq<string>)
    ensures |MostFrequent(froms)| <= 5
    ensures forall i :: 0 <= i < |MostFrequent(froms)| ==>
      MostFrequent(froms)[i].0 in froms && MostFrequent(froms)[i].1 == Occurrences(froms, MostFrequent(froms)[i].0)
    ensures forall i, j :: 0 <= i < j < |MostFrequent(froms)| ==>
      MostFrequent(froms)[i].0 != MostFrequent(froms)[j].0 && MostFrequent(froms)[i].1 >= MostFrequent(froms)[j].1
    ensures forall f :: f in froms && (forall i :: 0 <= i < |MostFrequent(froms)| ==> MostFrequent(froms)[i].0 != f) ==>
      |MostFrequent(froms)| == 5 && Occurrences(froms, f) <= MostFrequent(froms)[4].1
    ensures froms == [] ==> MostFrequent(froms) == []
  {
    var counts := SenderCounts(froms);
    SenderCountsSpec(froms);
    RankingOfCounts(froms, counts, MostFrequent(froms));
  }

  /** The ranking of a counting object that holds each sender's number of messages. */
  lemma RankingOfCounts(froms: seq<string>, counts: Obj<int>, r: seq<(string, int)>)
    requires Valid(counts) && r == Ranking(counts)
    requires froms == [] ==> counts.keys == []
    requires forall f :: f in counts.vals <==> f in froms
    requires forall f :: f in counts.vals ==> counts.vals[f] == Occurrences(froms, f)
    ensures forall i :: 0 <= i < |r| ==> r[i].0 in froms && r[i].1 == Occurrences(froms, r[i].0)
    ensures forall i, j :: 0 <= i < j < |r| ==> r[i].0 != r[j].0 && r[i].1 >= r[j].1
    ensures forall f :: f in froms && (forall i :: 0 <= i < |r| ==> r[i].0 != f) ==>
      |r| == 5 && Occurrences(froms, f) <= r[4].1
    ensures froms == [] ==> r == []
  {
    RankingSpec(counts);
  }
}
