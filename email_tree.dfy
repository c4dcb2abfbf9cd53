/**
 * The domain → sender → subject tree view. Emails held as a list are grouped with `reduce`
 * (each bucket created on first sight, every level counted) and each level's
 * `Object.entries` is sorted by descending count; statistics read back from the database
 * are shown through `getSortedEntries()`, name and count at every level.
 */
module TreeView {
  import opened Wrappers
  import opened JsObject
  import opened CountOrder
  import opened Tally
  import opened SortedTree

  /** What the view shows: domains, their senders and their subjects, each with its count, in display order. */
  type View = seq<Item<seq<Item<seq<Item<()>>>>>>

  /** A stored subjects' map as shown: name and count (the count stored as its value is not read). */
  function SubjectsShown(items: seq<Item<int>>): seq<Item<()>> {
    MapValues(items, NoNested)
  }

  /** A stored senders' map as shown: name, count and the subjects shown. */
  function SendersShown(items: seq<Item<seq<Item<int>>>>): seq<Item<seq<Item<()>>>> {
    MapValues(items, SubjectsShown)
  }

  /** The stored domains' map as shown: name, count and the senders shown. */
  function StoredView(items: seq<Item<seq<Item<seq<Item<int>>>>>>): View {
    MapValues(items, SendersShown)
  }

  lemma SubjectsShownOf(o: Obj<int>)
    ensures SubjectsShown(SortedLeaves(o, LeafCount)) == SortedLeaves(o, NoNested)
  {
    var e := Entries(o, o.keys, LeafCount, LeafCount);
    SortDescMapValues(e, NoNested);
    EntriesMapValues(o, o.keys, LeafCount, LeafCount, NoNested, NoNested);
  }

  lemma SendersShownOf(o: Obj<Mid<int>>)
    ensures SendersShown(SortedMids(o, LeafCount)) == SortedMids(o, NoNested)
  {
    var e := Entries(o, o.keys, MidCount, MidNest(LeafCount));
    SortDescMapValues(e, SubjectsShown);
    forall m: Mid<int> ensures MidNest(NoNested)(m) == SubjectsShown(MidNest(LeafCount)(m)) {
      MidNestOf(NoNested, m);
      MidNestOf(LeafCount, m);
      SubjectsShownOf(m.leaves);
    }
    EntriesMapValues(o, o.keys, MidCount, MidNest(LeafCount), MidNest(NoNested), SubjectsShown);
  }

  /**
   * Showing the sorted map built for the database (a subject entry carrying its count) gives
   * exactly the sorted map built from the same tally for display: the order is decided by the
   * counts alone.
   */
  lemma StoredViewOf(s: Stats<int>)
    ensures StoredView(ToSortedMap(s, LeafCount)) == ToSortedMap(s, NoNested)
  {
    var e := Entries(s, s.keys, TopCount, TopNest(LeafCount));
    SortDescMapValues(e, SendersShown);
    forall t: Top<int> ensures TopNest(NoNested)(t) == SendersShown(TopNest(LeafCount)(t)) {
      TopNestOf(NoNested, t);
      TopNestOf(LeafCount, t);
      SendersShownOf(t.mids);
    }
    EntriesMapValues(s, s.keys, TopCount, TopNest(LeafCount), TopNest(NoNested), SendersShown);
  }

  /**
   * `EmailTreeVisualization` (the TypeScript component): nothing to show for a missing or
   * empty list; otherwise the `(domain, from, subject)` of each email is tallied and every
   * level sorted by descending count, so each domain, sender and subject is shown once with
   * its number of emails, siblings by non-increasing count.
   */
  method VisualizationTree(emails: Option<seq<Row>>) returns (view: Option<View>)
    ensures emails.None? || emails.value == [] ==> view == None
    ensures emails.Some? && emails.value != [] ==> view == Some(ToSortedMap(Tally.Tally(emails.value), NoNested))
    ensures view.Some? ==> emails.Some? && TopLevel(view.value, emails.value, NoNested)
  {
    if emails.None? || emails.value == [] {
      view := None;
    } else {
      var treeData := Scan(emails.value);
      SortedTally(emails.value, NoNested);
      view := Some(ToSortedMap(treeData, NoNested));
    }
  }
}
