/**
 * The dashboard component (`src/EmailAnalyzer.js`). In mock mode its `emails` state is an
 * array of emails; in database mode it is the statistics map read back from the database.
 * Whether mock mode is on is read from session storage; it is a parameter here.
 */
module EmailAnalyzer {
  import opened Wrappers
  import opened CountOrder
  import opened Tally
  import opened SortedTree
  import opened TreeView
  import opened Contacts

  /** The `emails` state: `null`, an array of `(domain, from, subject)` emails, or the stored statistics. */
  datatype Emails = Null | List(rows: seq<Row>) | Stored(data: seq<Item<seq<Item<seq<Item<int>>>>>>)

  /** What the tree view shows: nothing for `null`, an empty array or an empty stored map. */
  function ShownTree(emails: Emails): Option<View> {
    match emails
    case Null => None
    case List(rows) => if rows == [] then None else Some(ToSortedMap(Tally.Tally(rows), NoNested))
    case Stored(data) => if data == [] then None else Some(StoredView(data))
  }

  /**
   * The tree view inside the dashboard: an array is tallied by `reduce` and sorted level by
   * level; a stored map is read through `getSortedEntries()`.
   */
  method AnalyzerTree(emails: Emails) returns (view: Option<View>)
    ensures view == ShownTree(emails)
    ensures emails.List? && view.Some? ==> TopLevel(view.value, emails.rows, NoNested)
  {
    match emails
    case Null =>
      view := None;
    case List(rows) =>
      if rows == [] {
        view := None;
      } else {
        var treeData := Scan(rows);
        SortedTally(rows, NoNested);
        view := Some(ToSortedMap(treeData, NoNested));
      }
    case Stored(data) =>
      view := if data == [] then None else Some(StoredView(data));
  }

  /**
   * The two modes show the same tree: the statistics the database builds from a scan of
   * emails are shown exactly as the array of those emails is, and both show nothing for no
   * emails.
   */
  lemma ModesShowSameTree(rows: seq<Row>)
    ensures ShownTree(Stored(ToSortedMap(Tally.Tally(rows), LeafCount))) == ShownTree(List(rows))
  {
    StoredViewOf(Tally.Tally(rows));
    SortedTallyTotal(rows, LeafCount);
  }

  /**
   * `getMostFrequentContactsLocal`: anything but a non-empty array gives no contacts;
   * otherwise the five most frequent senders of the array.
   */
  method MostFrequentContactsLocal(emails: Emails) returns (top: seq<(string, int)>)
    ensures top == if emails.List? then MostFrequent(Froms(emails.rows)) else []
    ensures |top| <= 5
  {
    if !emails.List? || emails.rows == [] {
      top := [];
      MostFrequentSpec([]);
    } else {
      var counts := CountSenders(Froms(emails.rows));
      top := Ranking(counts);
      MostFrequentSpec(Froms(emails.rows));
    }
  }

  /**
   * The "Emails Analyzed" count: `0` while loading, after an error or without emails; in
   * mock mode the array's length (`undefined`, `None` here, if the state is not an array);
   * in database mode the sum of the domains' counts (`0` if the state is not a stored map).
   */
  method TotalEmailsCount(loading: bool, error: bool, mockMode: bool, emails: Emails) returns (total: Option<int>)
    ensures loading || error || emails.Null? ==> total == Some(0)
    ensures !loading && !error && mockMode && emails.List? ==> total == Some(|emails.rows|)
    ensures !loading && !error && mockMode && emails.Stored? ==> total == None
    ensures !loading && !error && !mockMode && emails.Stored? ==> total == Some(SumCounts(emails.data))
    ensures !loading && !error && !mockMode && emails.List? ==> total == Some(0)
  {
    total := Some(0);
    if !loading && !error && !emails.Null? {
      if mockMode {
        total := if emails.List? then Some(|emails.rows|) else None;
      } else if emails.Stored? {
        var data := emails.data;
        var sum := 0;
        var i := 0;
        while i < |data|
          invariant 0 <= i <= |data|
          invariant sum == SumCounts(data[..i])
        {
          assert data[..i + 1][..i] == data[..i];
          sum := sum + data[i].count;
          i := i + 1;
        }
        assert data[..i] == data;
        total := Some(sum);
      }
    }
  }

  /** In database mode the count is the number of emails the statistics were built from, as in mock mode. */
  lemma StoredTotalCountsEveryEmail(rows: seq<Row>)
    ensures SumCounts(ToSortedMap(Tally.Tally(rows), LeafCount)) == |rows|
  {
    SortedTallyTotal(rows, LeafCount);
  }
}
