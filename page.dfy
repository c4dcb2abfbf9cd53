/**
 * The Next.js dashboard page (`src/app/page.tsx`): its most frequent contacts and its
 * "Emails Analyzed" count, over the array of fetched emails.
 */
module Page {
  import opened CountOrder
  import opened Tally
  import opened SortedTree
  import opened Contacts

  /** `getMostFrequentContacts`: no contacts for an empty list, otherwise the five most frequent senders. */
  method GetMostFrequentContacts(emailList: seq<Row>) returns (top: seq<(string, int)>)
    ensures top == MostFrequent(Froms(emailList))
    ensures emailList == [] ==> top == []
  {
    if emailList == [] {
      top := [];
      MostFrequentSpec([]);
    } else {
      var counts := CountSenders(Froms(emailList));
      top := Ranking(counts);
    }
  }

  /**
   * `totalEmailsCount = emails.length`: the count shown equals the sum of the domain counts
   * in the tree the page shows for the same emails.
   */
  function TotalEmailsCount(emails: seq<Row>): (n: nat)
    ensures n == SumCounts(ToSortedMap(Tally.Tally(emails), NoNested))
  {
    SortedTallyTotal(emails, NoNested);
    |emails|
  }
}
