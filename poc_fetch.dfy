/**
 * One call of the proof of concept's `fetchMessages` (`src/gmail/fetchMessages.js`): list a
 * page, fetch the details of its messages, `bulkPut` the valid ones into the `messages`
 * table, and schedule the next call. Rate limiting is retried without a cap and without
 * jitter, and the next call is always scheduled after storing.
 */
module PocFetch {
  import opened Wrappers
  import opened HeaderFields
  import opened PageFetch
  import opened MessageTable
  import PocMessage

  /** `m && m.to && m.domain && m.from`; a constructor that threw left `undefined`, which is dropped. */
  predicate Keep(m: PocMessage.Message) {
    m.to != "" && m.domain != "" && m.from != ""
  }

  /** The messages of a page written to the table. */
  function Batch(results: seq<Option<Resource>>): seq<PocMessage.Message> {
    Kept(results, PocMessage.MessageOf, Keep)
  }

  /**
   * `fetchMessages(pageToken, retryCount)`. `list` and `details` are what the Gmail client
   * answers and `storeFails` whether `bulkPut` rejects; `next` is the call scheduled with
   * `setTimeout`, and `thrown` whether the call's promise rejects (a rejected detail request,
   * or the storage error rethrown).
   */
  method FetchMessages(table: Table<PocMessage.Message>, pageToken: Option<string>, retryCount: nat,
                       list: ListOutcome, details: Details, storeFails: bool)
    returns (next: Option<Call>, thrown: bool)
    modifies table
    // Rate limited: the same page again, one more retry, after exactly 2^retryCount seconds, however many retries came before.
    ensures list.ListError? && list.status == 429 ==>
      next == Some(Call(pageToken, retryCount + 1, Pow2(retryCount) * 1000, 0)) && !thrown && table.rows == old(table.rows)
    // Any other listing error, or a page without messages: the run stops and nothing is stored.
    ensures (list.ListError? && list.status != 429) || (list.Page? && !HasMessages(list)) ==>
      next.None? && !thrown && table.rows == old(table.rows)
    // A rejected detail request or a failed write rejects the call, and nothing follows.
    ensures HasMessages(list) && (details.Rejected? || storeFails) ==>
      next.None? && thrown && table.rows == old(table.rows)
    // Otherwise the kept messages, even none, are written by id, and the next page follows after 30 seconds from retry 0,
    // with the page's token even when there is none.
    ensures HasMessages(list) && details.Resolved? && !storeFails ==>
      && table.rows == Upsert(old(table.rows), Batch(details.results), table.id)
      && next == Some(Call(list.nextPageToken, 0, 30000, 0))
      && !thrown
  {
    next := None;
    thrown := false;
    if list.ListError? {
      if list.status == 429 {
        next := Some(Call(pageToken, retryCount + 1, Pow2(retryCount) * 1000, 0));
      }
      return;
    }
    if list.messages.None? || |list.messages.value| == 0 {
      return;
    }
    if details.Rejected? {
      thrown := true;
      return;
    }
    var messages := Batch(details.results);
    if storeFails {
      thrown := true;
      return;
    }
    table.BulkPut(messages);
    next := Some(Call(list.nextPageToken, 0, 30000, 0));
  }

  /**
   * A message is written exactly when a detail result was present, the `Message` constructor
   * did not throw on it, and its recipient, domain and sender are all non-empty.
   */
  lemma BatchMembers(results: seq<Option<Resource>>, m: PocMessage.Message)
    ensures m in Batch(results) <==>
      exists i :: 0 <= i < |results| && results[i].Some? && PocMessage.MessageOf(results[i].value) == Some(m)
        && m.to != "" && m.domain != "" && m.from != ""
  {
    KeptMembers(results, PocMessage.MessageOf, Keep, m);
  }
}
