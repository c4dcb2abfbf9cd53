/**
 * One call of the service's `fetchMessages` (`src/services/gmailService.js`): list a page,
 * fetch the details of its messages, hand the valid ones to the caller's callback, and
 * schedule what comes next. The Gmail client, the callback and the timer are parameters;
 * status texts are not modelled.
 */
module ServiceFetch {
  import opened Wrappers
  import opened HeaderFields
  import opened PageFetch
  import ServiceMessage

  /** The most retries of one page after rate limiting. */
  const MaxRetries: nat := 5

  /** `m && m.to && m.domain && m.from`. */
  predicate Keep(m: ServiceMessage.Message) {
    m.to != "" && Truthy(m.domain) && m.from != ""
  }

  /** The messages of a page handed to the callback: constructed without throwing and kept by the filter. */
  function Batch(results: seq<Option<Resource>>): seq<ServiceMessage.Message> {
    Kept(results, ServiceMessage.MessageOf, Keep)
  }

  /**
   * `fetchMessages(callback, status, pageToken, retryCount)`. `ready` says whether the Gmail
   * client is initialised, `list` and `details` are what the client answers, and
   * `callbackFails` whether the callback rejects. `processed` is the batch given to the
   * callback, and `next` the call scheduled with `setTimeout`.
   */
  method FetchMessages(ready: bool, pageToken: Option<string>, retryCount: nat, list: ListOutcome, details: Details,
                       callbackFails: bool)
    returns (processed: Option<seq<ServiceMessage.Message>>, next: Option<Call>)
    // A client that is not ready, a failed listing, or an empty page: nothing is processed.
    ensures !ready || list.ListError? || !HasMessages(list) || details.Rejected? ==> processed.None?
    // Rate limited below the cap: the same page again, one more retry, after 2^retryCount seconds plus up to one second.
    ensures ready && list.ListError? && list.status == 429 && retryCount < MaxRetries ==>
      next == Some(Call(pageToken, retryCount + 1, Pow2(retryCount) * 1000, 1000))
    // Any other failure, an empty page, or a rejected detail request: nothing is scheduled.
    ensures !ready || (list.ListError? && (list.status != 429 || retryCount >= MaxRetries)) ==> next.None?
    ensures ready && list.Page? && (!HasMessages(list) || details.Rejected?) ==> next.None?
    // A page with details: the kept messages go to the callback when there are any.
    ensures ready && HasMessages(list) && details.Resolved? ==>
      processed == (if Batch(details.results) == [] then None else Some(Batch(details.results)))
    // The next page follows after 30 seconds, from retry 0, when there is a next token and the callback did not fail.
    ensures ready && HasMessages(list) && details.Resolved? ==>
      next == (if processed.Some? && callbackFails then None
               else if Truthy(list.nextPageToken) then Some(Call(list.nextPageToken, 0, 30000, 0))
               else None)
    // The retry count never exceeds the cap.
    ensures next.Some? ==> next.value.retryCount <= MaxRetries
    ensures processed.Some? ==> processed.value != [] && forall m :: m in processed.value ==> Keep(m)
  {
    processed := None;
    next := None;
    if !ready {
      return;
    }
    if list.ListError? {
      if list.status == 429 && retryCount < MaxRetries {
        next := Some(Call(pageToken, retryCount + 1, Pow2(retryCount) * 1000, 1000));
      }
      return;
    }
    if list.messages.None? || |list.messages.value| == 0 {
      return;
    }
    if details.Rejected? {
      return;
    }
    var parsedMessages := Batch(details.results);
    if |parsedMessages| > 0 {
      processed := Some(parsedMessages);
      if callbackFails {
        return;
      }
    }
    if Truthy(list.nextPageToken) {
      next := Some(Call(list.nextPageToken, 0, 30000, 0));
    }
  }

  /**
   * A message reaches the callback exactly when a detail result was present, the `Message`
   * constructor did not throw on it, and its recipient, domain and sender are all non-empty.
   */
  lemma BatchMembers(results: seq<Option<Resource>>, m: ServiceMessage.Message)
    ensures m in Batch(results) <==>
      exists i :: 0 <= i < |results| && results[i].Some? && ServiceMessage.MessageOf(results[i].value) == Some(m)
        && m.to != "" && m.domain.Some? && m.domain.value != "" && m.from != ""
  {
    KeptMembers(results, ServiceMessage.MessageOf, Keep, m);
  }
}
