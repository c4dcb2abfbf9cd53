/**
 * What one call of a `fetchMessages` page step sees and decides: the outcome of
 * `users.messages.list`, the detail resources fetched for its message references, and the
 * call it schedules next.
 */
module PageFetch {
  import opened Wrappers
  import opened HeaderFields

  /**
   * `users.messages.list`: a rejection with its HTTP status, or a page with its message
   * references (possibly missing) and its `nextPageToken` (possibly missing).
   */
  datatype ListOutcome = ListError(status: int) | Page(messages: Option<seq<string>>, nextPageToken: Option<string>)

  /**
   * The `Promise.all` over one `users.messages.get` per reference: rejected as soon as one
   * request fails, else every `result` in reference order (None for a missing one).
   */
  datatype Details = Rejected | Resolved(results: seq<Option<Resource>>)

  /**
   * A call scheduled with `setTimeout`: its page token and retry count, after `delayMs`
   * milliseconds plus a random part below `jitterMs` (no random part when it is 0).
   */
  datatype Call = Call(pageToken: Option<string>, retryCount: nat, delayMs: nat, jitterMs: nat)

  /** `Math.pow(2, n)`. */
  function Pow2(n: nat): (r: nat)
    ensures r >= 1
  {
    if n == 0 then 1 else 2 * Pow2(n - 1)
  }

  /** The page has at least one message reference. */
  predicate HasMessages(list: ListOutcome) {
    list.Page? && list.messages.Some? && |list.messages.value| > 0
  }

  /**
   * `results.map(construct).filter(keep)`: the messages built from the present results
   * without the constructor throwing (`make` gives None) and passing the filter, in order.
   */
  function Kept<M>(results: seq<Option<Resource>>, make: Resource -> Option<M>, keep: M -> bool): (r: seq<M>)
    ensures |r| <= |results|
    ensures forall m :: m in r ==> keep(m)
  {
    if results == [] then []
    else
      var init := Kept(results[..|results| - 1], make, keep);
      var last := results[|results| - 1];
      if last.Some? && make(last.value).Some? && keep(make(last.value).value) then init + [make(last.value).value]
      else init
  }

  /**
   * A message is in the batch exactly when some result was present, was constructed into it,
   * and passed the filter.
   */
  lemma {:induction false} KeptMembers<M>(results: seq<Option<Resource>>, make: Resource -> Option<M>, keep: M -> bool, m: M)
    ensures m in Kept(results, make, keep) <==>
      exists i :: 0 <= i < |results| && results[i].Some? && make(results[i].value) == Some(m) && keep(m)
  {
    if results != [] {
      var init := results[..|results| - 1];
      KeptMembers(init, make, keep, m);
      if exists i :: 0 <= i < |init| && init[i].Some? && make(init[i].value) == Some(m) && keep(m) {
        var i :| 0 <= i < |init| && init[i].Some? && make(init[i].value) == Some(m) && keep(m);
        assert results[i] == init[i];
      }
      if exists i :: 0 <= i < |results| && results[i].Some? && make(results[i].value) == Some(m) && keep(m) {
        var i :| 0 <= i < |results| && results[i].Some? && make(results[i].value) == Some(m) && keep(m);
        if i < |init| {
          assert init[i] == results[i];
        }
      }
    }
  }

  /** Filtering a longer list of results extends the batch: earlier messages keep their order. */
  lemma {:induction false} KeptPrefix<M>(results: seq<Option<Resource>>, more: seq<Option<Resource>>, make: Resource -> Option<M>, keep: M -> bool)
    ensures Kept(results, make, keep) <= Kept(results + more, make, keep)
    decreases |more|
  {
    if more == [] {
      assert results + more == results;
    } else {
      var init := more[..|more| - 1];
      assert (results + more)[..|results + more| - 1] == results + init;
      KeptPrefix(results, init, make, keep);
    }
  }
}
