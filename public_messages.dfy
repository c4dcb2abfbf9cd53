/**
 * The static page's store of `public/messages.mjs`: the `messages` table indexed by `from`,
 * and the distinct domains of the stored senders.
 */
module PublicMessages {
  import opened JsObject
  import opened Text

  /** `from.substring(1 + from.lastIndexOf('@'))` for every sender, in order. */
  function SenderDomains(froms: seq<string>): (r: seq<string>)
    ensures |r| == |froms|
    ensures forall i :: 0 <= i < |r| ==> r[i] == AfterLast(froms[i], '@')
  {
    if froms == [] then []
    else SenderDomains(froms[..|froms| - 1]) + [AfterLast(froms[|froms| - 1], '@')]
  }

  /** The listed domains are exactly the senders' domains, and none holds an `@`. */
  lemma SenderDomainsMembers(froms: seq<string>)
    ensures forall d :: d in SenderDomains(froms) <==> exists i :: 0 <= i < |froms| && d == AfterLast(froms[i], '@')
    ensures forall d :: d in SenderDomains(froms) ==> '@' !in d
  {
    var all := SenderDomains(froms);
    forall d | d in all ensures (exists i :: 0 <= i < |froms| && d == AfterLast(froms[i], '@')) && '@' !in d {
      var j :| 0 <= j < |all| && all[j] == d;
    }
    forall d | exists i :: 0 <= i < |froms| && d == AfterLast(froms[i], '@') ensures d in all {
      var j :| 0 <= j < |froms| && d == AfterLast(froms[j], '@');
      assert all[j] == d;
    }
  }

  /**
   * `findUniqueDomains`: the unique keys of the `from` index, in index order; each one's domain
   * is pushed unless the array already includes it. Every sender's domain is listed, once,
   * in order of first appearance, and nothing else is.
   */
  method FindUniqueDomains(froms: seq<string>) returns (seenDomains: seq<string>)
    ensures seenDomains == Distinct(SenderDomains(froms))
    ensures NoDuplicates(seenDomains)
    ensures forall d :: d in seenDomains <==> exists i :: 0 <= i < |froms| && d == AfterLast(froms[i], '@')
    ensures forall d :: d in seenDomains ==> '@' !in d
  {
    seenDomains := [];
    var i := 0;
    while i < |froms|
      invariant 0 <= i <= |froms|
      invariant seenDomains == Distinct(SenderDomains(froms[..i]))
    {
      assert froms[..i + 1][..i] == froms[..i];
      var from := froms[i];
      var domain := AfterLast(from, '@');
      if domain !in seenDomains {
        seenDomains := seenDomains + [domain];
      }
      i := i + 1;
    }
    assert froms[..i] == froms;
    SenderDomainsMembers(froms);
  }
}
