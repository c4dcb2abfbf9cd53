/**
 * The typed parser of `src/lib/emailParser.ts`: `extractInternetAddress` (leftmost `<...>`),
 * `parseDomain` ('' instead of undefined), `getHeaderValue` (first match wins) and
 * `parseGmailMessage` (null for unusable messages).
 */
module EmailParser {
  import opened Wrappers
  import opened Text
  import ServiceMessage

  /** A `GmailMessagePartHeader`: both fields are strings in the typed API. */
  datatype PartHeader = PartHeader(name: string, value: string)

  /**
   * A `GmailMessage` as the parser reads it; `headers` is None when `payload` or
   * `payload.headers` is missing.
   */
  datatype GmailMessage = GmailMessage(id: string, internalDate: Option<string>, headers: Option<seq<PartHeader>>)

  /** The application's `Message` record; `received` keeps the raw `internalDate`. */
  datatype ParsedMessage = ParsedMessage(
    id: string,
    received: Option<string>,
    from: string,
    domain: string,
    to: string,
    subject: string)

  /** What `parseGmailMessage` does with one input: throws, returns null, or returns a record. */
  datatype ParseOutcome = Threw | Skipped | Parsed(msg: ParsedMessage)

  /** The first index at or after `i` holding `>`, or `|s|` when there is none. */
  function NextClose(s: string, i: nat): (r: nat)
    requires i <= |s|
    ensures i <= r <= |s|
    ensures r < |s| ==> s[r] == '>'
    ensures forall k :: i <= k < r ==> s[k] != '>'
    decreases |s| - i
  {
    if i == |s| || s[i] == '>' then i else NextClose(s, i + 1)
  }

  /** `/<([^>]+)>/` matches with its `<` at `a` and its `>` at `b`. */
  predicate MatchAt(s: string, a: int, b: int) {
    0 <= a && a + 1 < b < |s| && s[a] == '<' && s[b] == '>'
    && forall k :: a < k < b ==> s[k] != '>'
  }

  /** The closing `>` of a match is the first `>` after its `<`. */
  lemma MatchCloses(s: string, a: int, b: int)
    requires MatchAt(s, a, b)
    ensures b == NextClose(s, a + 1)
  {
  }

  /**
   * The leftmost position at or after `i` where the pattern matches, or `|s|` when it
   * matches nowhere from `i` on.
   */
  function LeftmostOpen(s: string, i: nat): (a: nat)
    requires i <= |s|
    ensures i <= a <= |s|
    ensures a < |s| ==> MatchAt(s, a, NextClose(s, a + 1))
    ensures forall a', b' :: i <= a' < a && MatchAt(s, a', b') ==> false
    decreases |s| - i
  {
    if i == |s| then i
    else if s[i] == '<' && i + 1 < NextClose(s, i + 1) < |s| then i
    else
      var a := LeftmostOpen(s, i + 1);
      assert forall b' :: MatchAt(s, i, b') ==> b' == NextClose(s, i + 1) by {
        forall b' | MatchAt(s, i, b') { MatchCloses(s, i, b'); }
      }
      a
  }

  /** The capture of the leftmost match of `/<([^>]+)>/`, None when nothing matches. */
  function FirstBracket(s: string): (r: Option<string>)
    ensures r.None? <==> forall a, b :: MatchAt(s, a, b) ==> false
    ensures r.Some? ==> r.value != "" && '>' !in r.value
  {
    var a := LeftmostOpen(s, 0);
    if a == |s| then None else Some(s[a + 1..NextClose(s, a + 1)])
  }

  /** The capture is the content of a match that no match to its left precedes. */
  lemma FirstBracketLeftmost(s: string)
    requires FirstBracket(s).Some?
    ensures exists a, b :: MatchAt(s, a, b) && FirstBracket(s).value == s[a + 1..b]
                           && forall a', b' :: 0 <= a' < a && MatchAt(s, a', b') ==> false
  {
    var a := LeftmostOpen(s, 0);
    var b := NextClose(s, a + 1);
    assert MatchAt(s, a, b);
  }

  /**
   * `extractInternetAddress`: '' for undefined or empty input; the lowercased leftmost
   * bracket content when there is one; otherwise the whole input lowercased.
   */
  function ExtractInternetAddress(address: Option<string>): (r: string)
    ensures !Truthy(address) ==> r == ""
    ensures Truthy(address) && FirstBracket(address.value).None? ==> r == Lower(address.value)
    ensures Truthy(address) && FirstBracket(address.value).Some? ==> r == Lower(FirstBracket(address.value).value)
    ensures Truthy(address) ==> r != ""
    ensures IsLower(r)
  {
    if !Truthy(address) then ""
    else
      var m := FirstBracket(address.value);
      LowerIsLower(address.value);
      if m.Some? then LowerIsLower(m.value); Lower(m.value) else Lower(address.value)
  }

  /** In `name<addr>` with no `<` in the name, the leftmost match is the final bracket. */
  lemma DisplayBracket(name: string, addr: string)
    requires addr != "" && '<' !in name && '>' !in addr
    ensures FirstBracket(name + ['<'] + addr + ['>']) == Some(addr)
  {
    var s := name + ['<'] + addr + ['>'];
    var a := |name|;
    assert s[a] == '<';
    assert forall k :: 0 <= k < a ==> s[k] == name[k];
    assert forall k :: a < k < |s| - 1 ==> s[k] == addr[k - a - 1];
    assert MatchAt(s, a, |s| - 1);
    MatchCloses(s, a, |s| - 1);
    assert LeftmostOpen(s, 0) == a;
    assert s[a + 1..|s| - 1] == addr;
  }

  /** "Display Name <addr>" yields the lowercased `addr` when the name holds no `<`. */
  lemma ExtractDisplayForm(name: string, addr: string)
    requires addr != "" && '<' !in name && '>' !in addr
    ensures ExtractInternetAddress(Some(name + "<" + addr + ">")) == Lower(addr)
  {
    DisplayBracket(name, addr);
  }

  /**
   * Both extractors agree on the "Display Name <addr>" form; they differ only where the
   * bracket is not at the end or is not the last one.
   */
  lemma ExtractAgreesOnDisplayForm(name: string, addr: string)
    requires addr != "" && '<' !in name && '>' !in addr && '<' !in addr
    ensures ExtractInternetAddress(Some(name + "<" + addr + ">"))
         == ServiceMessage.ExtractInternetAddress(Some(name + "<" + addr + ">"))
  {
    ExtractDisplayForm(name, addr);
    ServiceMessage.ExtractDisplayForm(name, addr);
  }

  /**
   * `parseDomain`: '' for an empty input or one without `@`; otherwise the text after the
   * last `@`, which is '' when `@` is the last character. The `catch` branch is unreachable
   * because `substring` does not throw.
   */
  function ParseDomain(email: string): (r: string)
    ensures email == "" || '@' !in email ==> r == ""
    ensures '@' in email ==> |r| < |email| && email == email[..|email| - |r| - 1] + "@" + r
    ensures '@' !in r
    ensures r == "" <==> email == "" || '@' !in email || email[|email| - 1] == '@'
  {
    if email == "" || '@' !in email then ""
    else
      var r := AfterLast(email, '@');
      assert email == email[..|email| - |r| - 1] + "@" + r;
      r
  }

  /** The typed `parseDomain` is the service's `parseDomain` with undefined read as ''. */
  lemma ParseDomainAgrees(email: string)
    ensures ParseDomain(email) == match ServiceMessage.ParseDomain(email) case None => "" case Some(d) => d
  {
  }

  /** Header names compare equal after lowercasing both sides. */
  predicate NameMatches(h: PartHeader, name: string) {
    Lower(h.name) == Lower(name)
  }

  /** `getHeaderValue`: the value of the first header whose name matches, case-insensitively. */
  function GetHeaderValue(headers: seq<PartHeader>, name: string): (r: Option<string>)
    ensures r.None? <==> forall i :: 0 <= i < |headers| ==> !NameMatches(headers[i], name)
    ensures r.Some? ==> exists i :: 0 <= i < |headers| && NameMatches(headers[i], name)
                                   && r.value == headers[i].value
                                   && forall j :: 0 <= j < i ==> !NameMatches(headers[j], name)
  {
    if headers == [] then None
    else if NameMatches(headers[0], name) then Some(headers[0].value)
    else
      var r := GetHeaderValue(headers[1..], name);
      assert forall i :: 0 < i < |headers| ==> headers[i] == headers[1..][i - 1];
      if r.Some? then
        var i :| 0 <= i < |headers[1..]| && NameMatches(headers[1..][i], name)
                 && r.value == headers[1..][i].value
                 && forall j :: 0 <= j < i ==> !NameMatches(headers[1..][j], name);
        assert NameMatches(headers[i + 1], name) && r.value == headers[i + 1].value;
        assert forall j :: 1 <= j < i + 1 ==> !NameMatches(headers[j], name);
        r
      else r
  }

  /** A header placed in front of a matching one wins over it. */
  lemma FirstHeaderWins(h: PartHeader, rest: seq<PartHeader>, name: string)
    requires NameMatches(h, name)
    ensures GetHeaderValue([h] + rest, name) == Some(h.value)
  {
  }

  /** A JS `||` default for a string that may be undefined. */
  function OrElse(s: Option<string>, default: string): string {
    if Truthy(s) then s.value else default
  }

  const UnknownRecipient := "unknown@recipient.com"
  const NoSubject := "(No Subject)"

  /**
   * The record fields, computed the way lines 48-74 compute them; the caller decides
   * between the record and null.
   */
  function Fields(id: string, internalDate: Option<string>, headers: seq<PartHeader>): ParsedMessage {
    var fromAddress := ExtractInternetAddress(Some(OrElse(GetHeaderValue(headers, "From"), "")));
    var delivered := ExtractInternetAddress(GetHeaderValue(headers, "Delivered-To"));
    var toAddress := if delivered != "" then delivered else ExtractInternetAddress(GetHeaderValue(headers, "To"));
    ParsedMessage(id, internalDate, fromAddress, ParseDomain(fromAddress),
                  if toAddress != "" then toAddress else UnknownRecipient,
                  OrElse(GetHeaderValue(headers, "Subject"), NoSubject))
  }

  /**
   * `parseGmailMessage` as written: the guard's warning reads `gmailMessage.id`, so a null
   * message throws instead of returning null.
   */
  function ParseGmailMessageAsWritten(message: Option<GmailMessage>): (r: ParseOutcome)
    ensures message.None? <==> r.Threw?
    ensures message.Some? ==> r == ParseGmailMessage(message)
  {
    if message.None? then Threw else ParseGmailMessage(message)
  }

  /**
   * `parseGmailMessage` with the guard doing what its comment and its `return null` intend:
   * null for a missing message, payload or header list, and for a message whose sender
   * address or domain is empty.
   */
  function ParseGmailMessage(message: Option<GmailMessage>): (r: ParseOutcome)
    ensures !r.Threw?
    ensures message.None? || message.value.headers.None? ==> r.Skipped?
    ensures r.Parsed? ==>
      && message.Some? && message.value.headers.Some?
      && r.msg == Fields(message.value.id, message.value.internalDate, message.value.headers.value)
      && r.msg.from != "" && r.msg.domain != ""
  {
    match message
    case None => Skipped
    case Some(m) =>
      match m.headers
      case None => Skipped
      case Some(hs) =>
        var f := Fields(m.id, m.internalDate, hs);
        if f.from == "" || f.domain == "" then Skipped else Parsed(f)
  }

  /** The finding: a null message makes the as-written parser throw where null was intended. */
  lemma NullMessageThrows()
    ensures ParseGmailMessageAsWritten(None).Threw?
    ensures ParseGmailMessage(None) == Skipped
  {
  }

  /**
   * Every record the parser returns has a non-empty lowercased sender, a non-empty domain
   * that is the text after the sender's last `@`, and non-empty `to` and `subject`.
   */
  lemma ParsedRecord(message: Option<GmailMessage>)
    requires ParseGmailMessage(message).Parsed?
    ensures var p := ParseGmailMessage(message).msg;
      && p.from != "" && IsLower(p.from) && p.domain != "" && '@' !in p.domain
      && '@' in p.from && p.from == p.from[..|p.from| - |p.domain| - 1] + "@" + p.domain
      && p.to != "" && p.subject != ""
  {
    var p := ParseGmailMessage(message).msg;
    assert p.domain != "";
  }

  /** A message is skipped exactly when it is missing, has no headers, or lacks sender or domain. */
  lemma SkippedExactly(message: Option<GmailMessage>)
    ensures ParseGmailMessage(message).Skipped? <==>
      message.None? || message.value.headers.None?
      || var f := Fields(message.value.id, message.value.internalDate, message.value.headers.value);
         f.from == "" || f.domain == ""
  {
  }

  /**
   * The recipient: the extracted Delivered-To when non-empty, else the extracted To when
   * non-empty, else the placeholder address.
   */
  lemma RecipientChoice(id: string, date: Option<string>, headers: seq<PartHeader>)
    ensures var f := Fields(id, date, headers);
      var d := ExtractInternetAddress(GetHeaderValue(headers, "Delivered-To"));
      var t := ExtractInternetAddress(GetHeaderValue(headers, "To"));
      && (d != "" ==> f.to == d)
      && (d == "" && t != "" ==> f.to == t)
      && (d == "" && t == "" ==> f.to == UnknownRecipient)
      && (Truthy(GetHeaderValue(headers, "Delivered-To")) ==> f.to == d)
  {
  }

  /** The subject is the first Subject header's value, or the placeholder when absent or empty. */
  lemma SubjectChoice(id: string, date: Option<string>, headers: seq<PartHeader>)
    ensures var f := Fields(id, date, headers);
      var s := GetHeaderValue(headers, "Subject");
      && (s.None? || s.value == "" ==> f.subject == NoSubject)
      && (s.Some? && s.value != "" ==> f.subject == s.value)
  {
  }
}
