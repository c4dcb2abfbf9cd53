/**
 * The proof-of-concept `Message` of `src/poc/message.type.js`: the same trailing-bracket
 * extraction as the service but without a falsy guard, and a `parseDomain` that keeps the
 * whole address when it holds no `@`.
 */
module PocMessage {
  import opened Wrappers
  import opened Text
  import opened HeaderFields
  import ServiceMessage

  /**
   * The address part of a header value: the capture of `/.*\<(.*)\>$/` when it is
   * non-empty, otherwise the whole value.
   */
  function AddressPart(s: string): (r: string)
    ensures r == s || (ServiceMessage.TrailingBracket(s) == Some(r) && r != "")
    ensures '@' in r ==> '@' in s
  {
    var m := ServiceMessage.TrailingBracket(s);
    if m.Some? && m.value != "" then
      assert s[|s| - |m.value| - 1..|s| - 1] == m.value;
      m.value
    else s
  }

  /** The service's guarded extraction lowercases the same address part. */
  lemma ServiceExtractIsLowerAddressPart(s: string)
    requires s != ""
    ensures ServiceMessage.ExtractInternetAddress(Some(s)) == Lower(AddressPart(s))
  {
  }

  /**
   * `extractInternetAddress` without the guard: None stands for the TypeError an undefined
   * or null address raises; every string, '' included, gives its lowercased address part.
   */
  function ExtractInternetAddress(address: Option<string>): (r: Option<string>)
    ensures r.None? <==> address.None?
    ensures r.Some? ==> r.value == ServiceMessage.ExtractInternetAddress(address)
  {
    match address
    case None => None
    case Some(s) =>
      if s == "" then Some("") else Some(Lower(AddressPart(s)))
  }

  /**
   * `parseDomain`: the text after the last `@` (`lastIndexOf` gives -1, so the whole string
   * when there is none). The `catch` branch is unreachable for a string argument.
   */
  function ParseDomain(address: string): (r: string)
    ensures '@' !in r
    ensures '@' !in address ==> r == address
    ensures '@' in address ==> |r| < |address| && address == address[..|address| - |r| - 1] + "@" + r
  {
    var r := AfterLast(address, '@');
    if '@' in address then
      assert address == address[..|address| - |r| - 1] + "@" + r;
      r
    else r
  }

  /**
   * Where the service's `parseDomain` finds a domain the proof of concept finds the same
   * one; where the service yields undefined the proof of concept yields '' (trailing `@`)
   * or the whole address (no `@`).
   */
  lemma ParseDomainVersusService(address: string)
    ensures ServiceMessage.ParseDomain(address).Some? ==> ParseDomain(address) == ServiceMessage.ParseDomain(address).value
    ensures ServiceMessage.ParseDomain(address).None? ==> ParseDomain(address) == "" || ParseDomain(address) == address
  {
  }

  /** The proof-of-concept `Message`: `to` and `domain` are always strings once built. */
  datatype Message = Message(
    id: string,
    snippet: Option<string>,
    recieved: Option<string>,
    from: string,
    domain: string,
    to: string,
    subject: Option<string>)

  /**
   * `new Message(resource)`: None when the constructor throws, which happens when the
   * header list is missing, when From is missing, or when Delivered-To is falsy and To is
   * missing.
   */
  function MessageOf(res: Resource): (r: Option<Message>)
    ensures r.None? <==>
      || res.headers.None?
      || Get(Fields(res.headers.value), "from").None?
      || (!Truthy(Get(Fields(res.headers.value), "delivered-to")) && Get(Fields(res.headers.value), "to").None?)
  {
    match res.headers
    case None => None
    case Some(hs) =>
      var fields := Fields(hs);
      var from := ExtractInternetAddress(Get(fields, "from"));
      var to := if Truthy(Get(fields, "delivered-to")) then ExtractInternetAddress(Get(fields, "delivered-to"))
                else ExtractInternetAddress(Get(fields, "to"));
      if from.None? || to.None? then None
      else Some(Message(res.id, res.snippet, res.internalDate, from.value, ParseDomain(from.value), to.value,
                        Get(fields, "subject")))
  }

  /**
   * When the proof of concept builds a message it agrees with the service's message on
   * `from`, `to` and `subject`, and on `domain` wherever the service finds one.
   */
  lemma AgreesWithService(res: Resource)
    requires MessageOf(res).Some?
    ensures var p := MessageOf(res).value; var s := ServiceMessage.MessageOf(res).value;
      && p.id == s.id && p.from == s.from && p.to == s.to && p.subject == s.subject
      && (s.domain.Some? ==> p.domain == s.domain.value)
      && (s.domain.None? ==> p.domain == "" || p.domain == p.from)
  {
    var p := MessageOf(res).value;
    ParseDomainVersusService(p.from);
  }

  /** The recipient prefers a truthy Delivered-To over To; the subject is passed through. */
  lemma RecipientAndSubject(res: Resource)
    requires MessageOf(res).Some?
    ensures var m := MessageOf(res).value; var f := Fields(res.headers.value);
      && (Truthy(Get(f, "delivered-to")) ==> Some(m.to) == ExtractInternetAddress(Get(f, "delivered-to")))
      && (!Truthy(Get(f, "delivered-to")) ==> Some(m.to) == ExtractInternetAddress(Get(f, "to")))
      && m.subject == Get(f, "subject")
  {
  }
}
