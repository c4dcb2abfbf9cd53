/**
 * Header normalisation of `src/services/gmailService.js`: `extractInternetAddress`,
 * `parseDomain` and the `Message` constructor.
 */
module ServiceMessage {
  import opened Wrappers
  import opened Text
  import opened HeaderFields

  /**
   * The capture of `/.*\<(.*)\>$/`: when the string ends in `>`, the text between the last
   * `<` before that `>` and the `>`; None when the pattern does not match.
   */
  function TrailingBracket(s: string): (r: Option<string>)
    ensures r.Some? <==> |s| > 0 && s[|s| - 1] == '>' && '<' in s[..|s| - 1]
    ensures r.Some? ==> '<' !in r.value && |r.value| + 2 <= |s|
                        && s[|s| - |r.value| - 2] == '<' && s[|s| - |r.value| - 1..|s| - 1] == r.value
  {
    if |s| > 0 && s[|s| - 1] == '>' && '<' in s[..|s| - 1] then
      Some(AfterLast(s[..|s| - 1], '<'))
    else None
  }

  /**
   * `extractInternetAddress`: '' for a falsy input; otherwise the lowercased bracket content
   * when the pattern matched with a non-empty capture, else the whole input lowercased.
   */
  function ExtractInternetAddress(address: Option<string>): (r: string)
    ensures !Truthy(address) ==> r == ""
    ensures IsLower(r)
    ensures Truthy(address) ==> r != ""
  {
    if !Truthy(address) then ""
    else
      var m := TrailingBracket(address.value);
      if m.Some? && m.value != "" then Lower(m.value) else Lower(address.value)
  }

  /**
   * `parseDomain`: undefined for a falsy input, an input without `@` or one whose last
   * character is `@`; otherwise the non-empty text after the last `@`.
   */
  function ParseDomain(address: string): (r: Option<string>)
    ensures r.None? <==> address == "" || '@' !in address || address[|address| - 1] == '@'
    ensures r.Some? ==> r.value != "" && '@' !in r.value && |r.value| < |address|
                        && address[|address| - |r.value| - 1] == '@'
                        && address[|address| - |r.value|..] == r.value
  {
    if address == "" then None
    else
      var at := LastIndexOf(address, '@');
      if at == -1 || at == |address| - 1 then None else Some(address[at + 1..])
  }

  /** `p<t>` matches, capturing `t`, when `t` has no `<`. */
  lemma BracketJoin(p: string, t: string)
    requires '<' !in t
    ensures TrailingBracket(p + ['<'] + t + ['>']) == Some(t)
  {
    var u := p + ['<'] + t;
    assert (u + ['>'])[..|u|] == u;
    assert u[|p|] == '<';
    AfterLastJoin(p, '<', t);
  }

  /** "Display Name <addr>" extracts to the lowercased `addr` when `addr` has no `<`. */
  lemma ExtractDisplayForm(name: string, addr: string)
    requires addr != "" && '<' !in addr
    ensures ExtractInternetAddress(Some(name + "<" + addr + ">")) == Lower(addr)
  {
    BracketJoin(name, addr);
  }

  /** A bare address (not ending in `>`) is only lowercased. */
  lemma ExtractBare(addr: string)
    requires addr != "" && addr[|addr| - 1] != '>'
    ensures ExtractInternetAddress(Some(addr)) == Lower(addr)
  {
  }

  /**
   * Without a non-empty bracket capture (no `>` at the end, no `<` before it, or an empty
   * `<>`), the whole input is lowercased.
   */
  lemma ExtractUncaptured(s: string)
    requires s != ""
    requires TrailingBracket(s).None? || TrailingBracket(s).value == ""
    ensures ExtractInternetAddress(Some(s)) == Lower(s)
  {
  }

  /** An address ending in `<>` is only lowercased. */
  lemma ExtractEmptyBrackets(p: string)
    ensures ExtractInternetAddress(Some(p + "<>")) == Lower(p + "<>")
  {
    EmptyCapture(p + "<>");
    ExtractUncaptured(p + "<>");
  }

  /** A lowercase string with no non-empty bracket capture extracts to itself. */
  lemma ExtractSettled(t: string)
    requires t != "" && IsLower(t)
    requires TrailingBracket(t).None? || TrailingBracket(t).value == ""
    ensures ExtractInternetAddress(Some(t)) == t
  {
    LowerOfLower(t);
  }

  /** A string ending in `<>` matches with an empty capture. */
  lemma EmptyCapture(t: string)
    requires |t| >= 2 && t[|t| - 1] == '>' && t[|t| - 2] == '<'
    ensures TrailingBracket(t) == Some("")
  {
    assert t[..|t| - 1][|t| - 2] == '<';
  }

  /** Lowercasing cannot turn an input without a non-empty capture into one with it. */
  lemma LowerKeepsNoCapture(s: string)
    requires TrailingBracket(s).None? || TrailingBracket(s).value == ""
    ensures TrailingBracket(Lower(s)).None? || TrailingBracket(Lower(s)).value == ""
  {
    var r := Lower(s);
    LowerKeeps(s, '<');
    LowerKeeps(s, '>');
    if TrailingBracket(r).Some? {
      var k :| 0 <= k < |r| - 1 && r[k] == '<';
      assert s[..|s| - 1][k] == '<';
      var ms := TrailingBracket(s);
      assert ms.Some? && |ms.value| == 0;
      assert s[|s| - 2] == '<';
      EmptyCapture(r);
    }
  }

  /** Extracting from an extracted address changes nothing. */
  lemma ExtractIdempotent(address: Option<string>)
    ensures ExtractInternetAddress(Some(ExtractInternetAddress(address))) == ExtractInternetAddress(address)
  {
    var r := ExtractInternetAddress(address);
    if r != "" {
      var s := address.value;
      var m := TrailingBracket(s);
      if m.Some? && m.value != "" {
        // the capture holds no `<`, so the result has none either and cannot match again
        LowerKeeps(m.value, '<');
        assert '<' !in r[..|r| - 1];
      } else {
        LowerKeepsNoCapture(s);
      }
      ExtractSettled(r);
    }
  }

  /** `user@domain` yields `domain` when `domain` is non-empty and has no `@`. */
  lemma ParseDomainJoin(user: string, domain: string)
    requires domain != "" && '@' !in domain
    ensures ParseDomain(user + "@" + domain) == Some(domain)
  {
    AfterLastJoin(user, '@', domain);
  }

  /** `class Message` of the service, as the constructor leaves it. */
  datatype Message = Message(
    id: string,
    snippet: Option<string>,
    recieved: Option<string>,
    from: string,
    domain: Option<string>,
    to: string,
    subject: Option<string>)

  /**
   * What `new Message(resource)` yields: None when it throws (no `payload.headers`),
   * otherwise the fields the constructor assigns from the header properties.
   */
  function MessageOf(res: Resource): (r: Option<Message>)
    ensures r.None? <==> res.headers.None?
    ensures r.Some? ==> r.value.id == res.id && IsLower(r.value.from) && IsLower(r.value.to)
  {
    match res.headers
    case None => None
    case Some(hs) =>
      var fields := Fields(hs);
      var from := ExtractInternetAddress(Get(fields, "from"));
      var to := if Truthy(Get(fields, "delivered-to")) then ExtractInternetAddress(Get(fields, "delivered-to"))
                else ExtractInternetAddress(Get(fields, "to"));
      Some(Message(res.id, res.snippet, res.internalDate, from, ParseDomain(from), to, Get(fields, "subject")))
  }

  /** `new Message(gmailMessage)`, building the `Headers` object on the way. */
  method NewMessage(res: Resource) returns (m: Option<Message>)
    ensures m == MessageOf(res)
    ensures m.None? <==> res.headers.None?
  {
    if res.headers.None? {
      return None;
    }
    var headers := new HeaderSet(res.headers.value);
    var from := ExtractInternetAddress(headers.Read("from"));
    var domain := ParseDomain(from);
    var to;
    if Truthy(headers.Read("delivered-to")) {
      to := ExtractInternetAddress(headers.Read("delivered-to"));
    } else {
      to := ExtractInternetAddress(headers.Read("to"));
    }
    m := Some(Message(res.id, res.snippet, res.internalDate, from, domain, to, headers.Read("subject")));
  }

  /**
   * The recipient is the extracted Delivered-To when that header is truthy, else the
   * extracted To; the sender is extracted From and the domain is parsed from it.
   */
  lemma MessageFields(res: Resource)
    requires res.headers.Some?
    ensures var m := MessageOf(res).value; var f := Fields(res.headers.value);
      && m.id == res.id
      && m.from == ExtractInternetAddress(Get(f, "from")) && IsLower(m.from)
      && m.domain == ParseDomain(m.from)
      && (Truthy(Get(f, "delivered-to")) ==> m.to == ExtractInternetAddress(Get(f, "delivered-to")))
      && (!Truthy(Get(f, "delivered-to")) ==> m.to == ExtractInternetAddress(Get(f, "to")))
      && (m.to != "" <==> Truthy(Get(f, "delivered-to")) || Truthy(Get(f, "to")))
      && m.subject == Get(f, "subject")
  {
  }

  /** With no headers, from and to are '' and domain and subject undefined. */
  lemma NoHeaders(id: string, snippet: Option<string>, date: Option<string>)
    ensures MessageOf(Resource(id, snippet, date, Some([])))
         == Some(Message(id, snippet, date, "", None, "", None))
  {
  }

  /** A null From value also gives from = ''. */
  lemma NullFrom(id: string)
    ensures var m := MessageOf(Resource(id, None, None, Some([Header(Some("From"), None)])));
      m.Some? && m.value.from == "" && m.value.domain == None
  {
  }

  /** The header list of the constructor test. */
  function TestHeaders(): seq<Header> {
    [Header(Some("From"), Some("Sender <sender@example.com>")),
     Header(Some("To"), Some("Recipient <recipient@example.com>")),
     Header(Some("Subject"), Some("Test Subject")),
     Header(Some("Delivered-To"), Some("deliveredto@example.com"))]
  }

  lemma TestHeaderProperties()
    ensures Get(Fields(TestHeaders()), "from") == Some("Sender <sender@example.com>")
    ensures Get(Fields(TestHeaders()), "subject") == Some("Test Subject")
    ensures Get(Fields(TestHeaders()), "delivered-to") == Some("deliveredto@example.com")
  {
    var hs := TestHeaders();
    assert Lower("From") == "from";
    assert Lower("Subject") == "subject";
    assert Lower("Delivered-To") == "delivered-to";
    FieldsLast(hs, "from", 0);
    FieldsLast(hs, "subject", 2);
    FieldsLast(hs, "delivered-to", 3);
  }

  lemma TestSenderSpelling()
    ensures "Sender " + "<" + "sender@example.com" + ">" == "Sender <sender@example.com>"
  {
  }

  lemma TestSenderLower()
    ensures Lower("sender@example.com") == "sender@example.com"
  {
    LowerOfLower("sender@example.com");
  }

  lemma TestSenderDisplay()
    ensures ExtractInternetAddress(Some("Sender " + "<" + "sender@example.com" + ">")) == Lower("sender@example.com")
  {
    ExtractDisplayForm("Sender ", "sender@example.com");
  }

  lemma TestSenderAddress()
    ensures ExtractInternetAddress(Some("Sender <sender@example.com>")) == "sender@example.com"
  {
    TestSenderDisplay();
    TestSenderLower();
    TestSenderSpelling();
  }

  lemma TestRecipientAddress(to: string)
    requires to == "deliveredto@example.com"
    ensures ExtractInternetAddress(Some(to)) == to
  {
    ExtractBare(to);
    LowerOfLower(to);
  }

  lemma TestDomainSpelling()
    ensures "sender" + "@" + "example.com" == "sender@example.com"
  {
  }

  lemma TestDomain(from: string)
    requires from == "sender@example.com"
    ensures ParseDomain(from) == Some("example.com")
  {
    ParseDomainJoin("sender", "example.com");
    TestDomainSpelling();
  }

  /** The constructor test: Delivered-To is preferred and the sender's brackets are stripped. */
  lemma ConstructsFromTestHeaders()
    ensures var m := MessageOf(Resource("123", Some("Test snippet"), Some("1678886400000"), Some(TestHeaders())));
      m.Some? && m.value.from == "sender@example.com" && m.value.domain == Some("example.com")
      && m.value.to == "deliveredto@example.com" && m.value.subject == Some("Test Subject")
  {
    TestHeaderProperties();
    TestSenderAddress();
    TestRecipientAddress("deliveredto@example.com");
    TestDomain("sender@example.com");
  }
}
