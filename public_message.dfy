/**
 * The static-page `Message` of `public/message.type.mjs`: raw From and To header values,
 * Delivered-To ignored, and a `parseDomain` method that keeps the original case.
 */
module PublicMessage {
  import opened Wrappers
  import opened Text
  import opened HeaderFields
  import PocMessage

  /** The static page's `Message`; every header-derived field may be undefined. */
  datatype Message = Message(
    id: string,
    snippet: Option<string>,
    recieved: Option<string>,
    from: Option<string>,
    domain: Option<string>,
    to: Option<string>,
    subject: Option<string>)

  /**
   * `Message.parseDomain`: an undefined From raises a TypeError that the `catch` turns into
   * undefined; otherwise the text after the last `@` of the address part, case kept.
   */
  function ParseDomain(from: Option<string>): (r: Option<string>)
    ensures r.None? <==> from.None?
    ensures r.Some? ==> '@' !in r.value && r.value == AfterLast(PocMessage.AddressPart(from.value), '@')
  {
    match from
    case None => None
    case Some(s) => Some(AfterLast(PocMessage.AddressPart(s), '@'))
  }

  /** `new Message(resource)`: None when the header list is missing, as `payload.headers` throws. */
  function MessageOf(res: Resource): (r: Option<Message>)
    ensures r.None? <==> res.headers.None?
    ensures r.Some? ==> var f := Fields(res.headers.value);
      && r.value.from == Get(f, "from") && r.value.to == Get(f, "to") && r.value.subject == Get(f, "subject")
      && r.value.domain == ParseDomain(Get(f, "from"))
  {
    match res.headers
    case None => None
    case Some(hs) =>
      var fields := Fields(hs);
      Some(Message(res.id, res.snippet, res.internalDate, Get(fields, "from"), ParseDomain(Get(fields, "from")),
                   Get(fields, "to"), Get(fields, "subject")))
  }

  /** A missing From does not make the constructor throw: only `domain` becomes undefined. */
  lemma MissingFromTolerated(res: Resource)
    requires res.headers.Some? && Get(Fields(res.headers.value), "from").None?
    ensures MessageOf(res).Some? && MessageOf(res).value.domain.None?
  {
  }

  /** Delivered-To never reaches the message: appending one changes nothing. */
  lemma {:induction false} DeliveredToIgnored(res: Resource, value: Option<string>)
    requires res.headers.Some?
    ensures MessageOf(res.(headers := Some(res.headers.value + [Header(Some("Delivered-To"), value)])))
         == MessageOf(res)
  {
    var hs := res.headers.value;
    var hs' := hs + [Header(Some("Delivered-To"), value)];
    assert hs'[..|hs|] == hs;
    assert Lower("Delivered-To") == "delivered-to";
    assert Fields(hs') == Fields(hs)["delivered-to" := value];
  }

  /** On one From value: lowercasing the static page's domain gives the proof of concept's. */
  lemma DomainLowered(from: string)
    ensures Lower(ParseDomain(Some(from)).value)
         == PocMessage.ParseDomain(PocMessage.ExtractInternetAddress(Some(from)).value)
  {
    var part := PocMessage.AddressPart(from);
    var e := PocMessage.ExtractInternetAddress(Some(from)).value;
    assert e == Lower(part) by {
      if from == "" {
        assert part == "";
      }
    }
    AfterLastLower(part);
    assert PocMessage.ParseDomain(e) == AfterLast(Lower(part), '@');
  }

  /**
   * The static page's domain is the proof of concept's domain before lowercasing: both take
   * the same address part and the text after its last `@`.
   */
  lemma DomainIsPocDomainBeforeLowercasing(res: Resource)
    requires PocMessage.MessageOf(res).Some?
    ensures MessageOf(res).Some? && MessageOf(res).value.domain.Some?
    ensures Lower(MessageOf(res).value.domain.value) == PocMessage.MessageOf(res).value.domain
  {
    DomainLowered(Get(Fields(res.headers.value), "from").value);
  }
}
