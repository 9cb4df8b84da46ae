/**
 * `check_whois`: the fixed TLD-to-server table, the query line of section 2
 * of RFC 3912 (port 43), and the classification of the free-text reply. The
 * TCP exchange and its timeout are an input (`WhoisExchange`).
 */
module Whois {
  import opened Wrappers
  import opened Text
  import opened Types

  /** `WHOIS_PORT`. */
  const WhoisPort: nat := 43

  /** The TLDs the server table knows. */
  const KnownWhoisTlds: seq<string> := ["com", "net", "org", "io", "dev", "app", "ai", "co", "me"]

  /** The server table; a TLD outside it has no WHOIS server. */
  function WhoisServer(tld: string): (r: Option<string>)
    ensures r.Some? <==> tld in KnownWhoisTlds
  {
    if tld == "com" || tld == "net" then Some("whois.verisign-grs.com")
    else if tld == "org" then Some("whois.pir.org")
    else if tld == "io" then Some("whois.nic.io")
    else if tld == "dev" || tld == "app" then Some("whois.nic.google")
    else if tld == "ai" then Some("whois.nic.ai")
    else if tld == "co" then Some("whois.nic.co")
    else if tld == "me" then Some("whois.nic.me")
    else None
  }

  /** What the table holds: Verisign for com and net, PIR for org, Google for dev and app, `whois.nic.<tld>` for the rest. */
  lemma WhoisServerTable(tld: string)
    ensures WhoisServer(tld).Some? <==> tld in KnownWhoisTlds
    ensures tld == "com" || tld == "net" ==> WhoisServer(tld) == Some("whois.verisign-grs.com")
    ensures tld == "org" ==> WhoisServer(tld) == Some("whois.pir.org")
    ensures tld == "dev" || tld == "app" ==> WhoisServer(tld) == Some("whois.nic.google")
    ensures tld == "io" || tld == "ai" || tld == "co" || tld == "me" ==> WhoisServer(tld) == Some("whois.nic." + tld)
  {
    assert "whois.nic." + "io" == "whois.nic.io";
    assert "whois.nic." + "ai" == "whois.nic.ai";
    assert "whois.nic." + "co" == "whois.nic.co";
    assert "whois.nic." + "me" == "whois.nic.me";
  }

  /**
   * The TLD `check_whois` uses: the lower-cased last label. `rsplit` always
   * yields an item, so the source's "Invalid domain" branch cannot be taken;
   * a domain ending in a dot gives the empty TLD, which has no server.
   */
  function WhoisTld(domain: string): (t: string)
    ensures |t| <= |domain|
    ensures t == [] <==> (domain == [] || domain[|domain| - 1] == '.')
  {
    LastLabelEmpty(domain);
    Lower(LastLabel(domain))
  }

  /** The text written to the server: the domain followed by CR LF. */
  function QueryLine(domain: string): (line: string)
    ensures |line| == |domain| + 2
    ensures line[..|domain|] == domain && line[|domain|..] == "\r\n"
  {
    domain + "\r\n"
  }

  /** The connection `check_whois` opens and what it writes. */
  datatype WhoisRequest = WhoisRequest(server: string, port: nat, line: string)

  /** The request for a domain, or None when no connection is opened. */
  function PlanWhois(domain: string): (r: Option<WhoisRequest>)
    ensures r.Some? ==> r.value.port == 43 && r.value.line == QueryLine(domain)
  {
    match WhoisServer(WhoisTld(domain))
    case None => None
    case Some(server) => Some(WhoisRequest(server, WhoisPort, QueryLine(domain)))
  }

  /** A connection is planned exactly for a known TLD, to that TLD's server on port 43, writing the query line. */
  lemma PlanWhoisTargetsTableServer(domain: string)
    ensures PlanWhois(domain).Some? <==> WhoisTld(domain) in KnownWhoisTlds
    ensures PlanWhois(domain).Some? ==>
              PlanWhois(domain).value == WhoisRequest(WhoisServer(WhoisTld(domain)).value, 43, domain + "\r\n")
  {
    WhoisServerTable(WhoisTld(domain));
  }

  /** What the exchange produced within the timeout: the reply text, an I/O error, or nothing in time. */
  datatype WhoisExchange = Reply(text: string) | IoError(detail: string) | TimedOut

  /** A phrase registries use to say no such domain exists (checked on the lower-cased reply). */
  predicate HasNotFoundPhrase(lower: string) {
    Contains(lower, "no match") || Contains(lower, "not found")
    || Contains(lower, "no data found") || Contains(lower, "no entries found")
  }

  /** A field that only appears in a record for a registered domain (checked on the lower-cased reply). */
  predicate HasRegistrationField(lower: string) {
    Contains(lower, "domain name:") || Contains(lower, "registrar:")
  }

  /**
   * The classification of a reply: a not-found phrase anywhere means
   * Available, whatever else the reply holds; otherwise a registration field
   * means Taken; otherwise the reply is ambiguous.
   */
  function ClassifyWhoisReply(text: string): (a: Availability)
    ensures a.Available? <==> HasNotFoundPhrase(Lower(text))
    ensures a.Taken? <==> !HasNotFoundPhrase(Lower(text)) && HasRegistrationField(Lower(text))
    ensures a.Unknown? ==> a.reason == "Ambiguous WHOIS response"
  {
    var lower := Lower(text);
    if HasNotFoundPhrase(lower) then Available
    else if HasRegistrationField(lower) then Taken
    else Unknown("Ambiguous WHOIS response")
  }

  /** The classification does not depend on letter case. */
  lemma ClassifyIgnoresCase(text: string)
    ensures ClassifyWhoisReply(Lower(text)) == ClassifyWhoisReply(text)
  {
    LowerIdempotent(text);
  }

  /** A reply containing both "not found" and "registrar:" is Available: not-found phrases take precedence. */
  lemma NotFoundTakesPrecedence(text: string)
    requires Contains(Lower(text), "not found") && Contains(Lower(text), "registrar:")
    ensures ClassifyWhoisReply(text) == Available
  {
  }

  /** Text around an Available reply cannot change the verdict. */
  lemma AvailableReplyIsStable(before: string, reply: string, after: string)
    requires ClassifyWhoisReply(reply) == Available
    ensures ClassifyWhoisReply(before + reply + after) == Available
  {
    var lower := Lower(reply);
    LowerAppend(before + reply, after);
    LowerAppend(before, reply);
    assert Lower(before + reply + after) == Lower(before) + lower + Lower(after);
    if Contains(lower, "no match") {
      ContainsExtend(Lower(before), lower, Lower(after), "no match");
    } else if Contains(lower, "not found") {
      ContainsExtend(Lower(before), lower, Lower(after), "not found");
    } else if Contains(lower, "no data found") {
      ContainsExtend(Lower(before), lower, Lower(after), "no data found");
    } else {
      ContainsExtend(Lower(before), lower, Lower(after), "no entries found");
    }
  }

  /** `check_whois`, given the outcome of the exchange with the planned server. */
  function CheckWhois(domain: string, x: WhoisExchange): (a: Availability)
    ensures PlanWhois(domain).None? ==> a == Unknown("No WHOIS server for ." + WhoisTld(domain))
    ensures PlanWhois(domain).Some? ==>
              a == match x
                   case Reply(text) => ClassifyWhoisReply(text)
                   case IoError(detail) => Unknown("WHOIS error: " + detail)
                   case TimedOut => Unknown("WHOIS timeout")
  {
    var tld := WhoisTld(domain);
    match WhoisServer(tld)
    case None => Unknown("No WHOIS server for ." + tld)
    case Some(_) =>
      match x
      case Reply(text) => ClassifyWhoisReply(text)
      case IoError(detail) => Unknown("WHOIS error: " + detail)
      case TimedOut => Unknown("WHOIS timeout")
  }

  /** Without a server, nothing is exchanged: the verdict is the same whatever the exchange would have been. */
  lemma NoServerNoExchange(domain: string, x1: WhoisExchange, x2: WhoisExchange)
    requires PlanWhois(domain).None?
    ensures CheckWhois(domain, x1) == CheckWhois(domain, x2)
    ensures CheckWhois(domain, x1).Unknown?
  {
  }

  /** The "Invalid domain" verdict of the source is never produced. */
  lemma InvalidDomainUnreachable(domain: string, x: WhoisExchange)
    ensures CheckWhois(domain, x) != Unknown("Invalid domain")
  {
    var tld := WhoisTld(domain);
    assert ("No WHOIS server for ." + tld)[0] == 'N';
    match x
    case Reply(text) =>
    case IoError(detail) => assert ("WHOIS error: " + detail)[0] == 'W';
    case TimedOut =>
  }

  /** A Verisign-style reply opening with "No match" is Available, whatever follows it (a "Registrar:" line included). */
  lemma NoMatchReplyIsAvailable(rest: string)
    ensures ClassifyWhoisReply("No match" + rest) == Available
  {
    var head := Lower("No match");
    assert LowerChar('N') == 'n';
    assert forall i :: 0 <= i < 8 ==> head[i] == "no match"[i];
    assert OccursAt(head, "no match", 0);
    LowerAppend("No match", rest);
    ContainsExtend([], head, Lower(rest), "no match");
    assert [] + head + Lower(rest) == Lower("No match" + rest);
  }

  /** The lowered record text has the "domain name:" field at its start. */
  lemma RecordReplyHasField(text: string)
    requires text == "Domain Name: EXAMPLE.COM"
    ensures HasRegistrationField(Lower(text))
  {
    var lower := Lower(text);
    assert LowerChar('D') == 'd' && LowerChar('N') == 'n';
    assert forall i :: 0 <= i < 12 ==> lower[i] == "domain name:"[i];
    assert OccursAt(lower, "domain name:", 0);
  }

  /** Every not-found phrase has a `t`, and the lowered record text has none, so it has no not-found phrase. */
  lemma RecordReplyHasNoNotFoundPhrase(text: string)
    requires text == "Domain Name: EXAMPLE.COM"
    ensures !HasNotFoundPhrase(Lower(text))
  {
    var lower := Lower(text);
    LowerMissingChar(text, 't');
    NotContainsMissingChar(lower, "no match", 't');
    NotContainsMissingChar(lower, "not found", 't');
    NotContainsMissingChar(lower, "no data found", 't');
    NotContainsMissingChar(lower, "no entries found", 't');
  }

  /** A worked case: a record with a "Domain Name:" field and no not-found phrase is Taken. */
  lemma RecordReplyIsTaken()
    ensures ClassifyWhoisReply("Domain Name: EXAMPLE.COM") == Taken
  {
    RecordReplyHasField("Domain Name: EXAMPLE.COM");
    RecordReplyHasNoNotFoundPhrase("Domain Name: EXAMPLE.COM");
  }
}
