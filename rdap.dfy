/**
 * `check_rdap`: the RDAP domain query URL and the classification of its
 * outcome. The GET itself and its timeout are an input (`HttpExchange`).
 */
module Rdap {
  import opened Text
  import opened Types

  /** An HTTP status code as the client represents it: 100 to 999. */
  type StatusCode = n: nat | 100 <= n <= 999 witness 200

  /** What the GET produced within the timeout: a response, a transport error, or nothing in time. */
  datatype HttpExchange = Response(status: StatusCode) | RequestFailed(detail: string) | TimedOut

  /**
   * The domain lookup URL of section 3.1.3 of RFC 9082: the base URL, then
   * `/domain/`, then the domain, concatenated verbatim (nothing is escaped).
   */
  function DomainUrl(endpoint: string, domain: string): (url: string)
    ensures |url| == |endpoint| + 8 + |domain|
    ensures url[..|endpoint|] == endpoint
    ensures url[|endpoint|..|endpoint| + 8] == "/domain/"
    ensures url[|endpoint| + 8..] == domain
  {
    endpoint + "/domain/" + domain
  }

  /** For one endpoint, the URL determines the domain. */
  lemma DomainUrlInjective(endpoint: string, d1: string, d2: string)
    requires DomainUrl(endpoint, d1) == DomainUrl(endpoint, d2)
    ensures d1 == d2
  {
    assert d1 == DomainUrl(endpoint, d1)[|endpoint| + 8..];
  }

  /**
   * `check_rdap`'s verdict: 404 is the negative answer of section 5.3 of
   * RFC 7480 and means Available; 200 means Taken; 429 (section 5.5 of
   * RFC 7480) and every other status, a transport error or a timeout leave
   * the question open.
   */
  function ClassifyRdap(x: HttpExchange): (a: Availability)
    ensures a.Available? <==> x == Response(404)
    ensures a.Taken? <==> x == Response(200)
    ensures x == Response(429) ==> a == Unknown("Rate limited")
    ensures x.Response? && x.status != 200 && x.status != 404 && x.status != 429 ==>
              a == Unknown("HTTP " + NatToString(x.status))
    ensures x.RequestFailed? ==> a == Unknown("Request failed: " + x.detail)
    ensures x.TimedOut? ==> a == Unknown("Timeout")
  {
    match x
    case Response(status) =>
      if status == 404 then Available
      else if status == 200 then Taken
      else if status == 429 then Unknown("Rate limited")
      else Unknown("HTTP " + NatToString(status))
    case RequestFailed(detail) => Unknown("Request failed: " + detail)
    case TimedOut => Unknown("Timeout")
  }

  /** Redirects and server errors are never a definitive answer. */
  lemma RedirectsAndServerErrorsInconclusive(status: StatusCode)
    requires 300 <= status < 400 || 500 <= status < 600
    ensures ClassifyRdap(Response(status)).Unknown?
  {
  }

  /** The reason of an inconclusive status names that status: different statuses give different verdicts. */
  lemma InconclusiveReasonNamesStatus(s1: StatusCode, s2: StatusCode)
    requires ClassifyRdap(Response(s1)).Unknown? && ClassifyRdap(Response(s2)).Unknown?
    requires ClassifyRdap(Response(s1)) == ClassifyRdap(Response(s2))
    ensures s1 == s2
  {
    var p := "HTTP ";
    assert (p + NatToString(s1))[0] == 'H' && (p + NatToString(s2))[0] == 'H';
    if s1 != 429 && s2 != 429 {
      var r1, r2 := p + NatToString(s1), p + NatToString(s2);
      assert NatToString(s1) == r1[5..] == r2[5..] == NatToString(s2);
      NatToStringInjective(s1, s2);
    }
  }
}
