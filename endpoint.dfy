/**
 * The endpoint registry of librdap-storm: the TLD of a domain, and the table
 * from lower-cased TLD to RDAP base URL built once from the IANA RDAP
 * bootstrap file (section 4 of RFC 9224). The HTTP fetch of that file is an
 * input (`BootstrapFetch`); there is no built-in fallback table.
 */
module Endpoint {
  import opened Wrappers
  import opened Text

  /** `EndpointError`. */
  datatype EndpointError = FetchError(detail: string) | NoEndpoint(tld: string) | InvalidDomain(domain: string)

  /** The `Display` text of each error. */
  function ErrorMessage(e: EndpointError): string {
    match e
    case FetchError(detail) => "Failed to fetch IANA bootstrap: " + detail
    case NoEndpoint(tld) => "No RDAP endpoint found for TLD: " + tld
    case InvalidDomain(domain) => "Invalid domain format: " + domain
  }

  /**
   * `extract_tld`: the lower-cased text after the last dot (all of the domain
   * when it has none); an empty last label is an invalid domain.
   */
  function ExtractTld(domain: string): (r: Result<string, EndpointError>)
    ensures r.Failure? ==> r.error == InvalidDomain(domain)
    ensures r.Success? ==> r.value != [] && |r.value| <= |domain|
  {
    var t := LastLabel(domain);
    if t == [] then Failure(InvalidDomain(domain)) else Success(Lower(t))
  }

  /**
   * `extract_tld` fails, with `InvalidDomain`, exactly when the domain is
   * empty or ends with a dot; otherwise the TLD is non-empty, dot-free and
   * lower case.
   */
  lemma ExtractTldMeaning(domain: string)
    ensures ExtractTld(domain).Failure? <==> (domain == [] || domain[|domain| - 1] == '.')
    ensures ExtractTld(domain).Failure? ==> ExtractTld(domain).error == InvalidDomain(domain)
    ensures ExtractTld(domain).Success? ==>
              var tld := ExtractTld(domain).value;
              tld != [] && '.' !in tld && IsLowercase(tld) && tld == Lower(LastLabel(domain))
  {
    LastLabelEmpty(domain);
    var t := LastLabel(domain);
    assert forall i :: 0 <= i < |t| ==> Lower(t)[i] == LowerChar(t[i]) != '.';
  }

  /** A domain built as `name.tld` from a non-empty, dot-free TLD gives that TLD back, lower-cased. */
  lemma ExtractTldOfJoin(name: string, tld: string)
    requires tld != [] && '.' !in tld
    ensures ExtractTld(name + "." + tld) == Success(Lower(tld))
  {
    LastLabelOfJoin(name, tld);
  }

  /** One entry of the bootstrap file's `services` list: its TLDs and its base URLs. */
  datatype Service = Service(tlds: seq<string>, urls: seq<string>)

  /** The outcome of fetching and parsing the bootstrap file. */
  datatype BootstrapFetch = Fetched(services: seq<Service>) | FetchFailed(detail: string)

  /** The base URL kept for a service: its first URL with every trailing `/` trimmed. */
  function BaseUrl(s: Service): (r: string)
    requires s.urls != []
    ensures |r| <= |s.urls[0]| && r == s.urls[0][..|r|]
    ensures r == [] || r[|r| - 1] != '/'
    ensures forall k :: |r| <= k < |s.urls[0]| ==> s.urls[0][k] == '/'
  {
    TrimEndMatches(s.urls[0], c => c == '/')
  }

  /** Some TLD of `tlds`, lower-cased, is `key`. */
  predicate ListsTld(tlds: seq<string>, key: string) {
    exists i :: 0 <= i < |tlds| && Lower(tlds[i]) == key
  }

  /** A service that puts `key` in the table: it has a URL and lists `key`. */
  predicate Serves(s: Service, key: string) {
    s.urls != [] && ListsTld(s.tlds, key)
  }

  /** The inner loop of `bootstrap`: each TLD, lower-cased, inserted with `base`. */
  function AddTlds(table: map<string, string>, tlds: seq<string>, base: string): (r: map<string, string>)
    ensures table.Keys <= r.Keys
  {
    if tlds == [] then table
    else AddTlds(table, tlds[..|tlds| - 1], base)[Lower(tlds[|tlds| - 1]) := base]
  }

  /** One iteration of the outer loop: a service without a URL adds nothing. */
  function AddService(table: map<string, string>, s: Service): map<string, string> {
    if s.urls == [] then table else AddTlds(table, s.tlds, BaseUrl(s))
  }

  /** The table after processing `services` in order, starting from `table`. */
  function BuildTable(table: map<string, string>, services: seq<Service>): (r: map<string, string>)
    ensures table.Keys <= r.Keys
  {
    if services == [] then table
    else AddService(BuildTable(table, services[..|services| - 1]), services[|services| - 1])
  }

  /** The index of the last service that serves `key`. */
  function LastServing(services: seq<Service>, key: string): (r: Option<nat>)
    ensures r.Some? ==> r.value < |services| && Serves(services[r.value], key)
    ensures r.Some? ==> forall k :: r.value < k < |services| ==> !Serves(services[k], key)
    ensures r.None? <==> forall k :: 0 <= k < |services| ==> !Serves(services[k], key)
  {
    if services == [] then None
    else if Serves(services[|services| - 1], key) then Some(|services| - 1)
    else LastServing(services[..|services| - 1], key)
  }

  /** After inserting the TLDs of one service, a listed key maps to `base` and any other key is untouched. */
  lemma {:induction false} AddTldsGet(table: map<string, string>, tlds: seq<string>, base: string, key: string)
    ensures Get(AddTlds(table, tlds, base), key) == if ListsTld(tlds, key) then Some(base) else Get(table, key)
  {
    if tlds != [] {
      var init := tlds[..|tlds| - 1];
      AddTldsGet(table, init, base, key);
      if Lower(tlds[|tlds| - 1]) != key {
        if ListsTld(tlds, key) {
          var i :| 0 <= i < |tlds| && Lower(tlds[i]) == key;
          assert init[i] == tlds[i];
        }
        if ListsTld(init, key) {
          var i :| 0 <= i < |init| && Lower(init[i]) == key;
          assert tlds[i] == init[i];
        }
      }
    }
  }

  /**
   * The whole table: a key served by some service maps to the base URL of the
   * LAST such service (a later insert replaces an earlier one); any other key
   * keeps whatever the starting table had.
   */
  lemma {:induction false} BuildTableGet(table: map<string, string>, services: seq<Service>, key: string)
    ensures Get(BuildTable(table, services), key) ==
              match LastServing(services, key)
              case Some(j) => Some(BaseUrl(services[j]))
              case None => Get(table, key)
  {
    if services != [] {
      var n := |services| - 1;
      var init := services[..n];
      BuildTableGet(table, init, key);
      var last := services[n];
      if last.urls != [] {
        AddTldsGet(BuildTable(table, init), last.tlds, BaseUrl(last), key);
      }
      if !Serves(last, key) {
        assert LastServing(services, key) == LastServing(init, key);
      }
    }
  }

  /** `get_endpoint`'s lookup: the TLD is lower-cased before the table is consulted. */
  function Lookup(endpoints: map<string, string>, tld: string): Option<string> {
    Get(endpoints, Lower(tld))
  }

  /** Lookups of two spellings that differ only in ASCII case agree. */
  lemma LookupIgnoresCase(endpoints: map<string, string>, a: string, b: string)
    requires EqIgnoreAsciiCase(a, b)
    ensures Lookup(endpoints, a) == Lookup(endpoints, b)
  {
  }

  /**
   * After bootstrapping an empty registry from `services`, a TLD (in any case)
   * finds the trimmed first URL of the last service listing it, and nothing
   * when no service with a URL lists it.
   */
  lemma LookupAfterBuild(services: seq<Service>, tld: string)
    ensures Lookup(BuildTable(map[], services), tld) ==
              match LastServing(services, Lower(tld))
              case Some(j) => Some(BaseUrl(services[j]))
              case None => None
  {
    BuildTableGet(map[], services, Lower(tld));
  }

  /**
   * A worked case: the later `com` service wins over the earlier `COM` one,
   * a service without URLs adds nothing, and both trailing slashes go.
   */
  lemma LaterServiceWins()
    ensures var services := [Service(["COM"], ["https://a.example/"]),
                             Service(["com"], []),
                             Service(["com"], ["https://b.example//"])];
            Lookup(BuildTable(map[], services), "Com") == Some("https://b.example")
  {
    var services := [Service(["COM"], ["https://a.example/"]),
                     Service(["com"], []),
                     Service(["com"], ["https://b.example//"])];
    LookupAfterBuild(services, "Com");
    LowerCom();
    assert Serves(services[2], "com") by {
      LowerIsLowercase("com");
      LowerOfLowercase("com");
    }
    BaseUrlDropsSlashes(services[2]);
  }

  lemma LowerCom()
    ensures Lower("Com") == "com"
  {
    assert Lower("Com")[0] == 'c';
  }

  lemma BaseUrlDropsSlashes(s: Service)
    requires s.urls == ["https://b.example//"]
    ensures BaseUrl(s) == "https://b.example"
  {
    var u := s.urls[0];
    var r := BaseUrl(s);
    assert |u| == 19 && u[16] == 'e' && u[17] == '/' && u[18] == '/';
    assert |r| == 17;
    assert u[..17] == "https://b.example";
  }

  /** What one call of `bootstrap` returns and leaves in the registry. */
  datatype BootstrapStep = BootstrapStep(result: Outcome<EndpointError>, endpoints: map<string, string>, bootstrapped: bool)

  /**
   * `bootstrap` as a function of the registry's state and the fetch: nothing
   * happens once the flag is set; a failed fetch returns its error before any
   * insert and before the flag is set; otherwise the services are added and
   * the flag is set.
   */
  function BootstrapSpec(bootstrapped: bool, endpoints: map<string, string>, fetch: BootstrapFetch): BootstrapStep {
    if bootstrapped then BootstrapStep(Pass, endpoints, true)
    else match fetch
      case FetchFailed(detail) => BootstrapStep(Fail(FetchError(detail)), endpoints, false)
      case Fetched(services) => BootstrapStep(Pass, BuildTable(endpoints, services), true)
  }

  /** Once the flag is set, `bootstrap` succeeds and changes nothing, whatever a fetch would give. */
  lemma BootstrapRunsOnce(endpoints: map<string, string>, fetch: BootstrapFetch)
    ensures BootstrapSpec(true, endpoints, fetch) == BootstrapStep(Pass, endpoints, true)
  {
  }

  /** A successful bootstrap followed by any further call: the second call is a no-op. */
  lemma BootstrapIdempotent(endpoints: map<string, string>, first: BootstrapFetch, second: BootstrapFetch)
    requires first.Fetched?
    ensures var s1 := BootstrapSpec(false, endpoints, first);
            BootstrapSpec(s1.bootstrapped, s1.endpoints, second) == BootstrapStep(Pass, s1.endpoints, true)
  {
  }

  /** A failed fetch leaves table and flag as they were, so the next call retries from scratch. */
  lemma FailedBootstrapRetries(endpoints: map<string, string>, failed: BootstrapFetch, retry: BootstrapFetch)
    requires failed.FetchFailed?
    ensures var s1 := BootstrapSpec(false, endpoints, failed);
            s1.result == Fail(FetchError(failed.detail)) && s1.endpoints == endpoints && !s1.bootstrapped
            && BootstrapSpec(s1.bootstrapped, s1.endpoints, retry) == BootstrapSpec(false, endpoints, retry)
  {
  }

  /** `EndpointRegistry`: the TLD table and the once-only flag, both updated in place. */
  class EndpointRegistry {
    var endpoints: map<string, string>
    var bootstrapped: bool

    /** `EndpointRegistry::new`. */
    constructor ()
      ensures endpoints == map[] && !bootstrapped
    {
      endpoints := map[];
      bootstrapped := false;
    }

    /** `EndpointRegistry::bootstrap`, with the fetched and parsed file as `fetch`. */
    method Bootstrap(fetch: BootstrapFetch) returns (r: Outcome<EndpointError>)
      modifies this
      ensures BootstrapStep(r, endpoints, bootstrapped) == BootstrapSpec(old(bootstrapped), old(endpoints), fetch)
    {
      if bootstrapped {
        return Pass;
      }
      match fetch
      case FetchFailed(detail) =>
        return Fail(FetchError(detail));
      case Fetched(services) =>
        var i := 0;
        while i < |services|
          invariant 0 <= i <= |services|
          invariant endpoints == BuildTable(old(endpoints), services[..i])
        {
          var s := services[i];
          if s.urls != [] {
            var base := TrimEndMatches(s.urls[0], c => c == '/');
            ghost var before := endpoints;
            var j := 0;
            while j < |s.tlds|
              invariant 0 <= j <= |s.tlds|
              invariant endpoints == AddTlds(before, s.tlds[..j], base)
            {
              endpoints := endpoints[Lower(s.tlds[j]) := base];
              assert s.tlds[..j + 1][..j] == s.tlds[..j];
              j := j + 1;
            }
            assert s.tlds[..j] == s.tlds;
          }
          assert services[..i + 1][..i] == services[..i];
          i := i + 1;
        }
        assert services[..i] == services;
        bootstrapped := true;
        return Pass;
    }

    /** `EndpointRegistry::get_endpoint`. */
    function GetEndpoint(tld: string): (r: Option<string>)
      reads this
      ensures r.Some? <==> Lower(tld) in endpoints
      ensures r.Some? ==> r.value == endpoints[Lower(tld)]
    {
      Lookup(endpoints, tld)
    }
  }
}
