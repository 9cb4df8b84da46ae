/**
 * `Prober::probe_one` and `Prober::probe_stream`. The network answers a
 * probe would receive are an input (`Network`); what the probe does with
 * the outside world is recorded as a trace of `Effect`s, so the order of
 * the bootstrap fetch, the rate-limit permit, the RDAP GET and the WHOIS
 * connection can be stated and proved.
 */
module Prober {
  import opened Wrappers
  import opened Text
  import opened Types
  import opened Endpoint
  import opened Rdap
  import opened Whois

  /** An interaction of a probe with the outside world. */
  datatype Effect =
    | FetchBootstrap                    // the GET of the IANA bootstrap file inside `bootstrap`
    | AcquirePermit(endpoint: string)   // `rate_limiters.acquire(&endpoint)`
    | RdapGet(url: string)              // the GET inside `check_rdap`
    | WhoisConnect(request: WhoisRequest) // the TCP exchange inside `check_whois`

  /** The answers the network gives one probe, should the probe ask. */
  datatype Network = Network(fetch: BootstrapFetch, rdap: HttpExchange, whois: WhoisExchange)

  /** A probe's result with the trace of what it did to obtain it. */
  datatype Probe = Probe(result: ProbeResult, effects: seq<Effect>)

  predicate CallsRdap(effects: seq<Effect>) {
    exists i :: 0 <= i < |effects| && effects[i].RdapGet?
  }

  predicate ConnectsWhois(effects: seq<Effect>) {
    exists i :: 0 <= i < |effects| && effects[i].WhoisConnect?
  }

  predicate AcquiresPermit(effects: seq<Effect>) {
    exists i :: 0 <= i < |effects| && effects[i].AcquirePermit?
  }

  /** Every RDAP GET for `domain` comes right after the permit of the endpoint it is sent to. */
  predicate PermitBeforeEachGet(effects: seq<Effect>, domain: string) {
    forall i :: 0 <= i < |effects| && effects[i].RdapGet? ==>
      i > 0 && effects[i - 1].AcquirePermit? && effects[i].url == DomainUrl(effects[i - 1].endpoint, domain)
  }

  /** What `check_whois` does with the outside world: one connection to the planned server, or none. */
  function WhoisEffects(domain: string): (r: seq<Effect>)
    ensures PlanWhois(domain).None? ==> r == []
    ensures PlanWhois(domain).Some? ==> r == [WhoisConnect(PlanWhois(domain).value)]
  {
    match PlanWhois(domain)
    case None => []
    case Some(q) => [WhoisConnect(q)]
  }

  /** The WHOIS fallback: its verdict and its trace. */
  function WhoisProbe(domain: string, pre: seq<Effect>, x: WhoisExchange): Probe {
    Probe(ProbeResult(domain, CheckWhois(domain, x)), pre + WhoisEffects(domain))
  }

  /** The tail of the chain once an endpoint was found: permit, GET, then WHOIS only on an inconclusive answer. */
  function QueryEndpoint(config: ProbeConfig, endpoint: string, domain: string, net: Network): (p: Probe)
    ensures p.result.domain == domain
    ensures |p.effects| >= 2 && p.effects[..2] == [AcquirePermit(endpoint), RdapGet(DomainUrl(endpoint, domain))]
    ensures p.effects[2..] == [] || p.effects[2..] == WhoisEffects(domain)
    ensures p.effects[2..] != [] ==> config.whoisFallback
  {
    var pre := [AcquirePermit(endpoint), RdapGet(DomainUrl(endpoint, domain))];
    var a := ClassifyRdap(net.rdap);
    if a.Unknown? && config.whoisFallback then WhoisProbe(domain, pre, net.whois)
    else Probe(ProbeResult(domain, a), pre)
  }

  /** The chain once the TLD is known: look the endpoint up, or fall back when there is none. */
  function QueryTld(config: ProbeConfig, endpoints: map<string, string>, tld: string, domain: string, net: Network): (p: Probe)
    ensures p.result.domain == domain
    ensures Lookup(endpoints, tld).Some? ==> p == QueryEndpoint(config, Lookup(endpoints, tld).value, domain, net)
    ensures Lookup(endpoints, tld).None? ==> p.effects == [] || (config.whoisFallback && p.effects == WhoisEffects(domain))
  {
    match Lookup(endpoints, tld)
    case None =>
      if config.whoisFallback then WhoisProbe(domain, [], net.whois)
      else Probe(ProbeResult(domain, Unknown("No RDAP endpoint for ." + tld)), [])
    case Some(endpoint) => QueryEndpoint(config, endpoint, domain, net)
  }

  /**
   * The decision chain of `probe_one` after `ensure_bootstrapped` returned
   * `boot`, with `endpoints` the registry's table at that point.
   */
  function Decide(config: ProbeConfig, boot: Outcome<EndpointError>, endpoints: map<string, string>,
                  domain: string, net: Network): (p: Probe)
    ensures p.result.domain == domain
    ensures boot.Fail? || ExtractTld(domain).Failure? ==> p.effects == []
  {
    match boot
    case Fail(e) => Probe(ProbeResult(domain, Unknown("Bootstrap failed: " + ErrorMessage(e))), [])
    case Pass =>
      match ExtractTld(domain)
      case Failure(e) => Probe(ProbeResult(domain, Unknown(ErrorMessage(e))), [])
      case Success(tld) => QueryTld(config, endpoints, tld, domain, net)
  }

  /** The three ordering facts of a trace, for one domain. */
  predicate WellOrdered(effects: seq<Effect>, domain: string, whoisFallback: bool) {
    (ConnectsWhois(effects) ==> whoisFallback)
    && (CallsRdap(effects) ==> AcquiresPermit(effects))
    && PermitBeforeEachGet(effects, domain)
  }

  lemma QueryEndpointWellOrdered(config: ProbeConfig, endpoint: string, domain: string, net: Network)
    ensures WellOrdered(QueryEndpoint(config, endpoint, domain, net).effects, domain, config.whoisFallback)
  {
    var e := QueryEndpoint(config, endpoint, domain, net).effects;
    assert e[..2] == [AcquirePermit(endpoint), RdapGet(DomainUrl(endpoint, domain))];
    WhoisEffectsConnect(domain);
    forall i | 2 <= i < |e| ensures e[i].WhoisConnect? {
      assert e[i] == e[2..][i - 2];
    }
    PermitThenGetWellOrdered(e, endpoint, domain, config.whoisFallback);
  }

  /** The WHOIS part of a trace holds connections only. */
  lemma WhoisEffectsConnect(domain: string)
    ensures forall i :: 0 <= i < |WhoisEffects(domain)| ==> WhoisEffects(domain)[i].WhoisConnect?
  {
  }

  /** A trace of the permit, the GET to that endpoint, then WHOIS connections only when fallback is on, is well ordered. */
  lemma PermitThenGetWellOrdered(e: seq<Effect>, endpoint: string, domain: string, fallback: bool)
    requires |e| >= 2 && e[..2] == [AcquirePermit(endpoint), RdapGet(DomainUrl(endpoint, domain))]
    requires forall i :: 2 <= i < |e| ==> e[i].WhoisConnect?
    requires |e| > 2 ==> fallback
    ensures WellOrdered(e, domain, fallback)
  {
    assert e[0] == e[..2][0] && e[1] == e[..2][1];
    if ConnectsWhois(e) {
      var i :| 0 <= i < |e| && e[i].WhoisConnect?;
      assert i >= 2;
    }
  }

  /** On every path, WHOIS is only contacted with fallback on, and every RDAP GET follows the permit of its endpoint. */
  lemma DecideEffectsOrdered(config: ProbeConfig, boot: Outcome<EndpointError>, endpoints: map<string, string>,
                             domain: string, net: Network)
    ensures WellOrdered(Decide(config, boot, endpoints, domain, net).effects, domain, config.whoisFallback)
  {
    match boot
    case Fail(_) =>
    case Pass =>
      match ExtractTld(domain)
      case Failure(_) =>
      case Success(tld) =>
        match Lookup(endpoints, tld)
        case None =>
          WhoisOnlyWellOrdered(config, domain, net);
        case Some(endpoint) =>
          QueryEndpointWellOrdered(config, endpoint, domain, net);
  }

  /** The fallback taken without an endpoint sends no RDAP request. */
  lemma WhoisOnlyWellOrdered(config: ProbeConfig, domain: string, net: Network)
    ensures config.whoisFallback ==>
              WellOrdered(WhoisProbe(domain, [], net.whois).effects, domain, config.whoisFallback)
  {
    var e := WhoisProbe(domain, [], net.whois).effects;
    assert e == WhoisEffects(domain);
  }

  /** One call of `probe_one`: the probe and the registry it leaves. */
  datatype ProbeStep = ProbeStep(probe: Probe, endpoints: map<string, string>, bootstrapped: bool)

  /** `probe_one` from the registry's state: bootstrap (fetching only while the flag is unset), then decide. */
  function ProbeOneSpec(config: ProbeConfig, bootstrapped: bool, endpoints: map<string, string>,
                        domain: string, net: Network): (s: ProbeStep)
    ensures s.probe.result.domain == domain
    ensures bootstrapped ==> s.bootstrapped && s.endpoints == endpoints
  {
    var b := BootstrapSpec(bootstrapped, endpoints, net.fetch);
    var p := Decide(config, b.result, b.endpoints, domain, net);
    var fetched := if bootstrapped then [] else [FetchBootstrap];
    ProbeStep(Probe(p.result, fetched + p.effects), b.endpoints, b.bootstrapped)
  }

  /** A failed bootstrap: Unknown "Bootstrap failed: …", no RDAP or WHOIS attempt, the registry as it was. */
  lemma BootstrapFailureShortCircuits(config: ProbeConfig, endpoints: map<string, string>, domain: string, net: Network)
    requires net.fetch.FetchFailed?
    ensures var s := ProbeOneSpec(config, false, endpoints, domain, net);
            s.probe.result == ProbeResult(domain, Unknown("Bootstrap failed: " + ("Failed to fetch IANA bootstrap: " + net.fetch.detail)))
            && s.probe.effects == [FetchBootstrap]
            && s.endpoints == endpoints && !s.bootstrapped
  {
  }

  /** A domain without a TLD is Unknown with the extraction error's message, and nothing is sent. */
  lemma InvalidTldIsUnknown(config: ProbeConfig, endpoints: map<string, string>, domain: string, net: Network)
    requires domain == [] || domain[|domain| - 1] == '.'
    ensures Decide(config, Pass, endpoints, domain, net)
            == Probe(ProbeResult(domain, Unknown("Invalid domain format: " + domain)), [])
  {
    ExtractTldMeaning(domain);
  }

  /** No endpoint and fallback on: exactly the WHOIS verdict, with no permit and no RDAP GET. */
  lemma NoEndpointFallsBackToWhois(config: ProbeConfig, endpoints: map<string, string>, domain: string, net: Network)
    requires ExtractTld(domain).Success? && Lookup(endpoints, ExtractTld(domain).value).None?
    requires config.whoisFallback
    ensures var p := Decide(config, Pass, endpoints, domain, net);
            p.result.availability == CheckWhois(domain, net.whois)
            && p.effects == WhoisEffects(domain)
            && !AcquiresPermit(p.effects) && !CallsRdap(p.effects)
  {
  }

  /** No endpoint and fallback off: Unknown "No RDAP endpoint for .<tld>", and nothing is sent. */
  lemma NoEndpointWithoutFallback(config: ProbeConfig, endpoints: map<string, string>, domain: string, net: Network)
    requires ExtractTld(domain).Success? && Lookup(endpoints, ExtractTld(domain).value).None?
    requires !config.whoisFallback
    ensures Decide(config, Pass, endpoints, domain, net)
            == Probe(ProbeResult(domain, Unknown("No RDAP endpoint for ." + ExtractTld(domain).value)), [])
  {
  }

  /** With an endpoint, the trace opens with that endpoint's permit and then the GET of the domain's URL. */
  lemma EndpointIsQueried(config: ProbeConfig, endpoints: map<string, string>, domain: string, net: Network)
    requires ExtractTld(domain).Success? && Lookup(endpoints, ExtractTld(domain).value).Some?
    ensures var endpoint := Lookup(endpoints, ExtractTld(domain).value).value;
            var p := Decide(config, Pass, endpoints, domain, net);
            |p.effects| >= 2 && p.effects[..2] == [AcquirePermit(endpoint), RdapGet(DomainUrl(endpoint, domain))]
  {
  }

  /** A definitive RDAP verdict is returned unchanged, and WHOIS is not consulted. */
  lemma DefinitiveRdapVerdictStands(config: ProbeConfig, endpoints: map<string, string>, domain: string, net: Network)
    requires ExtractTld(domain).Success? && Lookup(endpoints, ExtractTld(domain).value).Some?
    requires !ClassifyRdap(net.rdap).Unknown?
    ensures var p := Decide(config, Pass, endpoints, domain, net);
            p.result.availability == ClassifyRdap(net.rdap) && |p.effects| == 2 && !ConnectsWhois(p.effects)
  {
  }

  /** An inconclusive RDAP answer with fallback on: the verdict is WHOIS's. */
  lemma InconclusiveRdapFallsBackToWhois(config: ProbeConfig, endpoints: map<string, string>, domain: string, net: Network)
    requires ExtractTld(domain).Success? && Lookup(endpoints, ExtractTld(domain).value).Some?
    requires ClassifyRdap(net.rdap).Unknown? && config.whoisFallback
    ensures var p := Decide(config, Pass, endpoints, domain, net);
            p.result.availability == CheckWhois(domain, net.whois) && p.effects[2..] == WhoisEffects(domain)
  {
  }

  /** An inconclusive RDAP answer with fallback off is returned as it is. */
  lemma InconclusiveRdapWithoutFallback(config: ProbeConfig, endpoints: map<string, string>, domain: string, net: Network)
    requires ExtractTld(domain).Success? && Lookup(endpoints, ExtractTld(domain).value).Some?
    requires !config.whoisFallback
    ensures Decide(config, Pass, endpoints, domain, net).result.availability == ClassifyRdap(net.rdap)
  {
  }

  /** `probe_stream` run one probe after another: the results and the registry left at the end. */
  datatype StreamStep = StreamStep(results: seq<ProbeResult>, endpoints: map<string, string>, bootstrapped: bool)

  /**
   * The probes of `domains` in input order, the i-th receiving `net(i)`;
   * one result per domain, carrying that domain.
   */
  function RunProbes(config: ProbeConfig, bootstrapped: bool, endpoints: map<string, string>,
                     domains: seq<string>, net: nat -> Network): (s: StreamStep)
    ensures |s.results| == |domains|
    ensures bootstrapped ==> s.bootstrapped && s.endpoints == endpoints
    decreases |domains|
  {
    if domains == [] then StreamStep([], endpoints, bootstrapped)
    else
      var n := |domains| - 1;
      var before := RunProbes(config, bootstrapped, endpoints, domains[..n], net);
      var step := ProbeOneSpec(config, before.bootstrapped, before.endpoints, domains[n], net(n));
      ProbeAfterBootstrap(config, before.endpoints, domains[n], net(n));
      StreamStep(before.results + [step.probe.result], step.endpoints, step.bootstrapped)
  }

  lemma ProbeOneKeepsDomain(config: ProbeConfig, bootstrapped: bool, endpoints: map<string, string>,
                            domain: string, net: Network)
    ensures ProbeOneSpec(config, bootstrapped, endpoints, domain, net).probe.result.domain == domain
  {
  }

  function Domains(results: seq<ProbeResult>): (r: seq<string>)
    ensures |r| == |results| && forall i :: 0 <= i < |r| ==> r[i] == results[i].domain
  {
    seq(|results|, i requires 0 <= i < |results| => results[i].domain)
  }

  /** The i-th result carries the i-th domain. */
  lemma {:induction false} RunProbesDomain(config: ProbeConfig, bootstrapped: bool, endpoints: map<string, string>,
                                           domains: seq<string>, net: nat -> Network, i: nat)
    requires i < |domains|
    ensures RunProbes(config, bootstrapped, endpoints, domains, net).results[i].domain == domains[i]
  {
    var n := |domains| - 1;
    var before := RunProbes(config, bootstrapped, endpoints, domains[..n], net);
    if i == n {
      ProbeOneKeepsDomain(config, before.bootstrapped, before.endpoints, domains[n], net(n));
    } else {
      RunProbesDomain(config, bootstrapped, endpoints, domains[..n], net, i);
    }
  }

  /** Every input domain is probed exactly once: the result domains are the inputs, as a multiset too. */
  lemma StreamProbesEachDomainOnce(config: ProbeConfig, bootstrapped: bool, endpoints: map<string, string>,
                                   domains: seq<string>, net: nat -> Network)
    ensures var s := RunProbes(config, bootstrapped, endpoints, domains, net);
            Domains(s.results) == domains && multiset(Domains(s.results)) == multiset(domains)
  {
    var s := RunProbes(config, bootstrapped, endpoints, domains, net);
    forall i | 0 <= i < |domains| ensures Domains(s.results)[i] == domains[i] {
      RunProbesDomain(config, bootstrapped, endpoints, domains, net, i);
    }
  }

  lemma QueryEndpointNeverFetches(config: ProbeConfig, endpoint: string, domain: string, net: Network)
    ensures FetchBootstrap !in QueryEndpoint(config, endpoint, domain, net).effects
  {
    var pre := [AcquirePermit(endpoint), RdapGet(DomainUrl(endpoint, domain))];
    assert FetchBootstrap !in pre + WhoisEffects(domain);
  }

  /** The decision chain itself never fetches the bootstrap file. */
  lemma DecideNeverFetches(config: ProbeConfig, boot: Outcome<EndpointError>, endpoints: map<string, string>,
                           domain: string, net: Network)
    ensures FetchBootstrap !in Decide(config, boot, endpoints, domain, net).effects
  {
    match boot
    case Fail(_) =>
    case Pass =>
      match ExtractTld(domain)
      case Failure(_) =>
      case Success(tld) =>
        match Lookup(endpoints, tld)
        case None =>
          assert FetchBootstrap !in [] + WhoisEffects(domain);
        case Some(endpoint) =>
          QueryEndpointNeverFetches(config, endpoint, domain, net);
  }

  /** A probe on a bootstrapped registry neither fetches nor changes the table. */
  lemma ProbeAfterBootstrap(config: ProbeConfig, endpoints: map<string, string>, domain: string, net: Network)
    ensures var step := ProbeOneSpec(config, true, endpoints, domain, net);
            step.endpoints == endpoints && step.bootstrapped && FetchBootstrap !in step.probe.effects
  {
    var p := Decide(config, Pass, endpoints, domain, net);
    DecideNeverFetches(config, Pass, endpoints, domain, net);
    assert ProbeOneSpec(config, true, endpoints, domain, net).probe.effects == [] + p.effects;
  }

  /** Once a bootstrap has succeeded, a later stream never fetches again and never changes the table. */
  lemma StreamAfterBootstrapKeepsTable(config: ProbeConfig, endpoints: map<string, string>,
                                       domains: seq<string>, net: nat -> Network, i: nat)
    requires i < |domains|
    ensures var before := RunProbes(config, true, endpoints, domains[..i], net);
            var step := ProbeOneSpec(config, before.bootstrapped, before.endpoints, domains[i], net(i));
            step.endpoints == endpoints && FetchBootstrap !in step.probe.effects
  {
    ProbeAfterBootstrap(config, endpoints, domains[i], net(i));
  }

  /** `Prober`: its configuration and the endpoint registry it shares between probes. */
  class Prober {
    const config: ProbeConfig
    const registry: EndpointRegistry

    /** `Prober::with_config`. */
    constructor WithConfig(config: ProbeConfig)
      ensures this.config == config
      ensures fresh(registry) && registry.endpoints == map[] && !registry.bootstrapped
    {
      this.config := config;
      registry := new EndpointRegistry();
    }

    /** `Prober::new`: the default configuration. */
    constructor ()
      ensures config == DefaultConfig()
      ensures fresh(registry) && registry.endpoints == map[] && !registry.bootstrapped
    {
      config := DefaultConfig();
      registry := new EndpointRegistry();
    }

    /** `Prober::ensure_bootstrapped`. */
    method EnsureBootstrapped(fetch: BootstrapFetch) returns (r: Outcome<EndpointError>)
      modifies registry
      ensures BootstrapStep(r, registry.endpoints, registry.bootstrapped)
              == BootstrapSpec(old(registry.bootstrapped), old(registry.endpoints), fetch)
    {
      r := registry.Bootstrap(fetch);
    }

    /** `Prober::probe_one`, with the network's answers `net`; `effects` is what it did, in order. */
    method ProbeOne(domain: string, net: Network) returns (result: ProbeResult, effects: seq<Effect>)
      modifies registry
      ensures var s := ProbeOneSpec(config, old(registry.bootstrapped), old(registry.endpoints), domain, net);
              Probe(result, effects) == s.probe
              && registry.endpoints == s.endpoints && registry.bootstrapped == s.bootstrapped
    {
      effects := if registry.bootstrapped then [] else [FetchBootstrap];
      var boot := EnsureBootstrapped(net.fetch);
      if boot.Fail? {
        return ProbeResult(domain, Unknown("Bootstrap failed: " + ErrorMessage(boot.error))), effects;
      }

      var tld;
      match ExtractTld(domain) {
        case Failure(e) =>
          assert effects == effects + [];
          return ProbeResult(domain, Unknown(ErrorMessage(e))), effects;
        case Success(t) =>
          tld := t;
      }

      var rest;
      result, rest := ProbeTld(tld, domain, net);
      effects := effects + rest;
    }

    /** `probe_one` from the endpoint lookup on: the permit, the RDAP query and the WHOIS fallback. */
    method ProbeTld(tld: string, domain: string, net: Network) returns (result: ProbeResult, effects: seq<Effect>)
      ensures Probe(result, effects) == QueryTld(config, registry.endpoints, tld, domain, net)
    {
      var found := registry.GetEndpoint(tld);
      if found.None? {
        if config.whoisFallback {
          var availability := CheckWhois(domain, net.whois);
          assert WhoisEffects(domain) == [] + WhoisEffects(domain);
          return ProbeResult(domain, availability), WhoisEffects(domain);
        }
        return ProbeResult(domain, Unknown("No RDAP endpoint for ." + tld)), [];
      }
      var endpoint := found.value;
      effects := [AcquirePermit(endpoint), RdapGet(DomainUrl(endpoint, domain))];
      var availability := ClassifyRdap(net.rdap);
      if availability.Unknown? && config.whoisFallback {
        return ProbeResult(domain, CheckWhois(domain, net.whois)), effects + WhoisEffects(domain);
      }
      result := ProbeResult(domain, availability);
    }

    /**
     * `Prober::probe_stream`, one probe after another in input order; the
     * i-th probe receives `net(i)`.
     */
    method ProbeStream(domains: seq<string>, net: nat -> Network) returns (results: seq<ProbeResult>)
      modifies registry
      ensures StreamStep(results, registry.endpoints, registry.bootstrapped)
              == RunProbes(config, old(registry.bootstrapped), old(registry.endpoints), domains, net)
    {
      results := [];
      var i := 0;
      while i < |domains|
        invariant 0 <= i <= |domains|
        invariant StreamStep(results, registry.endpoints, registry.bootstrapped)
                  == RunProbes(config, old(registry.bootstrapped), old(registry.endpoints), domains[..i], net)
      {
        assert domains[..i + 1][..i] == domains[..i];
        var result, _ := ProbeOne(domains[i], net(i));
        results := results + [result];
        i := i + 1;
      }
      assert domains[..i] == domains;
    }
  }
}
