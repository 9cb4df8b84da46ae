/**
 * The `dq` command line (`main.rs`): which TLDs are checked for a query,
 * the probe configuration it uses, and the record it writes for each
 * result in NDJSON mode.
 */
module Cli {
  import opened Wrappers
  import opened Text
  import opened Seqs
  import opened Tlds
  import opened TldSort
  import opened TldPolicy
  import Types
  import Prober

  /** Where the TLD list comes from: the `--tlds` option, or the IANA list download. */
  datatype TldSource = UserTlds(list: seq<string>) | IanaList(fetch: TextFetch)

  /** The list before sorting: the user's, the downloaded one, or the built-in list when the download fails. */
  function ListedTlds(source: TldSource): (r: seq<string>)
    ensures source.IanaList? && source.fetch.TransportError? ==> r == PriorityTlds
    ensures source.IanaList? && source.fetch.Body? ==> r == ParseTldList(source.fetch.text)
  {
    match source
    case UserTlds(list) => list
    case IanaList(fetch) =>
      match FetchIanaTlds(fetch)
      case Success(list) => list
      case Failure(_) => PriorityTlds
  }

  /** `default_tlds`: the listed TLDs sorted, then the always/never configuration applied. */
  function DefaultTlds(source: TldSource, config: TldConfig): seq<string> {
    ApplyConfig(SortTldsWithPriority(ListedTlds(source)), config)
  }

  /** The TLDs checked for a query: the query's own TLD moved first, unless the user listed the TLDs. */
  function ChosenTlds(source: TldSource, config: TldConfig, query: string): (r: seq<string>)
    ensures |r| == |DefaultTlds(source, config)|
  {
    var extracted := ParseDomainQuery(query).1;
    if source.UserTlds? || extracted.None? then DefaultTlds(source, config)
    else Prioritized(DefaultTlds(source, config), extracted.value)
  }

  /** The list selection of `main` for a given query. */
  method ChooseTlds(source: TldSource, config: TldConfig, query: string)
    returns (base: string, extracted: Option<string>, tlds: seq<string>)
    ensures (base, extracted) == ParseDomainQuery(query)
    ensures tlds == ChosenTlds(source, config, query)
  {
    var listed := ListedTlds(source);
    var defaults := ApplyConfigToTlds(SortTldsWithPriority(listed), config);
    var parsed := ParseDomainQuery(query);
    base, extracted := parsed.0, parsed.1;
    if source.UserTlds? || extracted.None? {
      tlds := defaults;
    } else {
      tlds := PrioritizeTld(defaults, extracted.value);
    }
  }

  /** The query only reorders the list: the same TLDs are checked, and a user-given list keeps its order. */
  lemma ChosenTldsPermuteDefaults(source: TldSource, config: TldConfig, query: string)
    ensures multiset(ChosenTlds(source, config, query)) == multiset(DefaultTlds(source, config))
    ensures source.UserTlds? ==> ChosenTlds(source, config, query) == DefaultTlds(source, config)
  {
    var extracted := ParseDomainQuery(query).1;
    if !source.UserTlds? && extracted.Some? {
      PrioritizedPermutation(DefaultTlds(source, config), extracted.value);
    }
  }

  /**
   * A query such as `name.tld` against the downloaded list puts that TLD
   * first whenever the configuration's `always` list names it, even when
   * `never` names it too.
   */
  lemma QueriedAlwaysTldFirst(fetch: TextFetch, config: TldConfig, base: string, tld: string, j: nat)
    requires base != [] && IsQueryTld(tld)
    requires j < |config.always| && Lower(config.always[j]) == Lower(tld)
    ensures var tlds := ChosenTlds(IanaList(fetch), config, base + "." + tld);
            tlds != [] && EqIgnoreAsciiCase(tlds[0], tld)
  {
    LowerIdempotent(tld);
    ChosenForJoinedQuery(fetch, config, base, tld);
    var sorted := SortTldsWithPriority(ListedTlds(IanaList(fetch)));
    assert DefaultTlds(IanaList(fetch), config) == ApplyConfig(sorted, config);
    AlwaysTldMovedFirst(sorted, config, Lower(tld), j);
  }

  /** For `name.tld` against the downloaded list, the defaults are reordered for the lower-cased TLD. */
  lemma ChosenForJoinedQuery(fetch: TextFetch, config: TldConfig, base: string, tld: string)
    requires base != [] && IsQueryTld(tld)
    ensures ChosenTlds(IanaList(fetch), config, base + "." + tld) == Prioritized(DefaultTlds(IanaList(fetch), config), Lower(tld))
  {
    ParseDomainQueryOfJoin(base, tld);
  }

  /** `ProbeConfig` as `start_checking` and `run_ndjson` build it. */
  const CliProbeConfig := Types.ProbeConfig(5, true, 20, 10)

  /** The command line probes with the library's default configuration. */
  lemma CliProbeConfigIsDefault()
    ensures CliProbeConfig == Types.DefaultConfig()
  {
  }

  /** `AvailabilityStatus`, serialised in lower case. */
  datatype AvailabilityStatus = Available | Taken | Checking | Pending | Error

  /** `DomainCheckResult`: one NDJSON line; `error` is omitted from the line when absent. */
  datatype DomainCheckResult = DomainCheckResult(
    query: string,
    tld: string,
    domain: string,
    available: Option<bool>,
    status: AvailabilityStatus,
    error: Option<string>)

  /** The record `run_ndjson` writes for one probe result. */
  function ToCheckResult(query: string, r: Types.ProbeResult): (c: DomainCheckResult)
    ensures c.query == query && c.domain == r.domain
    ensures c.available.None? <==> r.availability.Unknown?
    ensures c.error.Some? <==> r.availability.Unknown?
  {
    var tld := LastLabel(r.domain);
    match r.availability
    case Available => DomainCheckResult(query, tld, r.domain, Some(true), AvailabilityStatus.Available, None)
    case Taken => DomainCheckResult(query, tld, r.domain, Some(false), AvailabilityStatus.Taken, None)
    case Unknown(reason) => DomainCheckResult(query, tld, r.domain, None, AvailabilityStatus.Error, Some(reason))
  }

  /** The verdict a record states, when it states one. */
  function RecordAvailability(rec: DomainCheckResult): Option<Types.Availability> {
    match (rec.available, rec.error)
    case (Some(true), None) => Some(Types.Available)
    case (Some(false), None) => Some(Types.Taken)
    case (None, Some(reason)) => Some(Types.Unknown(reason))
    case _ => None
  }

  /**
   * `available` is true, false or null exactly for Available, Taken and
   * Unknown; the status is "error" exactly when `available` is null and
   * exactly when an error is given; and the verdict can be read back.
   */
  lemma CheckResultMeaning(query: string, r: Types.ProbeResult)
    ensures var rec := ToCheckResult(query, r);
            (rec.available == Some(true) <==> r.availability.Available?)
            && (rec.available == Some(false) <==> r.availability.Taken?)
            && (rec.status.Error? <==> rec.available.None?)
            && (rec.available.None? <==> rec.error.Some?)
            && (rec.error.Some? ==> rec.error.value == r.availability.reason)
            && !rec.status.Checking? && !rec.status.Pending?
            && rec.query == query && rec.domain == r.domain
            && RecordAvailability(rec) == Some(r.availability)
  {
  }

  /** The records for the results, in the order the results arrive. */
  function NdjsonRecords(query: string, results: seq<Types.ProbeResult>): seq<DomainCheckResult> {
    Map(r => ToCheckResult(query, r), results)
  }

  /** The `domain` field of each record. */
  function RecordDomains(recs: seq<DomainCheckResult>): (r: seq<string>)
    ensures |r| == |recs|
    ensures forall i :: 0 <= i < |recs| ==> r[i] == recs[i].domain
  {
    seq(|recs|, i requires 0 <= i < |recs| => recs[i].domain)
  }

  /**
   * `run_ndjson` checks `query.tld` for each listed TLD: one record per TLD,
   * naming the query, the candidate and, for a dot-free TLD, that TLD; the
   * records name every candidate once, whatever order they arrive in.
   */
  lemma NdjsonOneRecordPerTld(query: string, tlds: seq<string>, bootstrapped: bool,
                              endpoints: map<string, string>, net: nat -> Prober.Network)
    requires forall i :: 0 <= i < |tlds| ==> '.' !in tlds[i]
    ensures var s := Prober.RunProbes(CliProbeConfig, bootstrapped, endpoints, ExpandTlds(query, tlds), net);
            var recs := NdjsonRecords(query, s.results);
            |recs| == |tlds|
            && forall i :: 0 <= i < |tlds| ==>
                 recs[i].query == query && recs[i].domain == query + "." + tlds[i] && recs[i].tld == tlds[i]
    ensures var s := Prober.RunProbes(CliProbeConfig, bootstrapped, endpoints, ExpandTlds(query, tlds), net);
            multiset(RecordDomains(NdjsonRecords(query, s.results))) == multiset(ExpandTlds(query, tlds))
  {
    var domains := ExpandTlds(query, tlds);
    var s := Prober.RunProbes(CliProbeConfig, bootstrapped, endpoints, domains, net);
    forall i | 0 <= i < |tlds|
      ensures var rec := NdjsonRecords(query, s.results)[i];
              rec.query == query && rec.domain == query + "." + tlds[i] && rec.tld == tlds[i]
    {
      Prober.RunProbesDomain(CliProbeConfig, bootstrapped, endpoints, domains, net, i);
      RecordOfCandidate(query, tlds[i], s.results[i]);
    }
    assert RecordDomains(NdjsonRecords(query, s.results)) == domains;
  }

  /** The record of a result for `query.tld` names the query, the candidate and the TLD. */
  lemma RecordOfCandidate(query: string, tld: string, r: Types.ProbeResult)
    requires '.' !in tld && r.domain == query + "." + tld
    ensures var rec := ToCheckResult(query, r);
            rec.query == query && rec.domain == query + "." + tld && rec.tld == tld
  {
    LastLabelOfJoin(query, tld);
  }
}
