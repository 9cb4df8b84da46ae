# Domain availability probing: a Dafny model

This project models the decision logic of `librdap-storm`, a library that
decides whether domain names are free to register, and of `dq`, the command
line and terminal front end built on it.

For one domain the library:

1. takes the top-level domain (TLD) from the name;
2. finds the RDAP service for that TLD in a table built once from the IANA
   bootstrap file;
3. waits for a per-endpoint rate-limit permit;
4. sends an RDAP domain query and classifies the HTTP status;
5. falls back to WHOIS on port 43 when the RDAP answer is inconclusive, and
   classifies the free-text reply.

The front end builds the list of TLDs to try:

- the IANA TLD list (or a built-in list), sorted with the well-known TLDs first;
- filtered through an `always` / `never` configuration;
- reordered so that the TLD a user typed comes first.

It then shows the results in a scrollable, filterable list, or writes one
NDJSON record per result.

Network exchanges are inputs to the model, never performed:

- `BootstrapFetch`: the bootstrap file, or a fetch/parse failure;
- `HttpExchange`: a status code, a transport error, or a timeout;
- `WhoisExchange`: the reply text, an I/O error, or a timeout;
- `TextFetch`: the TLD list text, or a transport error.

`Prober` also returns a trace of effects, so the ordering promises can be
stated as facts about the trace:

- the bootstrap fetch;
- the rate-limit permit;
- the RDAP GET and its URL;
- the WHOIS connection and the line it writes.

Stateful pieces are classes whose methods are proved against specification
functions:

- the endpoint registry, with its table and its once-only flag;
- the prober;
- the terminal `App` state.

In-place list operations are methods with loops or updates, proved against
functions on sequences:

- `apply_config_to_tlds`;
- `prioritize_tld`;
- the selection of TLDs in `main`.

Modules (one file each):

- `Wrappers`, `Text`, `Seqs`: helpers.
- `Types`, `Endpoint`, `Rdap`, `Whois`, `Prober`, `Tlds`: the library.
- `Sorting`, `TldSort`, `TldPolicy`, `App`, `Cli`: the front end.

What the code does not have, and the model therefore does not either:

- A failed bootstrap fetch is not replaced by any built-in table. It leaves
  the once-only flag unset: the probe whose fetch failed reports Unknown
  "Bootstrap failed: …", and the next probe fetches again.
- WHOIS servers come only from the fixed TLD table, never from the RDAP
  endpoint.
- Probe results carry no field naming the protocol that decided them.
- The endpoint table is never refreshed once built.

## Model

| member | source | states |
|---|---|---|
| Endpoint.ExtractTld | librdap-storm/src/endpoint.rs:73-80 | a failure is always `InvalidDomain(domain)`; a TLD is non-empty and no longer than the domain. Endpoint.ExtractTldMeaning characterises both cases |
| Endpoint.ExtractTldMeaning | librdap-storm/src/endpoint.rs:73-80 | extraction fails, with `InvalidDomain(domain)`, exactly when the domain is empty or ends with a dot; otherwise the TLD is the lower-cased text after the last dot (or the whole name), non-empty and dot-free |
| Endpoint.ExtractTldOfJoin | librdap-storm/src/endpoint.rs:73-80 | for `name.tld` with a non-empty dot-free `tld`, extraction gives back `tld` lower-cased |
| Endpoint.BaseUrl | librdap-storm/src/endpoint.rs:49-50 | the kept base URL is a prefix of the service's first URL, ends in no `/`, and only `/` characters were trimmed |
| Endpoint.AddTldsGet | librdap-storm/src/endpoint.rs:51-53 | after the inner loop a key listed (case-insensitively) by the service maps to its base URL, and every other key is untouched |
| Endpoint.BuildTable | librdap-storm/src/endpoint.rs:48-55 | the loop only inserts: every key of the starting table is still a key. Endpoint.BuildTableGet gives every key's value |
| Endpoint.BuildTableGet | librdap-storm/src/endpoint.rs:48-55 | after the outer loop a key maps to the base URL of the last service with a URL that lists it, else keeps its old value; services without a URL add nothing |
| Endpoint.LookupAfterBuild | librdap-storm/src/endpoint.rs:48-63 | looking a TLD up, in any letter case, in a freshly built table finds the last serving service's base URL, or nothing |
| Endpoint.LaterServiceWins | librdap-storm/src/endpoint.rs:52 | a TLD listed by two services (as `COM` and `com`) maps to the later service's URL, with its trailing `/` removed |
| Endpoint.LookupIgnoresCase | librdap-storm/src/endpoint.rs:61-63 | lookups of spellings equal up to ASCII case agree |
| Endpoint.EndpointRegistry.GetEndpoint | librdap-storm/src/endpoint.rs:61-63 | finds an endpoint exactly when the lower-cased TLD is a key of the table, and then returns that key's value |
| Endpoint.BootstrapRunsOnce | librdap-storm/src/endpoint.rs:37-39 | with the flag set, bootstrap succeeds and leaves table and flag unchanged, whatever a fetch would give |
| Endpoint.BootstrapIdempotent | librdap-storm/src/endpoint.rs:36-59 | a successful bootstrap sets the flag, and a second call is then a no-op |
| Endpoint.FailedBootstrapRetries | librdap-storm/src/endpoint.rs:41-57 | a failed fetch reports the fetch error and leaves table and flag as they were, so the next call fetches again |
| Endpoint.EndpointRegistry.constructor | librdap-storm/src/endpoint.rs:29-34 | a new registry has an empty table and the flag unset |
| Endpoint.EndpointRegistry.Bootstrap | librdap-storm/src/endpoint.rs:36-59 | the nested loop leaves the outcome, table and flag that the bootstrap specification gives for the old state and the fetch |
| Rdap.DomainUrl | librdap-storm/src/rdap.rs:11 | the URL is the endpoint, then `/domain/`, then the domain, verbatim |
| Rdap.DomainUrlInjective | librdap-storm/src/rdap.rs:11 | for one endpoint, different domains give different URLs |
| Rdap.ClassifyRdap | librdap-storm/src/rdap.rs:15-32 | Available iff status 404; Taken iff status 200; 429 gives Unknown "Rate limited"; any other status n gives Unknown "HTTP n"; a transport error gives Unknown "Request failed: …"; a timeout gives Unknown "Timeout" |
| Rdap.RedirectsAndServerErrorsInconclusive | librdap-storm/src/rdap.rs:22-24 | every 3xx and 5xx status is Unknown |
| Rdap.InconclusiveReasonNamesStatus | librdap-storm/src/rdap.rs:22-24 | two statuses giving the same Unknown verdict are the same status |
| Whois.WhoisServer | librdap-storm/src/whois.rs:14-23 | a server exists exactly for com, net, org, io, dev, app, ai, co and me. Whois.WhoisServerTable names each server |
| Whois.WhoisServerTable | librdap-storm/src/whois.rs:14-23 | com/net go to whois.verisign-grs.com, org to whois.pir.org, dev/app to whois.nic.google, io/ai/co/me to whois.nic.<tld>; every other TLD has no server |
| Whois.WhoisTld | librdap-storm/src/whois.rs:9-12 | the TLD is no longer than the domain, and is empty exactly when the domain is empty or ends with a dot |
| Whois.QueryLine | librdap-storm/src/whois.rs:27 | the bytes written are the domain followed by CR LF |
| Whois.PlanWhois | librdap-storm/src/whois.rs:25-27 | a planned connection goes to port 43 and writes the query line |
| Whois.PlanWhoisTargetsTableServer | librdap-storm/src/whois.rs:8-27 | a connection is planned exactly when the lower-cased last label is in the server table, and then goes to that TLD's server |
| Whois.ClassifyWhoisReply | librdap-storm/src/whois.rs:36-48 | Available iff the lower-cased reply contains a not-found phrase; Taken iff it contains none of them and contains "domain name:" or "registrar:"; otherwise Unknown "Ambiguous WHOIS response" |
| Whois.ClassifyIgnoresCase | librdap-storm/src/whois.rs:37 | the verdict does not depend on letter case |
| Whois.NotFoundTakesPrecedence | librdap-storm/src/whois.rs:38-45 | a reply with both "not found" and "registrar:" is Available |
| Whois.AvailableReplyIsStable | librdap-storm/src/whois.rs:38-43 | text around an Available reply does not change the verdict |
| Whois.NoMatchReplyIsAvailable | librdap-storm/src/whois.rs:38 | a reply opening with "No match" is Available, whatever follows it |
| Whois.RecordReplyIsTaken | librdap-storm/src/whois.rs:44-45 | "Domain Name: EXAMPLE.COM" is Taken |
| Whois.CheckWhois | librdap-storm/src/whois.rs:8-53 | an unknown TLD gives Unknown "No WHOIS server for .<tld>"; otherwise a reply is classified, an I/O error gives Unknown "WHOIS error: …" and a timeout Unknown "WHOIS timeout" |
| Whois.NoServerNoExchange | librdap-storm/src/whois.rs:22 | without a server the verdict is Unknown and independent of any exchange |
| Whois.InvalidDomainUnreachable | librdap-storm/src/whois.rs:9-12 | the "Invalid domain" verdict is never produced, since `rsplit` always yields an item |
| Types.ExactlyOneVerdict | librdap-storm/src/types.rs:10-22 | exactly one of `is_available`, `is_taken`, `is_unknown` holds |
| Types.UnknownForAnyReason | librdap-storm/src/types.rs:19-21 | Unknown with any reason, the empty one included, is unknown and neither available nor taken |
| Types.UnknownEquality | librdap-storm/src/types.rs:3-8 | two Unknown verdicts are equal iff their reasons are |
| Types.DefaultConfig | librdap-storm/src/types.rs:39-47 | the default is 5 s, WHOIS fallback on, 20 per endpoint rate, 10 concurrent per endpoint |
| Prober.QueryEndpoint | librdap-storm/src/prober.rs:82-96 | with an endpoint, the trace is its permit, then the GET of `<endpoint>/domain/<domain>`, then at most the WHOIS connection, which only happens with fallback on |
| Prober.QueryTld | librdap-storm/src/prober.rs:61-96 | with an endpoint the endpoint path is taken; without one nothing is sent, or, with fallback on, only the WHOIS connection |
| Prober.Decide | librdap-storm/src/prober.rs:42-96 | the result carries the input domain on every path, and a failed bootstrap or invalid TLD sends nothing |
| Prober.QueryEndpointWellOrdered | librdap-storm/src/prober.rs:82-90 | every RDAP GET directly follows the permit of the endpoint it targets, and WHOIS is contacted only with fallback on |
| Prober.DecideEffectsOrdered | librdap-storm/src/prober.rs:42-96 | the same ordering facts hold on every path of the decision chain |
| Prober.DecideNeverFetches | librdap-storm/src/prober.rs:51-96 | the decision chain after `ensure_bootstrapped` never fetches the bootstrap file |
| Prober.ProbeAfterBootstrap | librdap-storm/src/prober.rs:42-96 | a probe on a bootstrapped registry neither fetches nor changes the table, and keeps the flag set |
| Prober.BootstrapFailureShortCircuits | librdap-storm/src/prober.rs:42-48 | a failed bootstrap gives Unknown "Bootstrap failed: …", no permit, RDAP GET or WHOIS connection, and leaves the registry as it was |
| Prober.InvalidTldIsUnknown | librdap-storm/src/prober.rs:50-58 | a domain without a TLD gives Unknown with the extraction error's message and sends nothing |
| Prober.NoEndpointFallsBackToWhois | librdap-storm/src/prober.rs:61-71 | no endpoint and fallback on: exactly the WHOIS verdict, with no permit and no RDAP GET |
| Prober.NoEndpointWithoutFallback | librdap-storm/src/prober.rs:72-78 | no endpoint and fallback off: Unknown "No RDAP endpoint for .<tld>" and nothing sent |
| Prober.EndpointIsQueried | librdap-storm/src/prober.rs:82-84 | with an endpoint, its permit is acquired before the GET of the domain's URL |
| Prober.DefinitiveRdapVerdictStands | librdap-storm/src/prober.rs:86-90 | an RDAP Available or Taken is returned unchanged and WHOIS is not contacted |
| Prober.InconclusiveRdapFallsBackToWhois | librdap-storm/src/prober.rs:86-90 | an RDAP Unknown with fallback on gives the WHOIS verdict |
| Prober.InconclusiveRdapWithoutFallback | librdap-storm/src/prober.rs:86-90 | an RDAP Unknown with fallback off is returned as it is |
| Prober.RunProbes | librdap-storm/src/prober.rs:99-110 | one result per input domain; a bootstrapped registry stays as it is |
| Prober.StreamProbesEachDomainOnce | librdap-storm/src/prober.rs:103-109 | every input domain gets exactly one result: the result domains equal the inputs as a multiset (in the model, also in input order) |
| Prober.RunProbesDomain | librdap-storm/src/prober.rs:103-109 | in the model's input order, the i-th result carries the i-th input domain |
| Prober.StreamAfterBootstrapKeepsTable | librdap-storm/src/prober.rs:99-110 | after a successful bootstrap no later probe fetches the bootstrap file or changes the table |
| Prober.Prober.constructor | librdap-storm/src/prober.rs:21-23 | `new` uses the default configuration and a fresh, empty registry |
| Prober.Prober.WithConfig | librdap-storm/src/prober.rs:25-33 | the prober keeps the given configuration and a fresh, empty registry |
| Prober.Prober.EnsureBootstrapped | librdap-storm/src/prober.rs:35-37 | delegates to the registry's bootstrap |
| Prober.ProbeOneSpec | librdap-storm/src/prober.rs:35-97 | the result is for the probed domain, and once the flag is set the registry is left as it was |
| Prober.Prober.ProbeOne | librdap-storm/src/prober.rs:39-97 | the result, trace and registry state are those of the probe specification (bootstrap, then the decision chain) |
| Prober.Prober.ProbeTld | librdap-storm/src/prober.rs:61-96 | from the endpoint lookup on, the result and trace are those of the TLD-level specification |
| Prober.Prober.ProbeStream | librdap-storm/src/prober.rs:99-110 | the results and the registry's final state are those of the sequential stream specification |
| Tlds.Lines | librdap-storm/src/tlds.rs:16 | no line contains `\n` |
| Tlds.LinesOfJoin | librdap-storm/src/tlds.rs:16 | splitting lines joined with `\n` gives them back, in order |
| Tlds.Normalize | librdap-storm/src/tlds.rs:18 | an entry has no upper-case ASCII letter |
| Tlds.NormalizeTrimmed | librdap-storm/src/tlds.rs:18 | an entry is the trimmed line lower-cased character by character, starting and ending with no white space |
| Tlds.ParseOneLine | librdap-storm/src/tlds.rs:17-19 | a line gives its normalised form exactly when it is neither empty nor a comment and the form does not start with `xn--`, else nothing |
| Tlds.ParseTldList | librdap-storm/src/tlds.rs:15-20 | at most one entry per line, none starting with `xn--`. Tlds.ParseLinesSound and Tlds.ParseLinesComplete give the exact entries |
| Tlds.ParseLinesAppend | librdap-storm/src/tlds.rs:15-20 | the pipeline works line by line, so surviving entries keep their input order |
| Tlds.ParseLinesSound | librdap-storm/src/tlds.rs:15-20 | every entry is lower-case, not `xn--`, and the normalised form of a kept line |
| Tlds.ParseLinesComplete | librdap-storm/src/tlds.rs:15-20 | every kept line whose normalised form is not `xn--` is listed |
| Tlds.CommentOrEmptyLineDropped | librdap-storm/src/tlds.rs:17 | a comment line or an empty line gives nothing |
| Tlds.BlankLineYieldsEmptyEntry | librdap-storm/src/tlds.rs:17-18 | a line of white space only gives the empty entry |
| Tlds.IndentedHashLineKept | librdap-storm/src/tlds.rs:17-18 | an indented `#` line is kept, because the comment check looks at the untrimmed line |
| Tlds.PunycodeDroppedInAnyCase | librdap-storm/src/tlds.rs:18-19 | a line reading `XN--…` or `xn--…` gives nothing |
| Tlds.FetchIanaTlds | librdap-storm/src/tlds.rs:12-23 | a transport error becomes the fetch error, and a body becomes the parsed list |
| Tlds.ExpandTlds | librdap-storm/src/tlds.rs:25-27 | one candidate per TLD; the i-th is the name and a dot followed by the i-th TLD |
| Tlds.ExpandTldsShape | librdap-storm/src/tlds.rs:25-27 | one candidate per TLD, in order, each the name, a dot and that TLD |
| Tlds.ExpandThenExtract | librdap-storm/src/tlds.rs:25-27 | the TLD extracted from a candidate is the one it was built from, lower-cased |
| TldSort.PriorityIndex | dqcli/src/main.rs:440-441 | the index is that of the TLD in the priority list, and there is none exactly for TLDs not in it |
| TldSort.LexCompareEqual | dqcli/src/main.rs:447 | string comparison answers Equal only for equal strings |
| TldSort.LexCompareReverse | dqcli/src/main.rs:447 | swapping the operands reverses the answer |
| TldSort.LexCompareTransitive | dqcli/src/main.rs:447 | string comparison is transitive |
| TldSort.TldLeTotalOrder | dqcli/src/main.rs:439-449 | the comparator is total, antisymmetric and transitive |
| TldSort.TldLeTotal | dqcli/src/main.rs:439-449 | any two TLDs are ordered one way or the other |
| TldSort.TldLeAntisymmetric | dqcli/src/main.rs:439-449 | TLDs ordered both ways are equal |
| TldSort.TldLeTransitive | dqcli/src/main.rs:439-449 | the comparator is transitive |
| TldSort.SortTldsWithPriority | dqcli/src/main.rs:438-452 | the result is a permutation of the input. TldSort.SortTldsSorted and TldSort.SortTldsLayout give its order |
| TldSort.SortTldsSorted | dqcli/src/main.rs:437-452 | the result is a permutation of the input, sorted by the comparator |
| TldSort.SortTldsLayout | dqcli/src/main.rs:437-452 | priority TLDs come first, in priority-list order, then the others in lexicographic order |
| TldSort.SortTldsUnique | dqcli/src/main.rs:438-449 | every sorted permutation of the input is the result, so the sort algorithm does not matter |
| TldSort.SortTldsIdempotent | dqcli/src/main.rs:437-452 | sorting twice is sorting once |
| TldPolicy.ApplyConfig | dqcli/src/main.rs:70-85 | the configured list is the selected `always` entries, lower-cased and in configured order, followed by the TLDs `never` leaves, in their order |
| TldPolicy.ApplyConfigToTlds | dqcli/src/main.rs:70-85 | the `retain` and reverse `insert(0, …)` loop compute the configured list |
| TldPolicy.InsertAlwaysPrepends | dqcli/src/main.rs:77-82 | the loop only prepends: the kept list is the tail, and each entry before it is a lower-cased `always` entry |
| TldPolicy.InsertAlwaysPresent | dqcli/src/main.rs:77-82 | every `always` entry is present afterwards, compared case-insensitively |
| TldPolicy.InsertAlwaysNoDuplicates | dqcli/src/main.rs:77-82 | a prepended entry differs, case-insensitively, from every entry after it |
| TldPolicy.InsertAlwaysIsSelected | dqcli/src/main.rs:77-82 | for every input, the loop prepends exactly the `always` entries that are absent from the kept list and not repeated later in `always`, lower-cased and in configured order, before the kept list |
| TldPolicy.InsertAlwaysInOrder | dqcli/src/main.rs:77-82 | a corollary of TldPolicy.InsertAlwaysIsSelected: when no `always` entry is present yet and they are pairwise distinct, all are prepended lower-cased, in configured order |
| TldPolicy.NeverEntriesRemoved | dqcli/src/main.rs:71-75 | an entry named in `never` (case-insensitively) remains only when an `always` entry put it there |
| TldPolicy.AlwaysWinsOverNever | dqcli/src/main.rs:75-82 | an `always` entry is listed even when `never` names it too |
| TldPolicy.VisibleTldsKept | dqcli/src/main.rs:75 | the TLDs not hidden by `never` stay, in their order, after the prepended ones |
| TldPolicy.PrependedEntriesDistinct | dqcli/src/main.rs:77-82 | prepended entries are lower-case and differ from every later entry |
| TldPolicy.ParseDomainQuery | dqcli/src/main.rs:101-117 | without a TLD the query comes back whole; with one the name is non-empty and shorter than the query. TldPolicy.ParseDomainQueryMeaning gives the exact split |
| TldPolicy.ParseDomainQueryMeaning | dqcli/src/main.rs:101-117 | a split returns a non-empty name before the last dot and the lower-cased 1–20 letter suffix after it; otherwise the query comes back whole with no TLD |
| TldPolicy.ParseDomainQueryOfJoin | dqcli/src/main.rs:101-113 | a non-empty name, a dot and 1–20 ASCII letters is always split there |
| TldPolicy.PrioritizeTld | dqcli/src/main.rs:119-125 | the `remove` and `insert(0, …)` compute the prioritised list |
| TldPolicy.Prioritized | dqcli/src/main.rs:119-125 | the length is kept, and the list is either unchanged or starts with a case-insensitive match of the priority TLD. TldPolicy.PrioritizedFront gives the rest of the order |
| TldPolicy.PrioritizedPermutation | dqcli/src/main.rs:119-125 | the result is a permutation of the input |
| TldPolicy.PrioritizedFront | dqcli/src/main.rs:120-123 | the first case-insensitive match moves to index 0 and the others keep their relative order |
| TldPolicy.PrioritizedAbsent | dqcli/src/main.rs:120 | without a match the list is unchanged |
| TldPolicy.PrioritizedIdempotent | dqcli/src/main.rs:119-125 | prioritising twice is prioritising once |
| TldPolicy.PresentCiMovedFirst | dqcli/src/main.rs:119-125 | a TLD present in any letter case ends up first, matching the priority in any letter case |
| TldPolicy.AlwaysTldMovedFirst | dqcli/src/main.rs:119-125 | after the configuration is applied, a TLD that `always` names is moved first when it is the priority |
| App.FilterMode.Next | dqcli/src/main.rs:36-42 | the next mode always differs from the current one. App.FilterCycle gives the three-step cycle |
| App.FilterCycle | dqcli/src/main.rs:36-42 | each mode differs from the next two, and three steps come back |
| App.StatusOrder | dqcli/src/main.rs:454-462 | ranks are below 5, and rank 0 is exactly Available. App.StatusOrderRanks orders the other ranks |
| App.StatusOrderRanks | dqcli/src/main.rs:454-462 | ranks are below 5, equal exactly for equal statuses or two errors, Available ranks first and Error last |
| App.StatusRoundTrip | dqcli/src/main.rs:382-386 | a verdict is shown as a finished status from which the verdict can be read back, and conversely |
| App.Entries | dqcli/src/main.rs:396-400 | one row per listed TLD, in order, with its recorded status or Pending |
| App.EntryLeTotal | dqcli/src/main.rs:402-421 | the row comparator orders any two rows |
| App.EntryLeTransitive | dqcli/src/main.rs:402-421 | the row comparator is transitive |
| App.SortedEntries | dqcli/src/main.rs:394-424 | one row per listed TLD: a permutation of the unsorted rows. App.SortedEntriesLayout gives the order |
| App.SortedEntriesLayout | dqcli/src/main.rs:394-424 | the sorted rows are a permutation of the rows: priority TLDs first in list order, then the others by status rank and, within a rank, by name |
| App.EntryLeAntisymmetricOnRows | dqcli/src/main.rs:396-421 | two rows of one results map ordered both ways are the same row: equal priority index or equal name means equal TLD, hence equal status |
| App.RowsAntisymmetric | dqcli/src/main.rs:396-421 | the comparator is antisymmetric on the rows of the list |
| App.SortedEntriesUnique | dqcli/src/main.rs:394-424 | every sorted permutation of the rows is the sorted list, so the sort algorithm does not matter |
| App.FilteredEntries | dqcli/src/main.rs:254-263 | no more rows than TLDs, and every row is one the mode shows. App.FilteredEntriesMeaning gives the rest |
| App.FilteredEntriesMeaning | dqcli/src/main.rs:254-263 | All shows every row; Available and Taken only rows with that status |
| App.ScrollDownAsWrittenLeavesList | dqcli/src/main.rs:275-287 | on an empty list the written `scroll_down` moves row 0 to row 1, outside the list |
| App.ScrollDownCorrectionAgrees | dqcli/src/main.rs:275-287 | on a non-empty list the written and corrected `scroll_down` agree |
| App.ScrollUpIndex | dqcli/src/main.rs:289-301 | a selection moves up one row at most, and stays where it is only at row 0 |
| App.PageDownIndex | dqcli/src/main.rs:303-309 | the new row is on the list and at most 20 rows below the selection |
| App.PageUpIndex | dqcli/src/main.rs:311-317 | the new row is at most 20 rows above the selection, never below it |
| App.BottomIndex | dqcli/src/main.rs:323-325 | the row is on the list, and it is the last row of a non-empty list |
| App.ScrollKeepsSelectionInBounds | dqcli/src/main.rs:275-325 | from a selection on the list, every scroll key leaves it on the list |
| App.ScrollDownStopsAtEnd | dqcli/src/main.rs:275-287 | down moves one row and stops at the last |
| App.ScrollUpUndoesDown | dqcli/src/main.rs:275-301 | up undoes down below the last row, and down undoes up above the first |
| App.PageUpUndoesPageDown | dqcli/src/main.rs:303-317 | a page up undoes a page down at least a page above the end |
| App.App.constructor | dqcli/src/main.rs:196-227 | every TLD is Pending, row 0 is selected, no filter, and the specific domain is `query.tld` when both are given |
| App.App.ScrollDown | dqcli/src/main.rs:275-287 | the selection moves as the corrected `scroll_down` says and stays on the list |
| App.App.ScrollUp | dqcli/src/main.rs:289-301 | the selection moves up one row, stopping at 0 |
| App.App.ScrollPageDown | dqcli/src/main.rs:303-309 | the selection moves down 20 rows, clamped to the last |
| App.App.ScrollPageUp | dqcli/src/main.rs:311-317 | the selection moves up 20 rows, clamped to 0 |
| App.App.ScrollToTop | dqcli/src/main.rs:319-321 | row 0 is selected |
| App.App.ScrollToBottom | dqcli/src/main.rs:323-325 | the last row (row 0 of an empty list) is selected |
| App.App.CycleFilter | dqcli/src/main.rs:679-682 | the filter moves to the next mode and row 0 is selected |
| App.App.StartChecking | dqcli/src/main.rs:327-366 | nothing without a query; otherwise every listed TLD becomes Checking and other rows are kept |
| App.App.RecordResult | dqcli/src/main.rs:375-390 | the result's status is recorded under the last label of its domain |
| App.ResultLandsOnItsRow | dqcli/src/main.rs:376-386 | for a candidate `query.tld` with a dot-free TLD, the result lands on that TLD's row with a finished status carrying the verdict |
| Cli.ListedTlds | dqcli/src/main.rs:492-503 | a failed download falls back to the built-in priority list, and a downloaded body gives the parsed IANA list |
| Cli.ChosenTlds | dqcli/src/main.rs:505-519 | as many TLDs are checked as the configured defaults hold. Cli.ChosenTldsPermuteDefaults shows they are the same TLDs |
| Cli.ChooseTlds | dqcli/src/main.rs:490-519 | the query is split as `parse_domain_query` says, and the TLDs are chosen as the selection specification says |
| Cli.ChosenTldsPermuteDefaults | dqcli/src/main.rs:508-519 | the query only reorders the list, and a user-given list is not reordered |
| Cli.QueriedAlwaysTldFirst | dqcli/src/main.rs:505-514 | for `name.tld` against the downloaded list, a TLD named in `always` comes first, even when `never` names it |
| Cli.ChosenForJoinedQuery | dqcli/src/main.rs:505-514 | for `name.tld` against the downloaded list, the defaults are reordered for the lower-cased TLD |
| Cli.CliProbeConfigIsDefault | dqcli/src/main.rs:536-541 | the command line probes with the library's default configuration |
| Cli.ToCheckResult | dqcli/src/main.rs:549-568 | the record names the query and the probed domain; `available` is null and `error` present exactly for an Unknown verdict. Cli.CheckResultMeaning gives the statuses |
| Cli.CheckResultMeaning | dqcli/src/main.rs:549-569 | `available` is true, false or null exactly for Available, Taken and Unknown; status "error" iff `available` is null iff an error is given; the verdict can be read back |
| Cli.NdjsonOneRecordPerTld | dqcli/src/main.rs:543-569 | one record per listed TLD, naming the query, `query.tld`, and (for a dot-free TLD) that TLD; the record domains are, as a multiset, exactly the candidates |
| Cli.RecordOfCandidate | dqcli/src/main.rs:549-568 | the record of a result for `query.tld` names the query, the candidate and the TLD |

## Left out

- Network I/O is not modelled: the HTTP GETs, the WHOIS socket, DNS, and JSON and text decoding. Each exchange is an input value. A bootstrap JSON parse failure is folded into the fetch failure, since both return the same error before any insert.
- Timeouts are not modelled as durations (`tokio::time::timeout`, `Duration`, `ProbeResult.duration`). A timeout is one outcome of an exchange.
- The rate limiter (`ratelimit.rs`) is out, because its token bucket lives in the `governor` crate. Its `acquire` is the `AcquirePermit` effect in the trace.
- The HTTP client builder (`http.rs`) and the re-exports (`lib.rs`) are out: neither holds logic.
- Prober.Prober.ProbeStream: runs the probes one after another, in input order. The source runs up to `max_concurrent_per_endpoint * 10` probes at once and yields results in completion order. The one-result-per-domain and multiset facts hold either way; the order and the concurrency bound are not modelled.
- Prober.RunProbesDomain: states that result i is for domain i. That holds for the model's input order only; the source yields results in completion order (`buffer_unordered`, librdap-storm/src/prober.rs:109).
- Prober.StreamProbesEachDomainOnce: its sequence equality holds for the model's input order only. Its multiset equality holds for the source's completion order too.
- Cli.NdjsonOneRecordPerTld: its per-index facts (record i is for TLD i) hold for the model's input order only. Its multiset fact on the record domains holds for the source's completion order too.
- Concurrency is not modelled: shared `DashMap`/`AtomicBool` access, two bootstraps racing, `tokio::spawn`, and the `Arc<Mutex<…>>` sharing in `App`.
- `to_lowercase` is modelled as ASCII lower-casing; Unicode case mapping is not modelled. TLDs from the IANA list and the WHOIS keywords are ASCII, but the query and the configuration entries are user text: for `name.CAFÉ` the source looks up and reports `.café`, while the model looks up and reports `.cafÉ`.
- `trim` removes the Unicode White_Space characters.
- String ordering compares characters. This agrees with Rust's byte-wise comparison of UTF-8.
- `slice::sort_by` is modelled by an insertion sort on sequences, not in place. `TldSort.SortTldsUnique` and `App.SortedEntriesUnique` show that every sorted permutation is the same list, so the library's algorithm does not matter.
- Terminal rendering and input are out: drawing, spinner, toast, progress bar, query editing keys, clipboard copy, browser opening, and `get_selected_domain`.
- The probe of the specific domain in `start_checking` is out: it runs in a spawned task and only sets a display field.
- The command-line shell is out: `clap` parsing, reading and writing the TOML configuration file, the default configuration text, the stderr warning when the IANA download fails, and the exit when NDJSON mode has no query.
- JSON serialisation is out. The record's fields and the lower-case status names are modelled; the printed text is not.
- `usize` and `u32` widths are not modelled, except in the `scroll_down` finding, where the wrap-around is the point.

## Findings

| source | as written | input that shows it | evidently intended | confidence | as-written member | corrected member |
|---|---|---|---|---|---|---|
| dqcli/src/main.rs:278 | `scroll_down` bounds the selection by `self.tlds.len() - 1` on `usize` | an empty TLD list (every TLD named in `never`) with the initial selection `Some(0)`, then the Down key: a debug build panics, and a release build wraps and selects row 1 | `self.tlds.len().saturating_sub(1)`, as `scroll_page_down` and `scroll_to_bottom` use, keeping row 0 | not executed | App.ScrollDownAsWritten (shown by App.ScrollDownAsWrittenLeavesList) | App.ScrollDownIndex (kept in bounds by App.ScrollKeepsSelectionInBounds; used by App.App.ScrollDown) |
