/**
 * The list logic of the `dq` front end (`main.rs`): the always/never
 * configuration applied to the TLD list, splitting a query such as
 * `example.dev` into a name and a TLD, and moving one TLD to the front.
 */
module TldPolicy {
  import opened Wrappers
  import opened Text
  import opened Seqs

  /** `TldConfig`: the `always` and `never` lists of the configuration file. */
  datatype TldConfig = TldConfig(always: seq<string>, never: seq<string>)

  /** `never_set`: every `never` entry, lower-cased. */
  function NeverSet(never: seq<string>): set<string> {
    set j | 0 <= j < |never| :: Lower(never[j])
  }

  /** A TLD the configuration hides: its lower-cased form is in the never set. */
  predicate Hidden(nev: set<string>, t: string) {
    Lower(t) in nev
  }

  /** The `retain` step: the TLDs that are not hidden, in their order. */
  function RemoveNever(tlds: seq<string>, nev: set<string>): seq<string> {
    Filter(t => !Hidden(nev, t), tlds)
  }

  /** Some entry of `v` lower-cases to `lower` (`iter().any(|t| t.to_lowercase() == lower)`). */
  predicate PresentCi(v: seq<string>, lower: string) {
    exists i :: 0 <= i < |v| && Lower(v[i]) == lower
  }

  /** One turn of the `always` loop: prepend the lower-cased entry unless it is already there. */
  function AlwaysStep(a: string, v: seq<string>): seq<string> {
    var lower := Lower(a);
    if PresentCi(v, lower) then v else [lower] + v
  }

  /** The `always` loop, which walks the list from its end: the last entry is handled first. */
  function InsertAlways(always: seq<string>, v: seq<string>): seq<string> {
    if always == [] then v else AlwaysStep(always[0], InsertAlways(always[1..], v))
  }

  /** What `apply_config_to_tlds` returns. */
  function ApplyConfig(tlds: seq<string>, config: TldConfig): (r: seq<string>)
    ensures var kept := RemoveNever(tlds, NeverSet(config.never));
            r == Map(Lower, Selected(config.always, kept)) + kept
  {
    InsertAlwaysIsSelected(config.always, RemoveNever(tlds, NeverSet(config.never)));
    InsertAlways(config.always, RemoveNever(tlds, NeverSet(config.never)))
  }

  /** `apply_config_to_tlds`: `retain`, then the reverse loop of `insert(0, …)`. */
  method ApplyConfigToTlds(tlds: seq<string>, config: TldConfig) returns (r: seq<string>)
    ensures r == ApplyConfig(tlds, config)
  {
    var nev := NeverSet(config.never);
    r := RemoveNever(tlds, nev);
    ghost var kept := r;
    var k := |config.always|;
    while k > 0
      invariant 0 <= k <= |config.always|
      invariant r == InsertAlways(config.always[k..], kept)
    {
      k := k - 1;
      assert config.always[k..][1..] == config.always[k + 1..];
      var lower := Lower(config.always[k]);
      if !PresentCi(r, lower) {
        r := [lower] + r;
      }
    }
    assert config.always[0..] == config.always;
  }

  /**
   * The loop only prepends: the list it started from is the tail of the
   * result, and every entry before it is the lower-cased form of an
   * `always` entry.
   */
  lemma {:induction false} InsertAlwaysPrepends(always: seq<string>, v: seq<string>)
    ensures var r := InsertAlways(always, v);
            |v| <= |r| && r[|r| - |v|..] == v
            && forall i :: 0 <= i < |r| - |v| ==> exists j :: 0 <= j < |always| && r[i] == Lower(always[j])
  {
    if always != [] {
      var w := InsertAlways(always[1..], v);
      InsertAlwaysPrepends(always[1..], v);
      var r := InsertAlways(always, v);
      if r != w {
        assert r == [Lower(always[0])] + w;
        assert r[|r| - |v|..] == w[|w| - |v|..];
        forall i | 0 <= i < |r| - |v|
          ensures exists j :: 0 <= j < |always| && r[i] == Lower(always[j])
        {
          if i == 0 {
            assert r[0] == Lower(always[0]);
          } else {
            var j :| 0 <= j < |always[1..]| && w[i - 1] == Lower(always[1..][j]);
            assert r[i] == Lower(always[j + 1]);
          }
        }
      } else {
        forall i | 0 <= i < |r| - |v|
          ensures exists j :: 0 <= j < |always| && r[i] == Lower(always[j])
        {
          var j :| 0 <= j < |always[1..]| && w[i] == Lower(always[1..][j]);
          assert r[i] == Lower(always[j + 1]);
        }
      }
    }
  }

  /** Every `always` entry ends up in the list, compared case-insensitively. */
  lemma {:induction false} InsertAlwaysPresent(always: seq<string>, v: seq<string>)
    ensures forall j :: 0 <= j < |always| ==> PresentCi(InsertAlways(always, v), Lower(always[j]))
  {
    if always != [] {
      var w := InsertAlways(always[1..], v);
      var r := InsertAlways(always, v);
      InsertAlwaysPresent(always[1..], v);
      var lower := Lower(always[0]);
      LowerIdempotent(always[0]);
      assert PresentCi(r, lower) by {
        if !PresentCi(w, lower) {
          assert Lower(r[0]) == lower;
        }
      }
      forall j | 1 <= j < |always| ensures PresentCi(r, Lower(always[j])) {
        assert always[j] == always[1..][j - 1];
        var i :| 0 <= i < |w| && Lower(w[i]) == Lower(always[j]);
        if r != w {
          assert r[i + 1] == w[i];
        }
      }
    }
  }

  /** An entry the loop prepends matches no later entry, so the loop adds no duplicates. */
  lemma {:induction false} InsertAlwaysNoDuplicates(always: seq<string>, v: seq<string>)
    ensures var r := InsertAlways(always, v);
            |v| <= |r|
            && forall i, k :: 0 <= i < k < |r| && i < |r| - |v| ==> Lower(r[i]) != Lower(r[k])
  {
    InsertAlwaysPrepends(always, v);
    if always != [] {
      var w := InsertAlways(always[1..], v);
      var r := InsertAlways(always, v);
      InsertAlwaysNoDuplicates(always[1..], v);
      var lower := Lower(always[0]);
      if r != w {
        LowerIdempotent(always[0]);
        assert !PresentCi(w, lower);
        forall i, k | 0 <= i < k < |r| && i < |r| - |v| ensures Lower(r[i]) != Lower(r[k]) {
          assert r[k] == w[k - 1];
          if i > 0 {
            assert r[i] == w[i - 1];
          }
        }
      }
    }
  }

  /**
   * `always[0]` survives into the prefix: its lower-cased form is not in `v`
   * and no later entry has the same lower-cased form.
   */
  predicate SelectedHead(always: seq<string>, v: seq<string>)
    requires always != []
  {
    !PresentCi(v, Lower(always[0]))
    && forall m :: 1 <= m < |always| ==> Lower(always[m]) != Lower(always[0])
  }

  /**
   * The `always` entries that end up prepended, in their configured order:
   * those absent from `v` and not repeated later in the list.
   */
  function Selected(always: seq<string>, v: seq<string>): seq<string> {
    if always == [] then []
    else (if SelectedHead(always, v) then [always[0]] else []) + Selected(always[1..], v)
  }

  /** A selected head matches nothing the rest of the loop produced. */
  lemma SelectedHeadAbsent(always: seq<string>, v: seq<string>)
    requires always != [] && SelectedHead(always, v)
    ensures !PresentCi(InsertAlways(always[1..], v), Lower(always[0]))
  {
    var w := InsertAlways(always[1..], v);
    InsertAlwaysPrepends(always[1..], v);
    forall i | 0 <= i < |w| ensures Lower(w[i]) != Lower(always[0]) {
      if i < |w| - |v| {
        var j :| 0 <= j < |always[1..]| && w[i] == Lower(always[1..][j]);
        LowerIdempotent(always[j + 1]);
        assert Lower(w[i]) == Lower(always[j + 1]);
      } else {
        assert w[i] == v[i - (|w| - |v|)];
      }
    }
  }

  /** A head that is not selected is already in what the rest of the loop produced. */
  lemma UnselectedHeadPresent(always: seq<string>, v: seq<string>)
    requires always != [] && !SelectedHead(always, v)
    ensures PresentCi(InsertAlways(always[1..], v), Lower(always[0]))
  {
    var w := InsertAlways(always[1..], v);
    var lower := Lower(always[0]);
    if PresentCi(v, lower) {
      InsertAlwaysPrepends(always[1..], v);
      var i :| 0 <= i < |v| && Lower(v[i]) == lower;
      assert w[|w| - |v| + i] == v[i];
    } else {
      var m :| 1 <= m < |always| && Lower(always[m]) == lower;
      InsertAlwaysPresent(always[1..], v);
      assert always[1..][m - 1] == always[m];
    }
  }

  /**
   * For every input, the loop prepends exactly the selected `always` entries,
   * lower-cased and in their configured order, in front of the list it started from.
   */
  lemma {:induction false} InsertAlwaysIsSelected(always: seq<string>, v: seq<string>)
    ensures InsertAlways(always, v) == Map(Lower, Selected(always, v)) + v
  {
    if always != [] {
      var w := InsertAlways(always[1..], v);
      var s := Selected(always[1..], v);
      InsertAlwaysIsSelected(always[1..], v);
      if SelectedHead(always, v) {
        SelectedHeadAbsent(always, v);
        assert Selected(always, v) == [always[0]] + s;
        assert InsertAlways(always, v) == [Lower(always[0])] + w;
        MapLowerCons(always[0], s);
      } else {
        UnselectedHeadPresent(always, v);
        assert Selected(always, v) == s;
        assert InsertAlways(always, v) == w;
      }
    }
  }

  lemma MapLowerCons(a: string, s: seq<string>)
    ensures Map(Lower, [a] + s) == [Lower(a)] + Map(Lower, s)
  {
  }

  /** Entries absent from `v` and pairwise distinct are all selected. */
  lemma {:induction false} SelectedAll(always: seq<string>, v: seq<string>)
    requires forall j :: 0 <= j < |always| ==> !PresentCi(v, Lower(always[j]))
    requires forall j, m :: 0 <= j < m < |always| ==> Lower(always[j]) != Lower(always[m])
    ensures Selected(always, v) == always
  {
    if always != [] {
      SelectedAll(always[1..], v);
      assert SelectedHead(always, v);
    }
  }

  /** When no `always` entry is present yet and they are pairwise distinct, they are prepended in their configured order. */
  lemma {:induction false} InsertAlwaysInOrder(always: seq<string>, v: seq<string>)
    requires forall j :: 0 <= j < |always| ==> !PresentCi(v, Lower(always[j]))
    requires forall j, m :: 0 <= j < m < |always| ==> Lower(always[j]) != Lower(always[m])
    ensures InsertAlways(always, v) == Map(Lower, always) + v
  {
    InsertAlwaysIsSelected(always, v);
    SelectedAll(always, v);
  }

  /** No TLD the `never` list names is left, unless an `always` entry put it back. */
  lemma NeverEntriesRemoved(tlds: seq<string>, config: TldConfig)
    ensures var r := ApplyConfig(tlds, config);
            forall i :: 0 <= i < |r| && Lower(r[i]) in NeverSet(config.never) ==>
              exists j :: 0 <= j < |config.always| && r[i] == Lower(config.always[j])
  {
    var kept := RemoveNever(tlds, NeverSet(config.never));
    var r := ApplyConfig(tlds, config);
    InsertAlwaysPrepends(config.always, kept);
    forall i | 0 <= i < |r| && Lower(r[i]) in NeverSet(config.never)
      ensures exists j :: 0 <= j < |config.always| && r[i] == Lower(config.always[j])
    {
      if i >= |r| - |kept| {
        assert false;
      }
    }
  }

  /** A TLD named both in `always` and in `never` is listed: removal runs first, so `always` wins. */
  lemma AlwaysWinsOverNever(tlds: seq<string>, config: TldConfig, j: nat)
    requires j < |config.always|
    ensures PresentCi(ApplyConfig(tlds, config), Lower(config.always[j]))
  {
    InsertAlwaysPresent(config.always, RemoveNever(tlds, NeverSet(config.never)));
  }

  /** The TLDs the configuration does not hide stay, in their order, after the prepended ones. */
  lemma VisibleTldsKept(tlds: seq<string>, config: TldConfig)
    ensures var r := ApplyConfig(tlds, config);
            var kept := RemoveNever(tlds, NeverSet(config.never));
            |kept| <= |r| && r[|r| - |kept|..] == kept
            && forall t :: t in tlds && !Hidden(NeverSet(config.never), t) ==> t in kept
  {
    InsertAlwaysPrepends(config.always, RemoveNever(tlds, NeverSet(config.never)));
  }

  /** The entries the loop prepends are lower-case, and each differs from every entry after it. */
  lemma PrependedEntriesDistinct(tlds: seq<string>, config: TldConfig)
    ensures var r := ApplyConfig(tlds, config);
            var n := |r| - |RemoveNever(tlds, NeverSet(config.never))|;
            0 <= n
            && (forall i :: 0 <= i < n ==> IsLowercase(r[i]))
            && forall i, k :: 0 <= i < k < |r| && i < n ==> Lower(r[i]) != Lower(r[k])
  {
    var kept := RemoveNever(tlds, NeverSet(config.never));
    var r := ApplyConfig(tlds, config);
    InsertAlwaysPrepends(config.always, kept);
    InsertAlwaysNoDuplicates(config.always, kept);
    forall i | 0 <= i < |r| - |kept| ensures IsLowercase(r[i]) {
      var j :| 0 <= j < |config.always| && r[i] == Lower(config.always[j]);
      LowerIsLowercase(config.always[j]);
    }
  }

  /** The suffix `parse_domain_query` accepts as a TLD: 1 to 20 ASCII letters. */
  predicate IsQueryTld(s: string) {
    0 < |s| <= 20 && forall k :: 0 <= k < |s| ==> IsAsciiAlphabetic(s[k])
  }

  /**
   * `parse_domain_query`: the name before the last dot and the lower-cased
   * suffix after it, when the name is not empty and the suffix is a
   * plausible TLD; otherwise the whole query and no TLD. The source bounds
   * the suffix by its byte length; for ASCII letters that is the number of
   * characters.
   */
  function ParseDomainQuery(query: string): (r: (string, Option<string>))
    ensures r.1.None? ==> r.0 == query
    ensures r.1.Some? ==> r.0 != [] && |r.0| < |query|
  {
    match LastIndexOf(query, '.')
    case None => (query, None)
    case Some(d) =>
      if query[..d] != [] && IsQueryTld(query[d + 1..]) then (query[..d], Some(Lower(query[d + 1..])))
      else (query, None)
  }

  /** A split query is the name, a dot and a TLD of 1 to 20 letters, whose lower-cased form is returned; otherwise the query comes back whole. */
  lemma ParseDomainQueryMeaning(query: string)
    ensures var (base, tld) := ParseDomainQuery(query);
            (tld.None? ==> base == query)
            && (tld.Some? ==>
                  base != [] && |base| < |query| && query[..|base|] == base && query[|base|] == '.'
                  && IsQueryTld(query[|base| + 1..]) && tld.value == Lower(query[|base| + 1..])
                  && IsLowercase(tld.value) && |tld.value| <= 20)
  {
    var r := ParseDomainQuery(query);
    if r.1.Some? {
      LowerIsLowercase(query[|r.0| + 1..]);
    }
  }

  /** Any name followed by a dot and 1 to 20 letters is split there, whatever dots the name holds. */
  lemma ParseDomainQueryOfJoin(base: string, tld: string)
    requires base != [] && IsQueryTld(tld)
    ensures ParseDomainQuery(base + "." + tld) == (base, Some(Lower(tld)))
  {
    var q := base + "." + tld;
    assert '.' !in tld by {
      forall k | 0 <= k < |tld| ensures tld[k] != '.' {
        assert IsAsciiAlphabetic(tld[k]);
      }
    }
    LastIndexOfJoin(base, tld);
    assert q[..|base|] == base && q[|base| + 1..] == tld;
  }

  /** The `prioritize_tld` match: equal to the wanted TLD ignoring ASCII case. */
  predicate MatchesPriority(priority: string, t: string) {
    EqIgnoreAsciiCase(t, priority)
  }

  /** The list `prioritize_tld` returns. */
  function Prioritized(tlds: seq<string>, priority: string): (r: seq<string>)
    ensures |r| == |tlds|
    ensures r == tlds || (r != [] && MatchesPriority(priority, r[0]))
  {
    match Position(tlds, t => MatchesPriority(priority, t))
    case None => tlds
    case Some(pos) => [tlds[pos]] + tlds[..pos] + tlds[pos + 1..]
  }

  /** `prioritize_tld`: `remove` the first match and `insert` it at the front. */
  method PrioritizeTld(tlds: seq<string>, priority: string) returns (r: seq<string>)
    ensures r == Prioritized(tlds, priority)
  {
    r := tlds;
    var found := Position(r, t => MatchesPriority(priority, t));
    if found.Some? {
      var pos := found.value;
      var tld := r[pos];
      r := r[..pos] + r[pos + 1..];
      r := [tld] + r;
    }
  }

  /** The result holds the same TLDs, as many times each. */
  lemma PrioritizedPermutation(tlds: seq<string>, priority: string)
    ensures multiset(Prioritized(tlds, priority)) == multiset(tlds)
  {
    match Position(tlds, t => MatchesPriority(priority, t))
    case None =>
    case Some(pos) =>
      assert tlds == tlds[..pos] + [tlds[pos]] + tlds[pos + 1..];
  }

  /**
   * When some TLD matches, the first match, at `pos`, is moved to the front
   * and all the others keep their relative order.
   */
  lemma PrioritizedFront(tlds: seq<string>, priority: string) returns (pos: nat)
    requires exists k :: 0 <= k < |tlds| && MatchesPriority(priority, tlds[k])
    ensures pos < |tlds| && MatchesPriority(priority, tlds[pos])
    ensures forall k :: 0 <= k < pos ==> !MatchesPriority(priority, tlds[k])
    ensures Prioritized(tlds, priority) == [tlds[pos]] + tlds[..pos] + tlds[pos + 1..]
  {
    pos := Position(tlds, t => MatchesPriority(priority, t)).value;
  }

  /** With no match the list is returned unchanged. */
  lemma PrioritizedAbsent(tlds: seq<string>, priority: string)
    requires forall k :: 0 <= k < |tlds| ==> !MatchesPriority(priority, tlds[k])
    ensures Prioritized(tlds, priority) == tlds
  {
    assert Position(tlds, t => MatchesPriority(priority, t)).None?;
  }

  /** Moving the TLD to the front twice is moving it once. */
  lemma PrioritizedIdempotent(tlds: seq<string>, priority: string)
    ensures Prioritized(Prioritized(tlds, priority), priority) == Prioritized(tlds, priority)
  {
    var r := Prioritized(tlds, priority);
    match Position(tlds, t => MatchesPriority(priority, t))
    case None =>
    case Some(pos) =>
      assert MatchesPriority(priority, r[0]);
      assert Position(r, t => MatchesPriority(priority, t)) == Some(0);
      assert r[..0] + r[1..] == r[1..];
  }

  /** A TLD present in any letter case is moved to the front, where it matches in any letter case. */
  lemma PresentCiMovedFirst(tlds: seq<string>, priority: string)
    requires PresentCi(tlds, Lower(priority))
    ensures Prioritized(tlds, priority) != [] && EqIgnoreAsciiCase(Prioritized(tlds, priority)[0], priority)
  {
    var i :| 0 <= i < |tlds| && Lower(tlds[i]) == Lower(priority);
    assert MatchesPriority(priority, tlds[i]);
    var pos := PrioritizedFront(tlds, priority);
  }

  /** A TLD the `always` list names is checked first when it is the one queried, whatever `never` says. */
  lemma AlwaysTldMovedFirst(tlds: seq<string>, config: TldConfig, priority: string, j: nat)
    requires j < |config.always| && Lower(config.always[j]) == Lower(priority)
    ensures var r := Prioritized(ApplyConfig(tlds, config), priority);
            r != [] && EqIgnoreAsciiCase(r[0], priority)
  {
    AlwaysWinsOverNever(tlds, config, j);
    PresentCiMovedFirst(ApplyConfig(tlds, config), priority);
  }
}
