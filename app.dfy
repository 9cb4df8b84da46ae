/**
 * The state of the `dq` terminal interface (`App` in `main.rs`) that is not
 * drawing: the per-TLD statuses, the order and filter of the result list,
 * and the selection cursor moved by the scroll keys.
 */
module App {
  import opened Wrappers
  import opened Text
  import opened Seqs
  import opened Sorting
  import opened TldSort
  import Types

  /** `FilterMode`, and `next`, which the Tab key applies. */
  datatype FilterMode = All | Available | Taken {
    function Next(): (m: FilterMode)
      ensures m != this
    {
      match this
      case All => FilterMode.Available
      case Available => FilterMode.Taken
      case Taken => All
    }
  }

  /** The filter cycles through the three modes: every mode differs from the next, and three presses come back. */
  lemma FilterCycle(m: FilterMode)
    ensures m.Next() != m && m.Next().Next() != m
    ensures m.Next().Next().Next() == m
  {
  }

  /** `DomainStatus`: the status shown for one TLD. */
  datatype DomainStatus = Pending | Checking | Available | Taken | Error(reason: string)

  /** `status_order`: the rank by which non-priority TLDs are listed. */
  function StatusOrder(s: DomainStatus): (r: nat)
    ensures r < 5
    ensures r == 0 <==> s.Available?
  {
    match s
    case Available => 0
    case Checking => 1
    case Pending => 2
    case Taken => 3
    case Error(_) => 4
  }

  /** Ranks are below five, and two statuses share a rank exactly when they are equal or both errors. */
  lemma StatusOrderRanks(a: DomainStatus, b: DomainStatus)
    ensures StatusOrder(a) < 5
    ensures StatusOrder(a) == StatusOrder(b) <==> a == b || (a.Error? && b.Error?)
    ensures a.Available? && !b.Available? ==> StatusOrder(a) < StatusOrder(b)
    ensures b.Error? && !a.Error? ==> StatusOrder(a) < StatusOrder(b)
  {
  }

  /** The status a probe's verdict is shown as; an Unknown keeps its reason. */
  function FromAvailability(a: Types.Availability): (s: DomainStatus) {
    match a
    case Available => DomainStatus.Available
    case Taken => DomainStatus.Taken
    case Unknown(reason) => Error(reason)
  }

  /** The verdict a finished status came from. */
  function ToAvailability(s: DomainStatus): Types.Availability
    requires !s.Pending? && !s.Checking?
  {
    match s
    case Available => Types.Available
    case Taken => Types.Taken
    case Error(reason) => Types.Unknown(reason)
  }

  /** A probe's verdict is shown as a finished status, and the verdict can be read back from it. */
  lemma StatusRoundTrip(a: Types.Availability, s: DomainStatus)
    ensures !FromAvailability(a).Pending? && !FromAvailability(a).Checking?
    ensures ToAvailability(FromAvailability(a)) == a
    ensures !s.Pending? && !s.Checking? ==> FromAvailability(ToAvailability(s)) == s
  {
  }

  /** One row of the result list: a TLD and its status. */
  datatype Entry = Entry(tld: string, status: DomainStatus)

  /** `then_with`: the second comparison decides only a tie of the first. */
  function ThenWith(first: Ordering, second: Ordering): Ordering {
    if first == Equal then second else first
  }

  /**
   * The comparator of `get_sorted_results`: priority TLDs first in their
   * list order, then the others by status rank and then by name.
   */
  function CompareEntries(a: Entry, b: Entry): Ordering {
    CompareRankedEntries(PriorityIndex(a.tld), PriorityIndex(b.tld), a, b)
  }

  /** The comparator given the two priority positions. */
  function CompareRankedEntries(pa: Option<nat>, pb: Option<nat>, a: Entry, b: Entry): Ordering {
    match (pa, pb)
    case (Some(i), Some(j)) => CompareNat(i, j)
    case (Some(_), None) => Less
    case (None, Some(_)) => Greater
    case (None, None) => ThenWith(CompareNat(StatusOrder(a.status), StatusOrder(b.status)), LexCompare(a.tld, b.tld))
  }

  predicate EntryLe(a: Entry, b: Entry) {
    CompareEntries(a, b) != Greater
  }

  /** Rank first, then name: a transitive order on the non-priority rows. */
  lemma RankThenNameTransitive(ra: nat, rb: nat, rc: nat, a: string, b: string, c: string)
    requires ThenWith(CompareNat(ra, rb), LexCompare(a, b)) != Greater
    requires ThenWith(CompareNat(rb, rc), LexCompare(b, c)) != Greater
    ensures ThenWith(CompareNat(ra, rc), LexCompare(a, c)) != Greater
  {
    if ra == rb == rc {
      LexCompareTransitive(a, b, c);
    }
  }

  /** Rank first, then name: any two non-priority rows are ordered one way or the other. */
  lemma RankThenNameTotal(ra: nat, rb: nat, a: string, b: string)
    ensures ThenWith(CompareNat(ra, rb), LexCompare(a, b)) != Greater
            || ThenWith(CompareNat(rb, ra), LexCompare(b, a)) != Greater
  {
    LexCompareReverse(a, b);
  }

  /** The comparator orders any two rows. */
  lemma EntryLeTotal(a: Entry, b: Entry)
    ensures EntryLe(a, b) || EntryLe(b, a)
  {
    RankThenNameTotal(StatusOrder(a.status), StatusOrder(b.status), a.tld, b.tld);
  }

  lemma EntryLeTransitive(a: Entry, b: Entry, c: Entry)
    requires EntryLe(a, b) && EntryLe(b, c)
    ensures EntryLe(a, c)
  {
    if PriorityIndex(a.tld).None? {
      RankThenNameTransitive(StatusOrder(a.status), StatusOrder(b.status), StatusOrder(c.status), a.tld, b.tld, c.tld);
    }
  }

  lemma EntryLeOrdersEveryList(elems: multiset<Entry>)
    ensures TotalOn(EntryLe, elems) && TransitiveOn(EntryLe, elems)
  {
    forall a, b | a in elems && b in elems ensures EntryLe(a, b) || EntryLe(b, a) {
      EntryLeTotal(a, b);
    }
    forall a, b, c | a in elems && b in elems && c in elems && EntryLe(a, b) && EntryLe(b, c)
      ensures EntryLe(a, c)
    {
      EntryLeTransitive(a, b, c);
    }
  }

  /** The status of a TLD: the recorded one, or Pending when none is. */
  function StatusOf(results: map<string, DomainStatus>, tld: string): DomainStatus {
    if tld in results then results[tld] else Pending
  }

  /** One row per listed TLD, in list order. */
  function Entries(tlds: seq<string>, results: map<string, DomainStatus>): (r: seq<Entry>)
    ensures |r| == |tlds|
    ensures forall i :: 0 <= i < |tlds| ==> r[i] == Entry(tlds[i], StatusOf(results, tlds[i]))
  {
    Map(t => Entry(t, StatusOf(results, t)), tlds)
  }

  /** `get_sorted_results`. */
  function SortedEntries(tlds: seq<string>, results: map<string, DomainStatus>): (r: seq<Entry>)
    ensures |r| == |tlds| && multiset(r) == multiset(Entries(tlds, results))
  {
    InsertionSort(EntryLe, Entries(tlds, results))
  }

  /**
   * The sorted list has one row per listed TLD and shows priority TLDs
   * first, in their list order, and then the other TLDs by status rank and
   * name.
   */
  lemma SortedEntriesLayout(tlds: seq<string>, results: map<string, DomainStatus>)
    ensures var r := SortedEntries(tlds, results);
            multiset(r) == multiset(Entries(tlds, results))
            && (forall i, j :: 0 <= i < j < |r| && PriorityIndex(r[j].tld).Some? ==> PriorityIndex(r[i].tld).Some?)
            && (forall i, j :: 0 <= i < j < |r| && PriorityIndex(r[i].tld).Some? && PriorityIndex(r[j].tld).Some? ==>
                  PriorityIndex(r[i].tld).value <= PriorityIndex(r[j].tld).value)
            && (forall i, j :: 0 <= i < j < |r| && PriorityIndex(r[i].tld).None? && PriorityIndex(r[j].tld).None? ==>
                  StatusOrder(r[i].status) <= StatusOrder(r[j].status))
            && (forall i, j ::
                  (0 <= i < j < |r| && PriorityIndex(r[i].tld).None? && PriorityIndex(r[j].tld).None?
                   && StatusOrder(r[i].status) == StatusOrder(r[j].status)) ==> LexCompare(r[i].tld, r[j].tld) != Greater)
  {
    var r := SortedEntries(tlds, results);
    EntryLeOrdersEveryList(multiset(Entries(tlds, results)));
    InsertionSortSorted(EntryLe, Entries(tlds, results));
    forall i, j | 0 <= i < j < |r| ensures EntryLeLayout(r[i], r[j]) {
      EntryLeMeaning(r[i], r[j]);
    }
  }

  /** What one ordered pair of rows satisfies. */
  predicate EntryLeLayout(a: Entry, b: Entry) {
    (PriorityIndex(b.tld).Some? ==> PriorityIndex(a.tld).Some?)
    && (PriorityIndex(a.tld).Some? && PriorityIndex(b.tld).Some? ==>
          PriorityIndex(a.tld).value <= PriorityIndex(b.tld).value)
    && (PriorityIndex(a.tld).None? && PriorityIndex(b.tld).None? ==>
          StatusOrder(a.status) <= StatusOrder(b.status))
    && ((PriorityIndex(a.tld).None? && PriorityIndex(b.tld).None?
         && StatusOrder(a.status) == StatusOrder(b.status)) ==> LexCompare(a.tld, b.tld) != Greater)
  }

  lemma EntryLeMeaning(a: Entry, b: Entry)
    requires EntryLe(a, b)
    ensures EntryLeLayout(a, b)
  {
  }

  /** A row built from the results map: its status is the one recorded for its TLD. */
  predicate IsRow(results: map<string, DomainStatus>, e: Entry) {
    e.status == StatusOf(results, e.tld)
  }

  /** On rows of one map the comparator is antisymmetric: rows ordered both ways have the same TLD, hence the same status. */
  lemma EntryLeAntisymmetricOnRows(results: map<string, DomainStatus>, a: Entry, b: Entry)
    requires IsRow(results, a) && IsRow(results, b)
    requires EntryLe(a, b) && EntryLe(b, a)
    ensures a == b
  {
    LexCompareEqual(a.tld, b.tld);
    LexCompareReverse(a.tld, b.tld);
    RankedSameTld(PriorityIndex(a.tld), PriorityIndex(b.tld), a, b);
  }

  /** Rows ordered both ways, with the priority positions of their TLDs, have the same TLD. */
  lemma RankedSameTld(pa: Option<nat>, pb: Option<nat>, a: Entry, b: Entry)
    requires pa.Some? ==> pa.value < |PriorityTlds| && PriorityTlds[pa.value] == a.tld
    requires pb.Some? ==> pb.value < |PriorityTlds| && PriorityTlds[pb.value] == b.tld
    requires LexCompare(a.tld, b.tld) == Equal <==> a.tld == b.tld
    requires LexCompare(b.tld, a.tld) == LexCompare(a.tld, b.tld).Reverse()
    requires CompareRankedEntries(pa, pb, a, b) != Greater && CompareRankedEntries(pb, pa, b, a) != Greater
    ensures a.tld == b.tld
  {
  }

  lemma RowsAntisymmetric(tlds: seq<string>, results: map<string, DomainStatus>)
    ensures AntisymmetricOn(EntryLe, multiset(Entries(tlds, results)))
  {
    var rows := Entries(tlds, results);
    forall a, b | a in multiset(rows) && b in multiset(rows) && EntryLe(a, b) && EntryLe(b, a) ensures a == b {
      assert a in rows && b in rows;
      EntryLeAntisymmetricOnRows(results, a, b);
    }
  }

  /** Every sorted permutation of the rows is the sorted list: the sort algorithm does not matter. */
  lemma SortedEntriesUnique(tlds: seq<string>, results: map<string, DomainStatus>, other: seq<Entry>)
    requires multiset(other) == multiset(Entries(tlds, results)) && SortedBy(EntryLe, other)
    ensures other == SortedEntries(tlds, results)
  {
    var rows := Entries(tlds, results);
    EntryLeOrdersEveryList(multiset(rows));
    InsertionSortSorted(EntryLe, rows);
    RowsAntisymmetric(tlds, results);
    SortedPermutationUnique(EntryLe, other, InsertionSort(EntryLe, rows));
  }

  /** The `get_filtered_results` test: All shows every row, the other modes only rows with that status. */
  predicate Shows(mode: FilterMode, e: Entry) {
    match mode
    case All => true
    case Available => e.status.Available?
    case Taken => e.status.Taken?
  }

  function FilteredEntries(mode: FilterMode, tlds: seq<string>, results: map<string, DomainStatus>): (r: seq<Entry>)
    ensures |r| <= |tlds|
    ensures forall i :: 0 <= i < |r| ==> Shows(mode, r[i])
  {
    Filter(e => Shows(mode, e), SortedEntries(tlds, results))
  }

  /** The All mode hides nothing, and every row another mode shows has that mode's status. */
  lemma FilteredEntriesMeaning(mode: FilterMode, tlds: seq<string>, results: map<string, DomainStatus>)
    ensures mode == All ==> FilteredEntries(mode, tlds, results) == SortedEntries(tlds, results)
    ensures var r := FilteredEntries(mode, tlds, results);
            forall i :: 0 <= i < |r| ==>
              (mode == FilterMode.Available ==> r[i].status.Available?)
              && (mode == FilterMode.Taken ==> r[i].status.Taken?)
  {
    ShownRowsMeaning(mode, SortedEntries(tlds, results));
  }

  lemma ShownRowsMeaning(mode: FilterMode, rows: seq<Entry>)
    ensures mode == All ==> Filter(e => Shows(mode, e), rows) == rows
    ensures var r := Filter(e => Shows(mode, e), rows);
            forall i :: 0 <= i < |r| ==>
              (mode == FilterMode.Available ==> r[i].status.Available?)
              && (mode == FilterMode.Taken ==> r[i].status.Taken?)
  {
    if mode == All {
      FilterAll(e => Shows(mode, e), rows);
    }
  }

  /** Rust's `usize`, 64 bits wide. */
  const UsizeModulus: nat := 0x1_0000_0000_0000_0000

  /** `usize::saturating_sub`. */
  function SaturatingSub(a: nat, b: nat): nat {
    if a >= b then a - b else 0
  }

  /** A selection the list can show: one row at most `len - 1`, or row 0 of an empty list. */
  predicate InBounds(i: nat, len: nat) {
    i <= SaturatingSub(len, 1)
  }

  /**
   * `scroll_down` as written: the bound `self.tlds.len() - 1` is a `usize`
   * subtraction, which wraps in a release build when the list is empty (a
   * debug build panics there instead).
   */
  function ScrollDownAsWritten(selected: Option<nat>, len: nat): nat {
    match selected
    case None => 0
    case Some(i) => if i >= (len - 1) % UsizeModulus then i else i + 1
  }

  /** `scroll_down` with the bound computed as `saturating_sub(1)`, as the page and bottom keys do. */
  function ScrollDownIndex(selected: Option<nat>, len: nat): nat {
    match selected
    case None => 0
    case Some(i) => if i >= SaturatingSub(len, 1) then i else i + 1
  }

  /** On an empty list the written `scroll_down` moves the selection from row 0 to row 1, which does not exist. */
  lemma ScrollDownAsWrittenLeavesList()
    ensures InBounds(0, 0)
    ensures ScrollDownAsWritten(Some(0), 0) == 1 && !InBounds(1, 0)
    ensures ScrollDownIndex(Some(0), 0) == 0
  {
  }

  /** On a non-empty list the two agree: the correction only changes the empty case. */
  lemma ScrollDownCorrectionAgrees(selected: Option<nat>, len: nat)
    requires 0 < len < UsizeModulus
    ensures ScrollDownAsWritten(selected, len) == ScrollDownIndex(selected, len)
  {
  }

  /** `scroll_up`: one row up, stopping at row 0. */
  function ScrollUpIndex(selected: Option<nat>): (r: nat)
    ensures selected.Some? ==> r <= selected.value <= r + 1
  {
    match selected
    case None => 0
    case Some(i) => if i == 0 then 0 else i - 1
  }

  /** `scroll_page_down`: twenty rows down, stopping at the last row. */
  function PageDownIndex(selected: Option<nat>, len: nat): (r: nat)
    ensures InBounds(r, len)
    ensures selected.Some? ==> r <= selected.value + 20
  {
    match selected
    case None => 0
    case Some(i) => if i + 20 <= SaturatingSub(len, 1) then i + 20 else SaturatingSub(len, 1)
  }

  /** `scroll_page_up`: twenty rows up, stopping at row 0. */
  function PageUpIndex(selected: Option<nat>): (r: nat)
    ensures selected.Some? ==> r <= selected.value <= r + 20
  {
    match selected
    case None => 0
    case Some(i) => SaturatingSub(i, 20)
  }

  /** `scroll_to_bottom`. */
  function BottomIndex(len: nat): (r: nat)
    ensures InBounds(r, len)
    ensures len > 0 ==> r == len - 1
  {
    SaturatingSub(len, 1)
  }

  /** From a selection on the list, every key leaves the selection on the list. */
  lemma ScrollKeepsSelectionInBounds(i: nat, len: nat)
    requires InBounds(i, len)
    ensures InBounds(ScrollDownIndex(Some(i), len), len)
    ensures InBounds(ScrollUpIndex(Some(i)), len)
    ensures InBounds(PageDownIndex(Some(i), len), len)
    ensures InBounds(PageUpIndex(Some(i)), len)
    ensures InBounds(0, len) && InBounds(BottomIndex(len), len)
  {
  }

  /** One step down is a page of one: it stops at the last row. */
  lemma ScrollDownStopsAtEnd(i: nat, len: nat)
    requires InBounds(i, len)
    ensures ScrollDownIndex(Some(i), len) == if i + 1 <= SaturatingSub(len, 1) then i + 1 else SaturatingSub(len, 1)
  {
  }

  /** Down then up returns to the row below the last; up then down returns to any row but the first. */
  lemma ScrollUpUndoesDown(i: nat, len: nat)
    ensures i + 1 < len ==> ScrollUpIndex(Some(ScrollDownIndex(Some(i), len))) == i
    ensures 0 < i < len ==> ScrollDownIndex(Some(ScrollUpIndex(Some(i))), len) == i
  {
  }

  /** A page down then a page up returns to a row at least a page above the end. */
  lemma PageUpUndoesPageDown(i: nat, len: nat)
    requires i + 20 < len
    ensures PageUpIndex(Some(PageDownIndex(Some(i), len))) == i
  {
  }

  /** The state of the interface that is not drawing. */
  class App {
    const query: string
    const tlds: seq<string>
    const specificDomain: Option<string>
    var results: map<string, DomainStatus>
    var selected: Option<nat>
    var filterMode: FilterMode

    /** The selection is always on the list (row 0 when it is empty). */
    predicate Valid()
      reads this
    {
      selected.Some? && InBounds(selected.value, |tlds|)
    }

    /** `App::new`: every TLD Pending, row 0 selected, no filter. */
    constructor(initialQuery: Option<string>, specificTld: Option<string>, tlds: seq<string>)
      ensures Valid()
      ensures this.tlds == tlds && selected == Some(0) && filterMode == All
      ensures query == if initialQuery.Some? then initialQuery.value else []
      ensures specificDomain == if initialQuery.Some? && specificTld.Some? then Some(initialQuery.value + "." + specificTld.value) else None
      ensures forall t :: t in results <==> t in tlds
      ensures forall t :: t in results ==> results[t] == Pending
    {
      var res: map<string, DomainStatus> := map[];
      var i := 0;
      while i < |tlds|
        invariant 0 <= i <= |tlds|
        invariant forall t :: t in res <==> t in tlds[..i]
        invariant forall t :: t in res ==> res[t] == Pending
      {
        assert tlds[..i + 1] == tlds[..i] + [tlds[i]];
        res := res[tlds[i] := Pending];
        i := i + 1;
      }
      assert tlds[..i] == tlds;
      this.query := if initialQuery.Some? then initialQuery.value else [];
      this.tlds := tlds;
      this.specificDomain := if initialQuery.Some? && specificTld.Some? then Some(initialQuery.value + "." + specificTld.value) else None;
      results := res;
      selected := Some(0);
      filterMode := All;
    }

    /** `get_sorted_results`. */
    function SortedResults(): seq<Entry>
      reads this
    {
      SortedEntries(tlds, results)
    }

    /** `get_filtered_results`. */
    function FilteredResults(): seq<Entry>
      reads this
    {
      FilteredEntries(filterMode, tlds, results)
    }

    /** `scroll_down`, with the bound corrected. */
    method ScrollDown()
      requires Valid()
      modifies this
      ensures Valid()
      ensures selected == Some(ScrollDownIndex(old(selected), |tlds|))
      ensures results == old(results) && filterMode == old(filterMode)
    {
      selected := Some(ScrollDownIndex(selected, |tlds|));
      ScrollKeepsSelectionInBounds(old(selected).value, |tlds|);
    }

    /** `scroll_up`. */
    method ScrollUp()
      requires Valid()
      modifies this
      ensures Valid()
      ensures selected == Some(ScrollUpIndex(old(selected)))
      ensures results == old(results) && filterMode == old(filterMode)
    {
      selected := Some(ScrollUpIndex(selected));
      ScrollKeepsSelectionInBounds(old(selected).value, |tlds|);
    }

    /** `scroll_page_down`: twenty rows, clamped to the last. */
    method ScrollPageDown()
      requires Valid()
      modifies this
      ensures Valid()
      ensures selected == Some(PageDownIndex(old(selected), |tlds|))
      ensures results == old(results) && filterMode == old(filterMode)
    {
      var last := SaturatingSub(|tlds|, 1);
      var i := if selected.Some? then (if selected.value + 20 <= last then selected.value + 20 else last) else 0;
      selected := Some(i);
    }

    /** `scroll_page_up`: twenty rows, clamped to the first. */
    method ScrollPageUp()
      requires Valid()
      modifies this
      ensures Valid()
      ensures selected == Some(PageUpIndex(old(selected)))
      ensures results == old(results) && filterMode == old(filterMode)
    {
      selected := Some(PageUpIndex(selected));
    }

    /** `scroll_to_top`. */
    method ScrollToTop()
      modifies this
      ensures Valid()
      ensures selected == Some(0)
      ensures results == old(results) && filterMode == old(filterMode)
    {
      selected := Some(0);
    }

    /** `scroll_to_bottom`. */
    method ScrollToBottom()
      modifies this
      ensures Valid()
      ensures selected == Some(BottomIndex(|tlds|))
      ensures results == old(results) && filterMode == old(filterMode)
    {
      selected := Some(SaturatingSub(|tlds|, 1));
    }

    /** The Tab key: the next filter mode, and the selection back to row 0. */
    method CycleFilter()
      modifies this
      ensures Valid()
      ensures filterMode == old(filterMode).Next() && selected == Some(0)
      ensures results == old(results)
    {
      filterMode := filterMode.Next();
      selected := Some(0);
    }

    /** The start of `start_checking`: nothing without a query, otherwise every listed TLD becomes Checking. */
    method StartChecking()
      modifies this
      ensures query == [] ==> results == old(results)
      ensures query != [] ==>
                (forall t :: t in results <==> t in old(results) || t in tlds)
                && (forall t :: t in tlds ==> results[t] == Checking)
                && (forall t :: t in old(results) && t !in tlds ==> results[t] == old(results)[t])
      ensures selected == old(selected) && filterMode == old(filterMode)
    {
      if query == [] {
        return;
      }
      var i := 0;
      while i < |tlds|
        invariant 0 <= i <= |tlds|
        invariant selected == old(selected) && filterMode == old(filterMode)
        invariant forall t :: t in results <==> t in old(results) || t in tlds[..i]
        invariant forall t :: t in tlds[..i] ==> results[t] == Checking
        invariant forall t :: t in old(results) && t !in tlds[..i] ==> results[t] == old(results)[t]
      {
        assert tlds[..i + 1] == tlds[..i] + [tlds[i]];
        results := results[tlds[i] := Checking];
        i := i + 1;
      }
      assert tlds[..i] == tlds;
    }

    /** One result of the probe stream: its status is recorded under the last label of its domain. */
    method RecordResult(r: Types.ProbeResult)
      modifies this
      ensures results == old(results)[LastLabel(r.domain) := FromAvailability(r.availability)]
      ensures selected == old(selected) && filterMode == old(filterMode)
    {
      var tld := LastLabel(r.domain);
      results := results[tld := FromAvailability(r.availability)];
    }
  }

  /**
   * For a candidate `query.tld` with a dot-free TLD, the result lands on
   * that TLD's row with a finished status carrying the verdict.
   */
  lemma ResultLandsOnItsRow(query: string, tld: string, a: Types.Availability)
    requires '.' !in tld
    ensures LastLabel(query + "." + tld) == tld
    ensures var s := FromAvailability(a);
            !s.Pending? && !s.Checking? && ToAvailability(s) == a
  {
    LastLabelOfJoin(query, tld);
  }
}
