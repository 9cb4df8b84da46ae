/**
 * `sort_tlds_with_priority` and its comparator: the well-known TLDs of
 * `PRIORITY_TLDS` first, in that list's order, then every other TLD in
 * lexicographic order.
 */
module TldSort {
  import opened Wrappers
  import opened Seqs
  import opened Sorting

  /** `std::cmp::Ordering`. */
  datatype Ordering = Less | Equal | Greater {
    function Reverse(): Ordering {
      match this
      case Less => Greater
      case Equal => Equal
      case Greater => Less
    }
  }

  /** `usize::cmp`. */
  function CompareNat(a: nat, b: nat): (r: Ordering)
    ensures r == Less <==> a < b
    ensures r == Equal <==> a == b
  {
    if a < b then Less else if a == b then Equal else Greater
  }

  /**
   * `String::cmp`: lexicographic on characters. Rust compares the UTF-8
   * bytes, and UTF-8 preserves the order of code points, so the two agree.
   */
  function LexCompare(a: string, b: string): Ordering {
    if a == [] then (if b == [] then Equal else Less)
    else if b == [] then Greater
    else if a[0] < b[0] then Less
    else if a[0] > b[0] then Greater
    else LexCompare(a[1..], b[1..])
  }

  /** Only equal strings compare Equal. */
  lemma {:induction false} LexCompareEqual(a: string, b: string)
    ensures LexCompare(a, b) == Equal <==> a == b
  {
    if a != [] && b != [] && a[0] == b[0] {
      LexCompareEqual(a[1..], b[1..]);
      assert a == [a[0]] + a[1..] && b == [b[0]] + b[1..];
    }
  }

  /** Swapping the operands reverses the answer. */
  lemma {:induction false} LexCompareReverse(a: string, b: string)
    ensures LexCompare(b, a) == LexCompare(a, b).Reverse()
  {
    if a != [] && b != [] && a[0] == b[0] {
      LexCompareReverse(a[1..], b[1..]);
    }
  }

  lemma {:induction false} LexCompareTransitive(a: string, b: string, c: string)
    requires LexCompare(a, b) != Greater && LexCompare(b, c) != Greater
    ensures LexCompare(a, c) != Greater
  {
    if a != [] && b != [] && c != [] && a[0] == b[0] == c[0] {
      LexCompareTransitive(a[1..], b[1..], c[1..]);
    }
  }

  /** `PRIORITY_TLDS`. */
  const PriorityTlds: seq<string> := [
    "com", "net", "org", "io", "ai", "dev", "app", "co", "me", "tech",
    "xyz", "online", "site", "store", "shop", "blog", "cloud", "digital",
    "eu", "us", "info", "email", "pro", "live", "zone", "team", "solutions"
  ]

  /** `PRIORITY_TLDS.iter().position(|&t| t == tld)`: exact, case-sensitive. */
  function PriorityIndex(tld: string): (r: Option<nat>)
    ensures r.Some? ==> r.value < |PriorityTlds| && PriorityTlds[r.value] == tld
    ensures r.None? <==> tld !in PriorityTlds
  {
    Position(PriorityTlds, t => t == tld)
  }

  /** The comparator of `sort_tlds_with_priority`. */
  function CompareTlds(a: string, b: string): Ordering {
    CompareRanked(PriorityIndex(a), PriorityIndex(b), a, b)
  }

  /** The comparator given the two priority positions: listed before unlisted, then by position, then by name. */
  function CompareRanked(pa: Option<nat>, pb: Option<nat>, a: string, b: string): Ordering {
    match (pa, pb)
    case (Some(i), Some(j)) => CompareNat(i, j)
    case (Some(_), None) => Less
    case (None, Some(_)) => Greater
    case (None, None) => LexCompare(a, b)
  }

  /** `a` may be placed before `b`. */
  predicate TldLe(a: string, b: string) {
    CompareTlds(a, b) != Greater
  }

  /** The comparator is a total order: any two TLDs are ordered, transitively, and only equal ones both ways. */
  lemma TldLeTotalOrder(a: string, b: string, c: string)
    ensures TldLe(a, b) || TldLe(b, a)
    ensures TldLe(a, b) && TldLe(b, a) ==> a == b
    ensures TldLe(a, b) && TldLe(b, c) ==> TldLe(a, c)
  {
    TldLeTotal(a, b);
    if TldLe(a, b) && TldLe(b, a) {
      TldLeAntisymmetric(a, b);
    }
    if TldLe(a, b) && TldLe(b, c) {
      TldLeTransitive(a, b, c);
    }
  }

  lemma TldLeTotal(a: string, b: string)
    ensures TldLe(a, b) || TldLe(b, a)
  {
    LexCompareReverse(a, b);
    RankedTotal(PriorityIndex(a), PriorityIndex(b), a, b);
  }

  lemma RankedTotal(pa: Option<nat>, pb: Option<nat>, a: string, b: string)
    requires LexCompare(b, a) == LexCompare(a, b).Reverse()
    ensures CompareRanked(pa, pb, a, b) != Greater || CompareRanked(pb, pa, b, a) != Greater
  {
  }

  lemma TldLeAntisymmetric(a: string, b: string)
    requires TldLe(a, b) && TldLe(b, a)
    ensures a == b
  {
    var pa, pb := PriorityIndex(a), PriorityIndex(b);
    if pa.None? && pb.None? {
      LexCompareReverse(a, b);
      LexCompareEqual(a, b);
    } else {
      assert pa.Some? && pb.Some? && pa.value == pb.value;
    }
  }

  lemma TldLeTransitive(a: string, b: string, c: string)
    requires TldLe(a, b) && TldLe(b, c)
    ensures TldLe(a, c)
  {
    if PriorityIndex(a).None? {
      LexCompareTransitive(a, b, c);
    }
  }

  lemma TldLeOrdersEveryList(elems: multiset<string>)
    ensures TotalOn(TldLe, elems) && TransitiveOn(TldLe, elems) && AntisymmetricOn(TldLe, elems)
  {
    forall a, b | a in elems && b in elems ensures TldLe(a, b) || TldLe(b, a) {
      TldLeTotalOrder(a, b, a);
    }
    forall a, b, c | a in elems && b in elems && c in elems && TldLe(a, b) && TldLe(b, c)
      ensures TldLe(a, c)
    {
      TldLeTotalOrder(a, b, c);
    }
    forall a, b | a in elems && b in elems && TldLe(a, b) && TldLe(b, a) ensures a == b {
      TldLeTotalOrder(a, b, a);
    }
  }

  /** `sort_tlds_with_priority`. */
  function SortTldsWithPriority(tlds: seq<string>): (r: seq<string>)
    ensures multiset(r) == multiset(tlds)
  {
    InsertionSort(TldLe, tlds)
  }

  /** The result is a permutation of the input, sorted by the comparator. */
  lemma SortTldsSorted(tlds: seq<string>)
    ensures multiset(SortTldsWithPriority(tlds)) == multiset(tlds)
    ensures SortedBy(TldLe, SortTldsWithPriority(tlds))
  {
    TldLeOrdersEveryList(multiset(tlds));
    InsertionSortSorted(TldLe, tlds);
  }

  /**
   * Priority TLDs come first, in `PRIORITY_TLDS` order, and the rest follow
   * in lexicographic order.
   */
  lemma SortTldsLayout(tlds: seq<string>)
    ensures var r := SortTldsWithPriority(tlds);
            (forall i, j :: 0 <= i < j < |r| && PriorityIndex(r[j]).Some? ==> PriorityIndex(r[i]).Some?)
            && (forall i, j :: 0 <= i < j < |r| && PriorityIndex(r[i]).Some? && PriorityIndex(r[j]).Some? ==>
                  PriorityIndex(r[i]).value <= PriorityIndex(r[j]).value)
            && (forall i, j :: 0 <= i < j < |r| && PriorityIndex(r[i]).None? && PriorityIndex(r[j]).None? ==>
                  LexCompare(r[i], r[j]) != Greater)
  {
    SortTldsSorted(tlds);
  }

  /** Every sorted permutation of the input is the result: the sort algorithm does not matter. */
  lemma SortTldsUnique(tlds: seq<string>, other: seq<string>)
    requires multiset(other) == multiset(tlds) && SortedBy(TldLe, other)
    ensures other == SortTldsWithPriority(tlds)
  {
    SortTldsSorted(tlds);
    TldLeOrdersEveryList(multiset(tlds));
    SortedPermutationUnique(TldLe, other, SortTldsWithPriority(tlds));
  }

  /** Sorting twice is sorting once. */
  lemma SortTldsIdempotent(tlds: seq<string>)
    ensures SortTldsWithPriority(SortTldsWithPriority(tlds)) == SortTldsWithPriority(tlds)
  {
    var r := SortTldsWithPriority(tlds);
    SortTldsSorted(tlds);
    SortTldsSorted(r);
    SortTldsUnique(r, r);
  }
}
