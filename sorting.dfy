/**
 * `slice::sort_by` with a comparator: the result is a permutation of the
 * input that is sorted by the comparator. The library's algorithm is not
 * part of this model; a stable insertion sort stands in for it, and
 * `SortedPermutationUnique` shows that for a comparator that orders
 * distinct elements strictly, any sorting algorithm gives the same result.
 */
module Sorting {
  /** `le(a, b)` says `a` may come before `b`: the comparator did not answer Greater. */
  predicate SortedBy<T>(le: (T, T) -> bool, s: seq<T>) {
    forall i, j :: 0 <= i < j < |s| ==> le(s[i], s[j])
  }

  /** Any two elements of `elems` are comparable. */
  predicate TotalOn<T(==)>(le: (T, T) -> bool, elems: multiset<T>) {
    forall a, b :: a in elems && b in elems ==> le(a, b) || le(b, a)
  }

  predicate TransitiveOn<T(==)>(le: (T, T) -> bool, elems: multiset<T>) {
    forall a, b, c :: a in elems && b in elems && c in elems && le(a, b) && le(b, c) ==> le(a, c)
  }

  /** Only equal elements are ordered both ways. */
  predicate AntisymmetricOn<T(==)>(le: (T, T) -> bool, elems: multiset<T>) {
    forall a, b :: a in elems && b in elems && le(a, b) && le(b, a) ==> a == b
  }

  /** `x` placed before the first element it may precede. */
  function Insert<T(==)>(le: (T, T) -> bool, x: T, s: seq<T>): (r: seq<T>)
    ensures multiset(r) == multiset(s) + multiset{x}
  {
    if s == [] then [x]
    else if le(x, s[0]) then [x] + s
    else
      assert s == [s[0]] + s[1..];
      [s[0]] + Insert(le, x, s[1..])
  }

  function InsertionSort<T(==)>(le: (T, T) -> bool, s: seq<T>): (r: seq<T>)
    ensures multiset(r) == multiset(s)
  {
    if s == [] then []
    else
      assert s == [s[0]] + s[1..];
      Insert(le, s[0], InsertionSort(le, s[1..]))
  }

  /** Inserting an element that `y` may precede keeps `y` a lower bound. */
  lemma InsertLowerBound<T>(le: (T, T) -> bool, y: T, x: T, s: seq<T>)
    requires le(y, x) && forall k :: 0 <= k < |s| ==> le(y, s[k])
    ensures forall k :: 0 <= k < |Insert(le, x, s)| ==> le(y, Insert(le, x, s)[k])
  {
    var r := Insert(le, x, s);
    forall k | 0 <= k < |r| ensures le(y, r[k]) {
      assert r[k] in multiset(r);
      if r[k] != x {
        assert r[k] in multiset(s);
        var m :| 0 <= m < |s| && s[m] == r[k];
      }
    }
  }

  /** A lower bound of a sorted sequence may be put in front of it. */
  lemma SortedCons<T>(le: (T, T) -> bool, y: T, s: seq<T>)
    requires SortedBy(le, s) && forall k :: 0 <= k < |s| ==> le(y, s[k])
    ensures SortedBy(le, [y] + s)
  {
    var r := [y] + s;
    forall i, j | 0 <= i < j < |r| ensures le(r[i], r[j]) {
      assert r[j] == s[j - 1];
      if i > 0 { assert r[i] == s[i - 1]; }
    }
  }

  lemma {:induction false} InsertSorted<T>(le: (T, T) -> bool, x: T, s: seq<T>)
    requires SortedBy(le, s)
    requires TotalOn(le, multiset(s) + multiset{x}) && TransitiveOn(le, multiset(s) + multiset{x})
    ensures SortedBy(le, Insert(le, x, s))
  {
    var elems := multiset(s) + multiset{x};
    if s != [] {
      assert s[0] in elems && x in elems;
      if le(x, s[0]) {
        forall k | 0 <= k < |s| ensures le(x, s[k]) {
          assert s[k] in elems;
        }
        SortedCons(le, x, s);
      } else {
        var tail := s[1..];
        assert s == [s[0]] + tail;
        assert multiset(tail) + multiset{x} <= elems;
        InsertSorted(le, x, tail);
        assert forall k :: 0 <= k < |tail| ==> tail[k] == s[k + 1];
        InsertLowerBound(le, s[0], x, tail);
        SortedCons(le, s[0], Insert(le, x, tail));
      }
    }
  }

  /** For a total, transitive comparator, the insertion sort's result is sorted. */
  lemma {:induction false} InsertionSortSorted<T>(le: (T, T) -> bool, s: seq<T>)
    requires TotalOn(le, multiset(s)) && TransitiveOn(le, multiset(s))
    ensures SortedBy(le, InsertionSort(le, s))
  {
    if s != [] {
      assert s == [s[0]] + s[1..];
      assert multiset(s) == multiset(s[1..]) + multiset{s[0]};
      InsertionSortSorted(le, s[1..]);
      InsertSorted(le, s[0], InsertionSort(le, s[1..]));
    }
  }

  lemma SortedTail<T>(le: (T, T) -> bool, s: seq<T>)
    requires s != [] && SortedBy(le, s)
    ensures SortedBy(le, s[1..])
  {
    forall i, j | 0 <= i < j < |s| - 1 ensures le(s[1..][i], s[1..][j]) {
      assert s[1..][i] == s[i + 1] && s[1..][j] == s[j + 1];
    }
  }

  /** Two sorted permutations of the same non-empty elements start with the same element. */
  lemma SortedHeadsEqual<T>(le: (T, T) -> bool, a: seq<T>, b: seq<T>)
    requires a != [] && multiset(a) == multiset(b)
    requires SortedBy(le, a) && SortedBy(le, b) && AntisymmetricOn(le, multiset(a))
    ensures b != [] && a[0] == b[0]
  {
    assert a[0] in multiset(b) && b[0] in multiset(a);
    var k :| 0 <= k < |b| && b[k] == a[0];
    var m :| 0 <= m < |a| && a[m] == b[0];
    if k > 0 { assert le(b[0], b[k]); }
    if m > 0 { assert le(a[0], a[m]); }
    assert a[0] in multiset(a);
  }

  /** Two sorted permutations of the same elements are equal when the comparator is antisymmetric. */
  lemma {:induction false} SortedPermutationUnique<T>(le: (T, T) -> bool, a: seq<T>, b: seq<T>)
    requires multiset(a) == multiset(b)
    requires SortedBy(le, a) && SortedBy(le, b) && AntisymmetricOn(le, multiset(a))
    ensures a == b
  {
    if a != [] {
      SortedHeadsEqual(le, a, b);
      var a', b' := a[1..], b[1..];
      assert a == [a[0]] + a' && b == [b[0]] + b';
      assert multiset(a) == multiset{a[0]} + multiset(a');
      assert multiset(b) == multiset{a[0]} + multiset(b');
      assert multiset(a') == multiset(b');
      SortedTail(le, a);
      SortedTail(le, b);
      assert multiset(a') <= multiset(a);
      SortedPermutationUnique(le, a', b');
    }
  }
}
