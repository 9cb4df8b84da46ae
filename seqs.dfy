/** Iterator adaptors used by the Rust code (`filter`, `retain`, `position`), over sequences. */
module Seqs {
  import opened Wrappers

  /** `iter().filter(keep)` / `Vec::retain(keep)`: the elements that pass, in their original order. */
  function Filter<T(==)>(keep: T -> bool, s: seq<T>): (r: seq<T>)
    ensures |r| <= |s|
    ensures forall i :: 0 <= i < |r| ==> r[i] in s && keep(r[i])
    ensures forall i :: 0 <= i < |s| && keep(s[i]) ==> s[i] in r
    ensures multiset(r) <= multiset(s)
  {
    if s == [] then []
    else
      var rest := Filter(keep, s[1..]);
      var r := (if keep(s[0]) then [s[0]] else []) + rest;
      FilterCons(keep, s, rest, r);
      r
  }

  /** The step of Filter: what holds of the filtered tail carries over to the whole sequence. */
  lemma FilterCons<T>(keep: T -> bool, s: seq<T>, rest: seq<T>, r: seq<T>)
    requires s != [] && r == (if keep(s[0]) then [s[0]] else []) + rest
    requires |rest| <= |s[1..]|
    requires forall i :: 0 <= i < |rest| ==> rest[i] in s[1..] && keep(rest[i])
    requires forall i :: 0 <= i < |s[1..]| && keep(s[1..][i]) ==> s[1..][i] in rest
    requires multiset(rest) <= multiset(s[1..])
    ensures |r| <= |s|
    ensures forall i :: 0 <= i < |r| ==> r[i] in s && keep(r[i])
    ensures forall i :: 0 <= i < |s| && keep(s[i]) ==> s[i] in r
    ensures multiset(r) <= multiset(s)
  {
    assert s == [s[0]] + s[1..];
    forall i | 0 <= i < |r|
      ensures r[i] in s && keep(r[i])
    {
      if i >= |r| - |rest| {
        assert r[i] == rest[i - (|r| - |rest|)];
      }
    }
    forall i | 0 <= i < |s| && keep(s[i])
      ensures s[i] in r
    {
      if i > 0 {
        assert s[i] == s[1..][i - 1];
      }
    }
  }

  /** Filtering distributes over concatenation, so it never reorders what it keeps. */
  lemma {:induction false} FilterAppend<T>(keep: T -> bool, a: seq<T>, b: seq<T>)
    ensures Filter(keep, a + b) == Filter(keep, a) + Filter(keep, b)
  {
    if a == [] {
      assert a + b == b;
    } else {
      assert (a + b)[1..] == a[1..] + b;
      FilterAppend(keep, a[1..], b);
    }
  }

  /** Filtering a sequence whose every element passes changes nothing. */
  lemma {:induction false} FilterAll<T>(keep: T -> bool, s: seq<T>)
    requires forall i :: 0 <= i < |s| ==> keep(s[i])
    ensures Filter(keep, s) == s
  {
    if s != [] {
      FilterAll(keep, s[1..]);
    }
  }

  /** `iter().map(f)`: `f` applied to each element, in order. */
  function Map<T, U>(f: T -> U, s: seq<T>): (r: seq<U>)
    ensures |r| == |s|
    ensures forall i :: 0 <= i < |s| ==> r[i] == f(s[i])
  {
    seq(|s|, i requires 0 <= i < |s| => f(s[i]))
  }

  lemma MapAppend<T, U>(f: T -> U, a: seq<T>, b: seq<T>)
    ensures Map(f, a + b) == Map(f, a) + Map(f, b)
  {
  }

  lemma MapMember<T, U>(f: T -> U, s: seq<T>, x: T)
    requires x in s
    ensures f(x) in Map(f, s)
  {
    var i :| 0 <= i < |s| && s[i] == x;
    assert Map(f, s)[i] == f(x);
  }

  lemma FilterMember<T>(keep: T -> bool, s: seq<T>, x: T)
    requires x in s && keep(x)
    ensures x in Filter(keep, s)
  {
    var i :| 0 <= i < |s| && s[i] == x;
  }

  /** `iter().position(pred)`: the index of the first element satisfying `pred`. */
  function Position<T>(s: seq<T>, pred: T -> bool): (r: Option<nat>)
    ensures r.Some? ==> r.value < |s| && pred(s[r.value])
    ensures r.Some? ==> forall k :: 0 <= k < r.value ==> !pred(s[k])
    ensures r.None? <==> forall k :: 0 <= k < |s| ==> !pred(s[k])
  {
    if s == [] then None
    else if pred(s[0]) then Some(0)
    else match Position(s[1..], pred)
      case None => None
      case Some(i) => Some(i + 1)
  }

  /** A sequence without repeated elements. */
  predicate NoDuplicates<T(==)>(s: seq<T>) {
    forall i, j :: 0 <= i < j < |s| ==> s[i] != s[j]
  }
}
