/**
 * The string operations the Rust code relies on (`to_lowercase`, `contains`,
 * `starts_with`, `rfind`, `rsplit(..).next()`, `trim`, `trim_end_matches`,
 * `format!("{}", n)`), written out over `seq<char>`.
 */
module Text {
  import opened Wrappers

  predicate IsAsciiUpper(c: char) { 'A' <= c <= 'Z' }

  predicate IsAsciiLower(c: char) { 'a' <= c <= 'z' }

  predicate IsAsciiAlphabetic(c: char) { IsAsciiUpper(c) || IsAsciiLower(c) }

  /** `char::to_ascii_lowercase`: upper-case ASCII letters become lower case, nothing else moves. */
  function LowerChar(c: char): (r: char)
    ensures !IsAsciiUpper(r)
    ensures IsAsciiAlphabetic(c) <==> IsAsciiAlphabetic(r)
    ensures !IsAsciiUpper(c) ==> r == c
  {
    if IsAsciiUpper(c) then (c as int + 32) as char else c
  }

  /** Lower-casing a string character by character (the ASCII part of `to_lowercase`). */
  function Lower(s: string): (r: string)
    ensures |r| == |s|
    ensures forall i :: 0 <= i < |s| ==> r[i] == LowerChar(s[i])
  {
    seq(|s|, i requires 0 <= i < |s| => LowerChar(s[i]))
  }

  /** A string with no upper-case ASCII letter. */
  predicate IsLowercase(s: string) {
    forall i :: 0 <= i < |s| ==> !IsAsciiUpper(s[i])
  }

  lemma LowerIsLowercase(s: string)
    ensures IsLowercase(Lower(s))
  {
  }

  lemma LowerIdempotent(s: string)
    ensures Lower(Lower(s)) == Lower(s)
  {
  }

  lemma LowerOfLowercase(s: string)
    requires IsLowercase(s)
    ensures Lower(s) == s
  {
  }

  lemma LowerAppend(a: string, b: string)
    ensures Lower(a + b) == Lower(a) + Lower(b)
  {
  }

  /** `str::eq_ignore_ascii_case`. */
  predicate EqIgnoreAsciiCase(a: string, b: string) {
    Lower(a) == Lower(b)
  }

  /** `p` occurs in `s` starting at index `i`. */
  predicate OccursAt(s: string, p: string, i: int) {
    0 <= i <= |s| - |p| && s[i..i + |p|] == p
  }

  /** `str::contains` for a string pattern. */
  predicate Contains(s: string, p: string) {
    exists i :: 0 <= i <= |s| - |p| && OccursAt(s, p, i)
  }

  /** A pattern found in `a` is still found once text is added on either side. */
  lemma ContainsExtend(a: string, b: string, c: string, p: string)
    requires Contains(b, p)
    ensures Contains(a + b + c, p)
  {
    var i :| 0 <= i <= |b| - |p| && OccursAt(b, p, i);
    var s := a + b + c;
    assert s[|a| + i..|a| + i + |p|] == b[i..i + |p|];
    assert OccursAt(s, p, |a| + i);
  }

  /** A pattern holding a character the string lacks does not occur in it. */
  lemma NotContainsMissingChar(s: string, p: string, c: char)
    requires c in p && c !in s
    ensures !Contains(s, p)
  {
    forall i | 0 <= i <= |s| - |p| ensures !OccursAt(s, p, i) {
      var k :| 0 <= k < |p| && p[k] == c;
      assert s[i..i + |p|][k] == s[i + k];
    }
  }

  /** A character outside the ASCII upper-case range and its lower-case image stay out of the lowered string. */
  lemma LowerMissingChar(s: string, c: char)
    requires IsAsciiLower(c) && c !in s && (c as int - 32) as char !in s
    ensures c !in Lower(s)
  {
    forall i | 0 <= i < |s| ensures Lower(s)[i] != c {
      assert s[i] != c && s[i] != (c as int - 32) as char;
    }
  }

  /** `str::starts_with` for a string pattern. */
  predicate StartsWith(s: string, p: string) {
    |p| <= |s| && s[..|p|] == p
  }

  /** `str::rfind` for a single character. */
  function LastIndexOf(s: string, c: char): (r: Option<nat>)
    ensures r.Some? ==> r.value < |s| && s[r.value] == c
    ensures r.Some? ==> forall k :: r.value < k < |s| ==> s[k] != c
    ensures r.None? <==> c !in s
  {
    if s == [] then None
    else if s[|s| - 1] == c then Some(|s| - 1)
    else LastIndexOf(s[..|s| - 1], c)
  }

  /**
   * The first item of `s.rsplit('.')`: the text after the last dot, or all
   * of `s` when it has no dot. The iterator always yields this item.
   */
  function LastLabel(s: string): (r: string)
    ensures '.' !in r
    ensures |r| <= |s| && s[|s| - |r|..] == r
    ensures |r| < |s| ==> s[|s| - |r| - 1] == '.'
  {
    match LastIndexOf(s, '.')
    case None => s
    case Some(i) => s[i + 1..]
  }

  /** The last label is empty exactly when the string is empty or ends with a dot. */
  lemma LastLabelEmpty(s: string)
    ensures LastLabel(s) == [] <==> (s == [] || s[|s| - 1] == '.')
  {
    if s != [] && s[|s| - 1] == '.' {
      assert LastIndexOf(s, '.') == Some(|s| - 1);
    }
  }

  /** In a name, a dot and a dot-free label, the last dot is the joining one. */
  lemma LastIndexOfJoin(name: string, tail: string)
    requires '.' !in tail
    ensures LastIndexOf(name + "." + tail, '.') == Some(|name|)
  {
    var s := name + "." + tail;
    assert s[|name|] == '.';
    assert forall k :: |name| < k < |s| ==> s[k] == tail[k - |name| - 1];
  }

  /** Joining a name and a dot-free label with a dot, the label is what `rsplit` finds again. */
  lemma LastLabelOfJoin(name: string, tail: string)
    requires '.' !in tail
    ensures LastLabel(name + "." + tail) == tail
  {
    LastIndexOfJoin(name, tail);
    assert (name + "." + tail)[|name| + 1..] == tail;
  }

  /** A dot-free string is its own last label. */
  lemma LastLabelOfDotFree(s: string)
    requires '.' !in s
    ensures LastLabel(s) == s
  {
  }

  /** `str::trim_start_matches` with a character predicate. */
  function TrimStartMatches(s: string, drop: char -> bool): (r: string)
    ensures |r| <= |s| && r == s[|s| - |r|..]
    ensures forall k :: 0 <= k < |s| - |r| ==> drop(s[k])
    ensures r != [] ==> !drop(r[0])
  {
    if s != [] && drop(s[0]) then TrimStartMatches(s[1..], drop) else s
  }

  /** `str::trim_end_matches` with a character predicate. */
  function TrimEndMatches(s: string, drop: char -> bool): (r: string)
    ensures |r| <= |s| && r == s[..|r|]
    ensures forall k :: |r| <= k < |s| ==> drop(s[k])
    ensures r != [] ==> !drop(r[|r| - 1])
  {
    if s != [] && drop(s[|s| - 1]) then TrimEndMatches(s[..|s| - 1], drop) else s
  }

  /** `char::is_whitespace`: the Unicode White_Space property. */
  predicate IsWhitespace(c: char) {
    var n := c as int;
    (0x09 <= n <= 0x0D) || n == 0x20 || n == 0x85 || n == 0xA0 || n == 0x1680
    || (0x2000 <= n <= 0x200A) || n == 0x2028 || n == 0x2029 || n == 0x202F
    || n == 0x205F || n == 0x3000
  }

  /** Lower-casing moves only letters, so it keeps white space and non-white space apart. */
  lemma LowerCharKeepsWhitespace(c: char)
    ensures IsWhitespace(LowerChar(c)) <==> IsWhitespace(c)
  {
  }

  /** `str::trim`: leading and trailing white space removed. */
  function Trim(s: string): (r: string)
    ensures r == [] || (!IsWhitespace(r[0]) && !IsWhitespace(r[|r| - 1]))
    ensures exists i :: 0 <= i <= |s| - |r| && OccursAt(s, r, i)
                        && (forall k :: 0 <= k < i ==> IsWhitespace(s[k]))
                        && (forall k :: i + |r| <= k < |s| ==> IsWhitespace(s[k]))
  {
    var t := TrimStartMatches(s, IsWhitespace);
    var r := TrimEndMatches(t, IsWhitespace);
    TrimmedOccurrence(s, t, r, IsWhitespace);
    r
  }

  /** What the two trimming passes leave is a slice of `s` with dropped characters only around it. */
  lemma TrimmedOccurrence(s: string, t: string, r: string, drop: char -> bool)
    requires |t| <= |s| && t == s[|s| - |t|..] && |r| <= |t| && r == t[..|r|]
    requires forall k :: 0 <= k < |s| - |t| ==> drop(s[k])
    requires forall k :: |r| <= k < |t| ==> drop(t[k])
    ensures OccursAt(s, r, |s| - |t|)
    ensures forall k :: |s| - |t| + |r| <= k < |s| ==> drop(s[k])
  {
    var i := |s| - |t|;
    forall k | 0 <= k < |r|
      ensures s[i + k] == r[k]
    {
      assert s[i + k] == t[k];
    }
    assert s[i..i + |r|] == r;
    forall k | i + |r| <= k < |s|
      ensures drop(s[k])
    {
      assert s[k] == t[k - i];
    }
  }

  /** A string made only of white space trims to the empty string. */
  lemma TrimAllWhitespace(s: string)
    requires forall k :: 0 <= k < |s| ==> IsWhitespace(s[k])
    ensures Trim(s) == []
  {
  }

  /** `format!("{}", d)` for one decimal digit. */
  function DigitChar(d: nat): (c: char)
    requires d < 10
    ensures '0' <= c <= '9' && c as int - '0' as int == d
  {
    ('0' as int + d) as char
  }

  predicate IsDigits(s: string) {
    forall i :: 0 <= i < |s| ==> '0' <= s[i] <= '9'
  }

  /** `format!("{}", n)` for a non-negative integer: its decimal digits, no leading zero. */
  function NatToString(n: nat): (r: string)
    ensures r != [] && IsDigits(r)
    ensures |r| > 1 ==> r[0] != '0'
  {
    if n < 10 then [DigitChar(n)] else NatToString(n / 10) + [DigitChar(n % 10)]
  }

  /** The value a string of decimal digits denotes; the reference reading of NatToString. */
  function DigitsValue(s: string): nat
    requires IsDigits(s)
  {
    if s == [] then 0 else DigitsValue(s[..|s| - 1]) * 10 + (s[|s| - 1] as int - '0' as int)
  }

  lemma {:induction false} DigitsValueOfNatToString(n: nat)
    ensures DigitsValue(NatToString(n)) == n
  {
    if n >= 10 {
      var s := NatToString(n);
      assert s[..|s| - 1] == NatToString(n / 10);
      DigitsValueOfNatToString(n / 10);
    }
  }

  /** Distinct numbers print differently. */
  lemma NatToStringInjective(a: nat, b: nat)
    requires NatToString(a) == NatToString(b)
    ensures a == b
  {
    DigitsValueOfNatToString(a);
    DigitsValueOfNatToString(b);
  }
}
