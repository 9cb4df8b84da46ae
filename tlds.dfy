/**
 * `tlds.rs`: turning the text of the IANA list of top-level domains into
 * TLDs, and `expand_tlds`. The download is an input (`TextFetch`).
 */
module Tlds {
  import opened Wrappers
  import opened Text
  import opened Seqs
  import opened Endpoint

  /** `line.strip_suffix('\r')`, or the line itself. */
  function StripCr(line: string): (r: string)
    ensures r == line || (line == r + "\r")
  {
    if line != [] && line[|line| - 1] == '\r' then line[..|line| - 1] else line
  }

  /**
   * `str::lines`: the text split after each `\n`; each piece loses its
   * `\n` and then a `\r` just before it. A final line without `\n` is kept
   * as it is, and the empty text has no lines.
   */
  function Lines(text: string): (r: seq<string>)
    ensures forall k :: 0 <= k < |r| ==> '\n' !in r[k]
    decreases |text|
  {
    if text == [] then []
    else match Position(text, c => c == '\n')
      case None => [text]
      case Some(i) =>
        assert forall k :: 0 <= k < i ==> text[..i][k] != '\n';
        [StripCr(text[..i])] + Lines(text[i + 1..])
  }

  /** Each line followed by `\n`: the text `Lines` reads back. */
  function JoinLines(lines: seq<string>): string {
    if lines == [] then [] else lines[0] + "\n" + JoinLines(lines[1..])
  }

  /** A line that `lines` can return: no `\n` in it, and no `\r` at its end. */
  predicate IsLine(line: string) {
    '\n' !in line && (line == [] || line[|line| - 1] != '\r')
  }

  /** Splitting the joined text gives back exactly the lines it was joined from, in order. */
  lemma {:induction false} LinesOfJoin(lines: seq<string>)
    requires forall k :: 0 <= k < |lines| ==> IsLine(lines[k])
    ensures Lines(JoinLines(lines)) == lines
  {
    if lines != [] {
      var l := lines[0];
      var rest := JoinLines(lines[1..]);
      SplitAtFirstNewline(l, rest);
      LinesOfJoin(lines[1..]);
    }
  }

  /** The first `\n` of `l + "\n" + rest` is the one after `l`, when `l` has none. */
  lemma SplitAtFirstNewline(l: string, rest: string)
    requires '\n' !in l
    ensures var text := l + "\n" + rest;
            Position(text, c => c == '\n') == Some(|l|) && text[..|l|] == l && text[|l| + 1..] == rest
  {
    var text := l + "\n" + rest;
    assert text[|l|] == '\n';
    assert forall k :: 0 <= k < |l| ==> text[k] == l[k];
  }

  /** The first filter: neither a comment line (`#` first) nor an empty line; checked before trimming. */
  predicate KeepLine(line: string) {
    !StartsWith(line, "#") && line != []
  }

  /** The `map`: `line.trim().to_lowercase()`. */
  function Normalize(line: string): (r: string)
    ensures IsLowercase(r)
  {
    Lower(Trim(line))
  }

  /** An entry is the trimmed line lower-cased: no white space at either end, and the letters of the line otherwise. */
  lemma NormalizeTrimmed(line: string)
    ensures var r := Normalize(line);
            |r| == |Trim(line)|
            && (r == [] || (!IsWhitespace(r[0]) && !IsWhitespace(r[|r| - 1])))
            && forall k :: 0 <= k < |r| ==> r[k] == LowerChar(Trim(line)[k])
  {
    var t := Trim(line);
    if t != [] {
      LoweredEnds(t);
    }
  }

  /** Lower-casing a string whose ends are not white space keeps its ends not white space. */
  lemma LoweredEnds(t: string)
    requires t != [] && !IsWhitespace(t[0]) && !IsWhitespace(t[|t| - 1])
    ensures !IsWhitespace(Lower(t)[0]) && !IsWhitespace(Lower(t)[|t| - 1])
  {
    LowerCharKeepsWhitespace(t[0]);
    LowerCharKeepsWhitespace(t[|t| - 1]);
  }

  /** The second filter: internationalised names (`xn--` after lower-casing) are dropped. */
  predicate NotPunycode(tld: string) {
    !StartsWith(tld, "xn--")
  }

  /** The pipeline of `fetch_iana_tlds` on the lines of the downloaded text. */
  function ParseLines(lines: seq<string>): seq<string> {
    Filter(NotPunycode, Map(Normalize, Filter(KeepLine, lines)))
  }

  function ParseTldList(text: string): (r: seq<string>)
    ensures |r| <= |Lines(text)|
    ensures forall i :: 0 <= i < |r| ==> NotPunycode(r[i])
  {
    ParseLines(Lines(text))
  }

  /** The pipeline works line by line: lines before others give entries before theirs. */
  lemma ParseLinesAppend(a: seq<string>, b: seq<string>)
    ensures ParseLines(a + b) == ParseLines(a) + ParseLines(b)
  {
    FilterAppend(KeepLine, a, b);
    MapAppend(Normalize, Filter(KeepLine, a), Filter(KeepLine, b));
    FilterAppend(NotPunycode, Map(Normalize, Filter(KeepLine, a)), Map(Normalize, Filter(KeepLine, b)));
  }

  /** What a single line contributes: its normalised form when both filters let it through, else nothing. */
  lemma ParseOneLine(line: string)
    ensures ParseLines([line]) == if KeepLine(line) && NotPunycode(Normalize(line)) then [Normalize(line)] else []
  {
    var kept := Filter(KeepLine, [line]);
    assert kept == (if KeepLine(line) then [line] else []) + Filter(KeepLine, []);
    var mapped := Map(Normalize, kept);
    assert Filter(NotPunycode, mapped)
        == (if mapped != [] && NotPunycode(mapped[0]) then mapped else []) by {
      if mapped != [] {
        assert Filter(NotPunycode, mapped) == (if NotPunycode(mapped[0]) then [mapped[0]] else []) + Filter(NotPunycode, []);
      }
    }
  }

  /** Every entry is the lower-cased, trimmed form of a kept line, and not an internationalised name. */
  lemma ParseLinesSound(lines: seq<string>)
    ensures var r := ParseLines(lines);
            forall k :: 0 <= k < |r| ==>
              (IsLowercase(r[k]) && NotPunycode(r[k])
               && exists i :: 0 <= i < |lines| && KeepLine(lines[i]) && Normalize(lines[i]) == r[k])
  {
    var kept := Filter(KeepLine, lines);
    var mapped := Map(Normalize, kept);
    var r := Filter(NotPunycode, mapped);
    forall k | 0 <= k < |r|
      ensures IsLowercase(r[k]) && NotPunycode(r[k])
      ensures exists i :: 0 <= i < |lines| && KeepLine(lines[i]) && Normalize(lines[i]) == r[k]
    {
      var j :| 0 <= j < |mapped| && mapped[j] == r[k];
      var i :| 0 <= i < |lines| && lines[i] == kept[j];
      assert KeepLine(lines[i]) && Normalize(lines[i]) == r[k];
    }
  }

  /** Every kept line whose normalised form is not an internationalised name is listed. */
  lemma ParseLinesComplete(lines: seq<string>)
    ensures forall i :: 0 <= i < |lines| && KeepLine(lines[i]) && NotPunycode(Normalize(lines[i])) ==>
              Normalize(lines[i]) in ParseLines(lines)
  {
    var kept := Filter(KeepLine, lines);
    var mapped := Map(Normalize, kept);
    forall i | 0 <= i < |lines| && KeepLine(lines[i]) && NotPunycode(Normalize(lines[i]))
      ensures Normalize(lines[i]) in ParseLines(lines)
    {
      FilterMember(KeepLine, lines, lines[i]);
      MapMember(Normalize, kept, lines[i]);
      FilterMember(NotPunycode, mapped, Normalize(lines[i]));
    }
  }

  /** A line of white space only is not empty, so it passes the first filter and yields the empty entry. */
  lemma BlankLineYieldsEmptyEntry(line: string)
    requires line != [] && forall k :: 0 <= k < |line| ==> IsWhitespace(line[k])
    ensures ParseLines([line]) == [[]]
  {
    TrimAllWhitespace(line);
    ParseOneLine(line);
  }

  /** A comment line is dropped, and so is an empty line. */
  lemma CommentOrEmptyLineDropped(line: string)
    requires line == [] || line[0] == '#'
    ensures ParseLines([line]) == []
  {
    ParseOneLine(line);
  }

  /** An indented `#` line is not a comment: the check looks at the untrimmed line. */
  lemma IndentedHashLineKept(line: string)
    requires line != [] && IsWhitespace(line[0]) && !StartsWith(Normalize(line), "xn--")
    ensures ParseLines([line]) == [Normalize(line)]
  {
    assert line[0] != '#';
    assert KeepLine(line) by {
      assert line[..1] == [line[0]];
    }
    ParseOneLine(line);
  }

  /** `XN--` and `xn--` both lower-case to `xn--`. */
  lemma LowerPunycodePrefix(t: string)
    requires StartsWith(t, "XN--") || StartsWith(t, "xn--")
    ensures StartsWith(Lower(t), "xn--")
  {
    assert t[0] in "Xx" && t[1] in "Nn" && t[2] == '-' && t[3] == '-' by {
      if StartsWith(t, "XN--") {
        assert t[..4] == "XN--";
      } else {
        assert t[..4] == "xn--";
      }
    }
    var n := Lower(t);
    assert n[..4] == [n[0], n[1], n[2], n[3]] == "xn--";
  }

  /** A line reading `XN--…` in any letter case is dropped: the check runs after lower-casing. */
  lemma PunycodeDroppedInAnyCase(line: string)
    requires KeepLine(line)
    requires StartsWith(Trim(line), "XN--") || StartsWith(Trim(line), "xn--")
    ensures ParseLines([line]) == []
  {
    LowerPunycodePrefix(Trim(line));
    ParseOneLine(line);
  }

  /** The download of the list: its text, or the transport error. */
  datatype TextFetch = Body(text: string) | TransportError(detail: string)

  /** `TldError`. */
  datatype TldError = TldFetchError(detail: string)

  /** The `Display` text of a `TldError`. */
  function TldErrorMessage(e: TldError): string {
    "Failed to fetch TLD list: " + e.detail
  }

  /** `fetch_iana_tlds`: the parsed list, or the fetch error. */
  function FetchIanaTlds(fetch: TextFetch): (r: Result<seq<string>, TldError>)
    ensures fetch.TransportError? <==> r.Failure?
    ensures fetch.TransportError? ==> r.error == TldFetchError(fetch.detail)
    ensures fetch.Body? ==> r.value == ParseLines(Lines(fetch.text))
  {
    match fetch
    case Body(text) => Success(ParseTldList(text))
    case TransportError(detail) => Failure(TldFetchError(detail))
  }

  /** `expand_tlds`: `name.tld` for each TLD, in the order of the list. */
  function ExpandTlds(name: string, tlds: seq<string>): (r: seq<string>)
    ensures |r| == |tlds|
    ensures forall i :: 0 <= i < |tlds| ==> |r[i]| == |name| + 1 + |tlds[i]| && r[i][|name| + 1..] == tlds[i]
  {
    Map(t => name + "." + t, tlds)
  }

  /** One candidate per TLD, in order, each the name, a dot and that TLD. */
  lemma ExpandTldsShape(name: string, tlds: seq<string>)
    ensures |ExpandTlds(name, tlds)| == |tlds|
    ensures forall i :: 0 <= i < |tlds| ==>
              var d := ExpandTlds(name, tlds)[i];
              |d| == |name| + 1 + |tlds[i]| && d[..|name|] == name && d[|name|] == '.' && d[|name| + 1..] == tlds[i]
  {
  }

  /** Extracting the TLD of an expanded candidate gives back the TLD it was built from, lower-cased. */
  lemma ExpandThenExtract(name: string, tlds: seq<string>, i: nat)
    requires i < |tlds| && tlds[i] != [] && '.' !in tlds[i]
    ensures ExtractTld(ExpandTlds(name, tlds)[i]) == Success(Lower(tlds[i]))
  {
    ExtractTldOfJoin(name, tlds[i]);
  }
}
