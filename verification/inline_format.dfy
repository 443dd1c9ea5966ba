/** Inline span splitting of the Markdown-to-Word exporter
    (`add_formatted_text` in scripts/export_to_word.py).

    The source splits a text with `re.split` on the capturing alternation
    `(\*\*[^*]+\*\*|\*[^*]+\*|`[^`]+`|\$\$[^$]+\$\$|\$[^$]+\$)`, skips the
    empty parts, and tags each remaining part by looking at its first and
    last characters. Here the split is a left-to-right scanner: at each
    position the five alternatives are tried in order, the first that
    matches is taken whole, and scanning resumes after it. The scanner
    returns the parts as index intervals of the text, alternating gap,
    match, gap, ..., gap, exactly as `re.split` lists them.
 */
module InlineFormat {
  import opened Strings

  /** The five alternatives of the delimiter pattern, in the order tried. */
  datatype Delim = BoldDelim | ItalicDelim | CodeDelim | DisplayMathDelim | InlineMathDelim

  function Marker(d: Delim): (m: string)
    ensures 1 <= |m| <= 2
  {
    match d
    case BoldDelim => "**"
    case ItalicDelim => "*"
    case CodeDelim => "`"
    case DisplayMathDelim => "$$"
    case InlineMathDelim => "$"
  }

  /** The marker `m` occurs in `s` at position `i`. */
  predicate HasAt(s: string, i: nat, m: string)
    requires 1 <= |m| <= 2
  {
    i + |m| <= |s| && s[i] == m[0] && (|m| == 2 ==> s[i + 1] == m[1])
  }

  /** The first position at or after `from` holding `c`, or `|s|`. */
  function NextIndex(s: string, from: nat, c: char): (j: nat)
    requires from <= |s|
    ensures from <= j <= |s|
    ensures j < |s| ==> s[j] == c
    ensures forall q :: from <= q < j ==> s[q] != c
    decreases |s| - from
  {
    if from == |s| || s[from] == c then from else NextIndex(s, from + 1, c)
  }

  /** `s[i..i+n]` is `m x m` for the delimiter's marker `m` and a
      non-empty `x` free of the marker's first character: one match of
      that alternative. */
  predicate IsPairAt(s: string, i: nat, n: nat, d: Delim) {
    var m := Marker(d);
    && n >= 2 * |m| + 1
    && i + n <= |s|
    && HasAt(s, i, m)
    && HasAt(s, i + n - |m|, m)
    && (forall q :: i + |m| <= q < i + n - |m| ==> s[q] != m[0])
  }

  /** Length of the match of alternative `d` at position `i`, 0 if none.
      `[^c]+` is greedy and stops at the first `c`, so the closing marker
      must start at the first occurrence of `c` after the opening one. */
  function PairAt(s: string, i: nat, d: Delim): (n: nat)
    requires i <= |s|
    ensures n > 0 ==> IsPairAt(s, i, n, d)
  {
    var m := Marker(d);
    if HasAt(s, i, m) then
      var j := NextIndex(s, i + |m|, m[0]);
      if j > i + |m| && HasAt(s, j, m) then j + |m| - i else 0
    else 0
  }

  /** A match found by `PairAt` is the only one of its alternative there. */
  lemma PairAtComplete(s: string, i: nat, n: nat, d: Delim)
    requires i <= |s| && IsPairAt(s, i, n, d)
    ensures PairAt(s, i, d) == n
  {
    var m := Marker(d);
    var j := NextIndex(s, i + |m|, m[0]);
    assert s[i + n - |m|] == m[0];
    assert j == i + n - |m|;
  }

  /** The regex match starting at position `i`: the first alternative, in
      order, that matches there, and its length. */
  function MatchAt(s: string, i: nat): (r: Option<(Delim, nat)>)
    requires i <= |s|
    ensures r.Some? ==> r.value.1 > 0 && IsPairAt(s, i, r.value.1, r.value.0)
  {
    var b := PairAt(s, i, BoldDelim);
    if b > 0 then Some((BoldDelim, b)) else
    var it := PairAt(s, i, ItalicDelim);
    if it > 0 then Some((ItalicDelim, it)) else
    var c := PairAt(s, i, CodeDelim);
    if c > 0 then Some((CodeDelim, c)) else
    var dm := PairAt(s, i, DisplayMathDelim);
    if dm > 0 then Some((DisplayMathDelim, dm)) else
    var im := PairAt(s, i, InlineMathDelim);
    if im > 0 then Some((InlineMathDelim, im)) else None
  }

  /** A part of the split, as the half-open interval `[lo, hi)` of the text. */
  datatype Piece = Piece(lo: nat, hi: nat)

  /** The intervals tile `[start, |s|)` in order; there is an odd number
      of them, so the list begins and ends with a gap. */
  predicate Tiles(s: string, start: nat, r: seq<Piece>) {
    && |r| % 2 == 1
    && r[0].lo == start && r[|r| - 1].hi == |s|
    && (forall k :: 0 <= k < |r| ==> r[k].lo <= r[k].hi <= |s|)
    && (forall k :: 0 <= k < |r| - 1 ==> r[k].hi == r[k + 1].lo)
  }

  /** No match starts inside an even-indexed interval (a gap). */
  predicate GapsClean(s: string, r: seq<Piece>)
    requires forall k :: 0 <= k < |r| ==> r[k].hi <= |s|
  {
    forall k, j :: 0 <= k < |r| && k % 2 == 0 && r[k].lo <= j < r[k].hi ==> MatchAt(s, j).None?
  }

  /** Every odd-indexed interval is exactly the match found at its start. */
  predicate HitsMatch(s: string, r: seq<Piece>)
    requires forall k :: 0 <= k < |r| ==> r[k].lo <= |s|
  {
    forall k :: 0 <= k < |r| && k % 2 == 1 ==>
      MatchAt(s, r[k].lo).Some? && MatchAt(s, r[k].lo).value.1 == r[k].hi - r[k].lo
  }

  /** The intervals are what `re.split` produces from position `start`. */
  predicate IsSplit(s: string, start: nat, r: seq<Piece>) {
    Tiles(s, start, r) && GapsClean(s, r) && HitsMatch(s, r)
  }

  /** `re.split` from position `i`, where the current gap began at `start`. */
  function Scan(s: string, start: nat, i: nat): (r: seq<Piece>)
    requires start <= i <= |s|
    requires forall j :: start <= j < i ==> MatchAt(s, j).None?
    ensures IsSplit(s, start, r)
    decreases |s| - i
  {
    if i == |s| then [Piece(start, i)]
    else
      match MatchAt(s, i)
      case Some((_, n)) =>
        var rest := Scan(s, i + n, i + n);
        ScanCons(s, start, i, n, rest);
        [Piece(start, i), Piece(i, i + n)] + rest
      case None => Scan(s, start, i + 1)
  }

  lemma ScanCons(s: string, start: nat, i: nat, n: nat, rest: seq<Piece>)
    requires start <= i < |s| && n > 0 && i + n <= |s|
    requires forall j :: start <= j < i ==> MatchAt(s, j).None?
    requires MatchAt(s, i).Some? && MatchAt(s, i).value.1 == n
    requires IsSplit(s, i + n, rest)
    ensures IsSplit(s, start, [Piece(start, i), Piece(i, i + n)] + rest)
  {
    TilesCons(s, start, i, n, rest);
    GapsCons(s, start, i, n, rest);
    HitsCons(s, start, i, n, rest);
  }

  lemma TilesCons(s: string, start: nat, i: nat, n: nat, rest: seq<Piece>)
    requires start <= i < |s| && n > 0 && i + n <= |s|
    requires Tiles(s, i + n, rest)
    ensures Tiles(s, start, [Piece(start, i), Piece(i, i + n)] + rest)
  {
    var r := [Piece(start, i), Piece(i, i + n)] + rest;
    assert forall k :: 2 <= k < |r| ==> r[k] == rest[k - 2];
  }

  lemma GapsCons(s: string, start: nat, i: nat, n: nat, rest: seq<Piece>)
    requires start <= i < |s| && n > 0 && i + n <= |s|
    requires forall j :: start <= j < i ==> MatchAt(s, j).None?
    requires Tiles(s, i + n, rest) && GapsClean(s, rest)
    requires Tiles(s, start, [Piece(start, i), Piece(i, i + n)] + rest)
    ensures GapsClean(s, [Piece(start, i), Piece(i, i + n)] + rest)
  {
    var r := [Piece(start, i), Piece(i, i + n)] + rest;
    forall k, j | 0 <= k < |r| && k % 2 == 0 && r[k].lo <= j < r[k].hi
      ensures MatchAt(s, j).None?
    {
      if k >= 2 { assert r[k] == rest[k - 2] && (k - 2) % 2 == 0; }
    }
  }

  lemma HitsCons(s: string, start: nat, i: nat, n: nat, rest: seq<Piece>)
    requires start <= i < |s| && n > 0 && i + n <= |s|
    requires MatchAt(s, i).Some? && MatchAt(s, i).value.1 == n
    requires Tiles(s, i + n, rest) && HitsMatch(s, rest)
    requires Tiles(s, start, [Piece(start, i), Piece(i, i + n)] + rest)
    ensures HitsMatch(s, [Piece(start, i), Piece(i, i + n)] + rest)
  {
    var r := [Piece(start, i), Piece(i, i + n)] + rest;
    forall k | 0 <= k < |r| && k % 2 == 1
      ensures MatchAt(s, r[k].lo).Some? && MatchAt(s, r[k].lo).value.1 == r[k].hi - r[k].lo
    {
      if k >= 2 { assert r[k] == rest[k - 2] && (k - 2) % 2 == 1; }
    }
  }

  /** The text of each interval. */
  function Texts(s: string, r: seq<Piece>): (ts: seq<string>)
    requires forall k :: 0 <= k < |r| ==> r[k].lo <= r[k].hi <= |s|
    ensures |ts| == |r|
    ensures forall k :: 0 <= k < |r| ==> ts[k] == s[r[k].lo..r[k].hi]
  {
    if r == [] then [] else [s[r[0].lo..r[0].hi]] + Texts(s, r[1..])
  }

  /** The parts `re.split(pattern, text)` returns, empty ones included. */
  function SplitParts(text: string): (parts: seq<string>)
    ensures |parts| % 2 == 1
  {
    Texts(text, Scan(text, 0, 0))
  }

  // ------------------------------------------------------------ the spans

  datatype Format = Plain | Bold | Italic | Code | Math

  datatype Span = Span(format: Format, text: string)

  predicate EndsWith(s: string, m: string) {
    |m| <= |s| && s[|s| - |m|..] == m
  }

  /** Python's `p[k:-k]`: `p` without `k` characters at each end, or the
      empty string when `p` is shorter than `2k`. */
  function Inner(p: string, k: nat): (r: string)
    ensures |p| >= 2 * k ==> r == p[k..|p| - k]
    ensures |p| < 2 * k ==> r == ""
  {
    if |p| >= 2 * k then p[k..|p| - k] else ""
  }

  /** The tag of one part, decided by its ends as in the source's
      `startswith`/`endswith` chain. This applies to gap parts too, so a
      gap that happens to be `*` becomes an empty italic run. */
  function Classify(p: string): Span {
    if "**" <= p && EndsWith(p, "**") then Span(Bold, Inner(p, 2))
    else if "*" <= p && EndsWith(p, "*") && !("**" <= p) then Span(Italic, Inner(p, 1))
    else if "`" <= p && EndsWith(p, "`") then Span(Code, Inner(p, 1))
    else if "$$" <= p && EndsWith(p, "$$") then Span(Math, Inner(p, 2))
    else if "$" <= p && EndsWith(p, "$") then Span(Math, Inner(p, 1))
    else Span(Plain, p)
  }

  function FormatOf(d: Delim): Format {
    match d
    case BoldDelim => Bold
    case ItalicDelim => Italic
    case CodeDelim => Code
    case DisplayMathDelim => Math
    case InlineMathDelim => Math
  }

  /** One run per non-empty part, in order. */
  function SpansOf(parts: seq<string>): (r: seq<Span>)
    ensures |r| <= |parts|
  {
    if |parts| == 0 then []
    else (if parts[0] == "" then [] else [Classify(parts[0])]) + SpansOf(parts[1..])
  }

  /** An empty part adds no run: dropping it changes nothing. */
  lemma {:induction false} EmptyPartSkipped(xs: seq<string>, ys: seq<string>)
    ensures SpansOf(xs + [""] + ys) == SpansOf(xs + ys)
    decreases |xs|
  {
    if xs == [] {
      assert xs + [""] + ys == [""] + ys && xs + ys == ys;
      assert ([""] + ys)[1..] == ys;
    } else {
      assert (xs + [""] + ys)[0] == xs[0] && (xs + [""] + ys)[1..] == xs[1..] + [""] + ys;
      assert (xs + ys)[0] == xs[0] && (xs + ys)[1..] == xs[1..] + ys;
      EmptyPartSkipped(xs[1..], ys);
    }
  }

  /** `add_formatted_text(paragraph, text)`, as the list of runs it adds. */
  function FormatText(text: string): seq<Span> {
    SpansOf(SplitParts(text))
  }

  // ----------------------------------------------------------- properties

  /** Concatenating the texts of contiguous intervals that run to the end
      gives the suffix from where the first one starts. */
  lemma {:induction false} ConcatTexts(s: string, r: seq<Piece>)
    requires |r| >= 1
    requires forall k :: 0 <= k < |r| ==> r[k].lo <= r[k].hi <= |s|
    requires forall k :: 0 <= k < |r| - 1 ==> r[k].hi == r[k + 1].lo
    requires r[|r| - 1].hi == |s|
    ensures Concat(Texts(s, r)) == s[r[0].lo..]
  {
    if |r| > 1 {
      ConcatTexts(s, r[1..]);
      assert Texts(s, r) == [s[r[0].lo..r[0].hi]] + Texts(s, r[1..]);
      assert s[r[0].lo..] == s[r[0].lo..r[0].hi] + s[r[1].lo..];
    }
  }

  /** Concatenating the parts of the split gives back the text. */
  lemma SplitPartsConcat(text: string)
    ensures Concat(SplitParts(text)) == text
  {
    ConcatTexts(text, Scan(text, 0, 0));
  }

  /** `p` is `m x m` for the marker `m` of `d`, with `x` non-empty and
      free of the marker's first character. */
  predicate Delimited(p: string, d: Delim, x: string) {
    p == Marker(d) + x + Marker(d) && x != [] && Marker(d)[0] !in x
  }

  /** A match, cut out of the text, is its delimiters around the inner text. */
  lemma PairSlice(s: string, i: nat, n: nat, d: Delim)
    requires IsPairAt(s, i, n, d)
    ensures var m := Marker(d);
            Delimited(s[i..i + n], d, s[i + |m|..i + n - |m|])
  {
    MarkerSlice(s, i, n, Marker(d));
  }

  /** The same for any one- or two-character marker. */
  lemma MarkerSlice(s: string, i: nat, n: nat, m: string)
    requires 1 <= |m| <= 2 && n >= 2 * |m| + 1 && i + n <= |s|
    requires HasAt(s, i, m) && HasAt(s, i + n - |m|, m)
    requires forall q :: i + |m| <= q < i + n - |m| ==> s[q] != m[0]
    ensures var x := s[i + |m|..i + n - |m|];
            s[i..i + n] == m + x + m && x != [] && m[0] !in x
  {
    var x := s[i + |m|..i + n - |m|];
    var p := s[i..i + n];
    var e := m + x + m;
    assert |e| == n;
    forall q | 0 <= q < n ensures p[q] == e[q] {
      assert p[q] == s[i + q];
      if q < |m| {
        assert e[q] == m[q];
      } else if q < n - |m| {
        assert e[q] == x[q - |m|] == s[i + q];
      } else {
        assert e[q] == m[q - (n - |m|)];
      }
    }
    forall q | 0 <= q < |x| ensures x[q] != m[0] {
      assert x[q] == s[i + |m| + q];
    }
  }

  /** A matched part is tagged with its alternative's format and carries
      the text between its delimiters. */
  lemma ClassifyDelimited(p: string, d: Delim, x: string)
    requires Delimited(p, d, x)
    ensures Classify(p) == Span(FormatOf(d), x)
  {
    var m := Marker(d);
    assert p[..|m|] == m;
    assert p[|p| - |m|..] == m;
    assert p[|m|..|p| - |m|] == x;
    match d
    case BoldDelim =>
    case ItalicDelim =>
      assert p[1] == x[0];
    case CodeDelim =>
    case DisplayMathDelim =>
    case InlineMathDelim =>
      assert p[1] == x[0];
  }

  /** The match found at `lo` is a delimited run of its alternative. */
  lemma MatchIsRun(s: string, lo: nat, hi: nat)
    requires lo <= hi <= |s|
    requires MatchAt(s, lo).Some? && MatchAt(s, lo).value.1 == hi - lo
    ensures exists d, x :: Delimited(s[lo..hi], d, x) && Classify(s[lo..hi]) == Span(FormatOf(d), x)
  {
    var d := MatchAt(s, lo).value.0;
    var m := Marker(d);
    PairSlice(s, lo, hi - lo, d);
    var x := s[lo + |m|..hi - |m|];
    var p := s[lo..hi];
    assert Delimited(p, d, x);
    ClassifyDelimited(p, d, x);
    assert Delimited(p, d, x) && Classify(p) == Span(FormatOf(d), x);
  }

  /** Every odd-indexed part is a match, `m x m` for some alternative, and
      is rendered as the run of that alternative's format holding `x`. */
  lemma MatchedPartsAreRuns(text: string, k: nat)
    requires k < |SplitParts(text)| && k % 2 == 1
    ensures exists d, x :: Delimited(SplitParts(text)[k], d, x)
                           && Classify(SplitParts(text)[k]) == Span(FormatOf(d), x)
  {
    var r := Scan(text, 0, 0);
    assert HitsMatch(text, r);
    MatchIsRun(text, r[k].lo, r[k].hi);
  }

  predicate NoMarkup(c: char) {
    c != '*' && c != '`' && c != '$'
  }

  /** Where no match starts, the split is a single gap. */
  lemma {:induction false} ScanNoMatch(s: string, start: nat, i: nat)
    requires start <= i <= |s|
    requires forall j :: start <= j <= |s| ==> MatchAt(s, j).None?
    ensures Scan(s, start, i) == [Piece(start, |s|)]
    decreases |s| - i
  {
    if i < |s| {
      ScanNoMatch(s, start, i + 1);
    }
  }

  /** Text in which no delimited pair starts is a single part, tagged by
      its ends alone (so a lone `*` becomes an empty italic run). */
  lemma NoPairOneRun(text: string)
    requires forall j :: 0 <= j <= |text| ==> MatchAt(text, j).None?
    ensures FormatText(text) == if text == "" then [] else [Classify(text)]
  {
    ScanNoMatch(text, 0, 0);
    assert text[0..|text|] == text;
  }

  /** Text with no delimiter character is one plain run (none when empty). */
  lemma PlainTextOneRun(text: string)
    requires forall i :: 0 <= i < |text| ==> NoMarkup(text[i])
    ensures FormatText(text) == if text == "" then [] else [Span(Plain, text)]
  {
    forall j | 0 <= j <= |text| ensures MatchAt(text, j).None? {
      if j < |text| { assert NoMarkup(text[j]); }
    }
    NoPairOneRun(text);
    if text != "" {
      assert !("*" <= text) && !("`" <= text) && !("$" <= text) by { assert NoMarkup(text[0]); }
    }
  }
}
