/** The splitter for Pandoc's Markdown rendering of the manuscript: it
    cuts the text into a preface file and one file per chapter at marker
    lines written in bold (`**前言**`, `**第N章 …**`), and turns every
    stand-alone bold line into a `#` or `##` heading.
 */
module SplitPandoc {
  import opened Strings
  import opened Folds
  import opened ChapterMarks

  // ------------------------------------------------------------ scanners

  /** The line starts with `**`. */
  predicate Starred(s: string) {
    |s| >= 2 && s[0] == '*' && s[1] == '*'
  }

  /** Where `s` ends once trailing whitespace is cut off. */
  function TrimmedEnd(s: string): (e: nat)
    ensures e <= |s| && AllSpace(s[e..])
    ensures e > 0 ==> !IsSpace(s[e - 1])
  {
    |s| - TrailingSpaces(s)
  }

  /** `^\*\*(.+)\*\*\s*$` on one line: the captured text. The greedy `.+`
      ends at the last `**` that only whitespace follows, and `.` does not
      match a newline. */
  function HeadingInner(s: string): (r: Option<string>)
    ensures r.Some? ==> r.value != [] && '\n' !in r.value
  {
    var e := TrimmedEnd(s);
    if Starred(s) && e >= 5 && s[e - 2] == '*' && s[e - 1] == '*' && (forall k :: 2 <= k < e - 2 ==> s[k] != '\n')
    then Some(s[2..e - 2])
    else None
  }

  /** A matched line is `**`, the captured text, `**` and whitespace. */
  lemma HeadingInnerShape(s: string)
    requires HeadingInner(s).Some?
    ensures var e := TrimmedEnd(s);
            5 <= e && s == "**" + HeadingInner(s).value + "**" + s[e..]
  {
    var e := TrimmedEnd(s);
    assert s == s[..2] + s[2..e - 2] + s[e - 2..e] + s[e..];
  }

  lemma SpaceUpTo(s: string, a: nat)
    requires a <= |s| && forall k :: a <= k < |s| ==> IsSpace(s[k])
    ensures AllSpace(s[a..])
  {
    forall k | 0 <= k < |s| - a ensures IsSpace(s[a..][k]) {
      assert s[a..][k] == s[a + k];
    }
  }

  /** A trimmed end is fixed by the last non-blank character. */
  lemma TrimmedEndAt(s: string, e: nat)
    requires 0 < e <= |s| && !IsSpace(s[e - 1]) && AllSpace(s[e..])
    ensures TrimmedEnd(s) == e
  {
    var t := TrimmedEnd(s);
    SpaceFrom(s, t);
    SpaceFrom(s, e);
  }

  lemma SpaceFrom(s: string, a: nat)
    requires a <= |s| && AllSpace(s[a..])
    ensures forall k :: a <= k < |s| ==> IsSpace(s[k])
  {
    forall k | a <= k < |s| ensures IsSpace(s[k]) {
      assert s[k] == s[a..][k - a];
    }
  }

  /** The scanner matches exactly the lines the pattern describes: `**`,
      a non-empty text without newline, `**`, and trailing whitespace. */
  lemma HeadingWritten(x: string, w: string)
    requires AllSpace(w)
    ensures HeadingInner("**" + x + "**" + w) == if x != [] && '\n' !in x then Some(x) else None
  {
    var s := "**" + x + "**" + w;
    TrimmedEndAt(s, |x| + 4);
    assert s[|x| + 4..] == w;
    assert s[2..|x| + 2] == x;
    if x != [] && '\n' !in x {
      forall k | 2 <= k < |x| + 2 ensures s[k] != '\n' {
        assert s[k] == x[k - 2];
      }
    } else if x != [] {
      var k :| 0 <= k < |x| && x[k] == '\n';
      assert s[k + 2] == x[k];
    }
  }

  // ---------------------------------------------------- heading normaliser

  /** The rewritten form of a bold line: `#` for the first, `##` after. */
  function HeadingLine(first: bool, title: string): (r: string)
    ensures |r| >= 2 && r[0] == '#'
  {
    (if first then "# " else "## ") + title
  }

  /** Picks out the text of a bold line; `None` for any other line. */
  type Matcher = string -> Option<string>

  /** The loop of `normalize_headings` over the lines, for a given way of
      recognising bold lines: `first` holds until the first bold line has
      been rewritten. */
  function Rewrite(bold: Matcher, lines: seq<string>, first: bool): (r: seq<string>)
    ensures |r| == |lines|
    decreases |lines|
  {
    if lines == [] then []
    else match bold(lines[0])
      case Some(inner) => [HeadingLine(first, Strip(inner))] + Rewrite(bold, lines[1..], false)
      case None => [lines[0]] + Rewrite(bold, lines[1..], first)
  }

  /** The loop with the pattern `^\*\*(.+)\*\*\s*$`. */
  function NormalizeLines(lines: seq<string>, first: bool): (r: seq<string>)
    ensures |r| == |lines|
  {
    Rewrite(HeadingInner, lines, first)
  }

  /** `normalize_headings(text, first_heading_is_h1)`. */
  function NormalizeHeadings(text: string, firstIsH1: bool): string {
    Join(NormalizeLines(Split(text, '\n'), firstIsH1), "\n")
  }

  /** No line before index `i` is a bold line. */
  predicate NoBoldBefore(bold: Matcher, lines: seq<string>, i: nat)
    requires i <= |lines|
  {
    forall k :: 0 <= k < i ==> bold(lines[k]).None?
  }

  lemma {:induction false} RewriteAt(bold: Matcher, lines: seq<string>, first: bool, i: nat)
    requires i < |lines|
    ensures var r := Rewrite(bold, lines, first);
            match bold(lines[i])
            case None => r[i] == lines[i]
            case Some(inner) => r[i] == HeadingLine(first && NoBoldBefore(bold, lines, i), Strip(inner))
    decreases i
  {
    if i > 0 {
      var next := if bold(lines[0]).Some? then false else first;
      RewriteAt(bold, lines[1..], next, i - 1);
      var r := Rewrite(bold, lines, first);
      var rest := Rewrite(bold, lines[1..], next);
      assert r[i] == rest[i - 1];
      assert lines[i] == lines[1..][i - 1];
      NoBoldBeforeTail(bold, lines, i);
    } else {
      assert NoBoldBefore(bold, lines, 0);
    }
  }

  lemma NoBoldBeforeTail(bold: Matcher, lines: seq<string>, i: nat)
    requires 0 < i <= |lines|
    ensures NoBoldBefore(bold, lines, i) <==> bold(lines[0]).None? && NoBoldBefore(bold, lines[1..], i - 1)
  {
    if bold(lines[0]).None? && NoBoldBefore(bold, lines[1..], i - 1) {
      forall k | 0 <= k < i ensures bold(lines[k]).None? {
        if k > 0 { assert lines[k] == lines[1..][k - 1]; }
      }
    }
  }

  /** What each output line is: a line that is not bold is kept as it is; a
      bold line becomes a `#` heading if it is the first bold line and
      `first` is set, and a `##` heading otherwise, titled with its
      stripped text. */
  lemma NormalizeAt(lines: seq<string>, first: bool, i: nat)
    requires i < |lines|
    ensures var r := NormalizeLines(lines, first);
            match HeadingInner(lines[i])
            case None => r[i] == lines[i]
            case Some(inner) => r[i] == HeadingLine(first && NoBoldBefore(HeadingInner, lines, i), Strip(inner))
  {
    RewriteAt(HeadingInner, lines, first, i);
  }

  /** A rewritten line contains no newline when the bold text had none. */
  lemma HeadingLineHasNoNewline(first: bool, inner: string)
    requires '\n' !in inner
    ensures '\n' !in HeadingLine(first, Strip(inner))
  {
    StripWithin(inner);
  }

  /** Lines without bold lines are left alone, whatever the flag. */
  lemma {:induction false} NothingToNormalize(lines: seq<string>, first: bool)
    requires forall i :: 0 <= i < |lines| ==> HeadingInner(lines[i]).None?
    ensures NormalizeLines(lines, first) == lines
    decreases |lines|
  {
    if lines != [] {
      assert HeadingInner(lines[0]).None?;
      NothingToNormalize(lines[1..], first);
    }
  }

  /** The output has no bold line left, and no newline inside a line when
      the input had none. */
  lemma NormalizedLines(lines: seq<string>, first: bool)
    ensures var r := NormalizeLines(lines, first);
            forall i :: 0 <= i < |r| ==> HeadingInner(r[i]).None? && ('\n' !in lines[i] ==> '\n' !in r[i])
  {
    var r := NormalizeLines(lines, first);
    forall i | 0 <= i < |r| ensures HeadingInner(r[i]).None? && ('\n' !in lines[i] ==> '\n' !in r[i]) {
      NormalizeAt(lines, first, i);
      match HeadingInner(lines[i])
      case Some(inner) => {
        HeadingLineHasNoNewline(first && NoBoldBefore(HeadingInner, lines, i), inner);
      }
      case None => {}
    }
  }

  /** Normalising the lines twice is normalising them once. */
  lemma NormalizeLinesIdempotent(lines: seq<string>, first: bool, again: bool)
    ensures NormalizeLines(NormalizeLines(lines, first), again) == NormalizeLines(lines, first)
  {
    NormalizedLines(lines, first);
    NothingToNormalize(NormalizeLines(lines, first), again);
  }

  /** The lines of the normalised text are the normalised lines: in
      particular there are as many as before. */
  lemma NormalizedText(text: string, firstIsH1: bool)
    ensures Split(NormalizeHeadings(text, firstIsH1), '\n') == NormalizeLines(Split(text, '\n'), firstIsH1)
    ensures |Split(NormalizeHeadings(text, firstIsH1), '\n')| == |Split(text, '\n')|
  {
    var lines := Split(text, '\n');
    var r := NormalizeLines(lines, firstIsH1);
    NormalizedLines(lines, firstIsH1);
    SplitJoin(r, '\n');
  }

  /** `normalize_headings` is idempotent, whatever flag the second call gets. */
  lemma NormalizeHeadingsIdempotent(text: string, firstIsH1: bool, again: bool)
    ensures NormalizeHeadings(NormalizeHeadings(text, firstIsH1), again) == NormalizeHeadings(text, firstIsH1)
  {
    var lines := Split(text, '\n');
    var r := NormalizeLines(lines, firstIsH1);
    NormalizedText(text, firstIsH1);
    NormalizeLinesIdempotent(lines, firstIsH1, again);
  }

  // -------------------------------------------------------------- markers

  /** `^\*\*前言\s*\+\s*第`: a merged "preface + chapter" heading. */
  predicate IsCompoundLine(s: string) {
    && Starred(s)
    && match CompoundAt(s, 2)
       case Some(j) => j < |s| && s[j] == '第'
       case None => false
  }

  /** `^\*\*前言\s*\*\*\s*$`: the preface marker. */
  predicate IsPrefaceLine(s: string) {
    && Starred(s)
    && PrefaceAt(s, 2)
    && var j := SkipSpaces(s, 4);
       && j + 2 <= |s| && s[j] == '*' && s[j + 1] == '*'
       && SkipSpaces(s, j + 2) == |s|
  }

  /** `^\*\*第\s*(\d+)\s*章\s*(.*)\*\*\s*$`: a chapter marker, and its
      captured number. The closing `**` is the last non-blank text; the
      text between 章 and it may hold a newline only inside the leading
      whitespace, which `\s*` takes and `.` would not. */
  function ChapterLine(s: string): (r: Option<string>)
    ensures r.Some? ==> r.value != [] && AllDigits(r.value)
  {
    if !Starred(s) then None
    else match ChapterAt(s, 2)
      case None => None
      case Some(m) =>
        var e := TrimmedEnd(s);
        var d := SkipSpaces(s, m.end);
        if m.end + 2 <= e && s[e - 2] == '*' && s[e - 1] == '*' && (forall k :: d <= k < e - 2 ==> s[k] != '\n')
        then
          DigitsOfShape(s, 2, m);
          Some(Digits(s, m))
        else None
  }

  /** The file stem for chapter number `digits`: `f"{num}-第{num}章"` with
      `num = digits.zfill(2)`. */
  function ChapterTitle(digits: string): string {
    var num := ZFill2(digits);
    num + "-第" + num + "章"
  }

  const PrefaceTitle: string := "00-" + Preface

  /** The title a marker line opens a chunk with; `None` for any other
      line. The preface marker is tried first. */
  function MarkerTitle(s: string): (r: Option<string>)
    ensures r.Some? ==> r.value != []
  {
    if IsPrefaceLine(s) then Some(PrefaceTitle)
    else match ChapterLine(s)
      case Some(digits) => Some(ChapterTitle(digits))
      case None => None
  }

  predicate IsMarker(s: string) {
    MarkerTitle(s).Some?
  }

  /** The three patterns never match the same line, so the order the loop
      tries them in does not matter. */
  lemma PatternsDisjoint(s: string)
    ensures !(IsCompoundLine(s) && IsPrefaceLine(s))
    ensures !(IsCompoundLine(s) && ChapterLine(s).Some?)
    ensures !(IsPrefaceLine(s) && ChapterLine(s).Some?)
  {
    if IsCompoundLine(s) {
      var j := SkipSpaces(s, 4);
      assert CompoundAt(s, 2).Some? && s[j] == '+';
    }
  }

  /** A preface marker is matched when written out: `**前言`, blanks, `**`,
      blanks. */
  lemma PrefaceLineWritten(w1: string, w2: string)
    requires AllSpace(w1) && AllSpace(w2)
    ensures IsPrefaceLine("**" + Preface + w1 + "**" + w2)
  {
    var s := "**" + Preface + w1 + "**" + w2;
    var j := 4 + |w1|;
    forall k | 4 <= k < j ensures IsSpace(s[k]) {
      assert s[k] == w1[k - 4];
    }
    assert s[2] == Preface[0] && s[3] == Preface[1] && s[j] == '*' && s[j + 1] == '*';
    assert SkipSpaces(s, 4) == j;
    forall k | j + 2 <= k < |s| ensures IsSpace(s[k]) {
      assert s[k] == w2[k - j - 2];
    }
  }

  /** A merged heading is recognised when written out: `**前言`, blanks,
      `+`, blanks, `第`, anything. */
  lemma CompoundLineWritten(w1: string, w2: string, rest: string)
    requires AllSpace(w1) && AllSpace(w2)
    ensures IsCompoundLine("**" + Preface + w1 + "+" + w2 + "第" + rest)
  {
    var s := "**" + Preface + w1 + "+" + w2 + "第" + rest;
    var j := 4 + |w1|;
    assert s[2] == Preface[0] && s[3] == Preface[1] && s[j] == '+';
    forall k | 4 <= k < j ensures IsSpace(s[k]) {
      assert s[k] == w1[k - 4];
    }
    assert SkipSpaces(s, 4) == j;
    var c := j + 1 + |w2|;
    forall k | j + 1 <= k < c ensures IsSpace(s[k]) {
      assert s[k] == w2[k - j - 1];
    }
    assert s[c] == '第';
    assert SkipSpaces(s, j + 1) == c;
  }

  /** A chapter marker is matched when written out, `**第`, the number,
      `章`, any text without newline and `**`, and the number is captured. */
  lemma ChapterLineWritten(digits: string, rest: string)
    requires digits != [] && AllDigits(digits) && '\n' !in rest
    ensures ChapterLine("**第" + digits + "章" + rest + "**") == Some(digits)
  {
    var pre := "**" + "第" + digits + "章";
    var post := rest + "**";
    var s := pre + post;
    assert s == "**第" + digits + "章" + rest + "**";
    var m := Span(3, |digits| + 3, |digits| + 4);
    assert ChapterAt(s, 2) == Some(m) && Digits(s, m) == digits by {
      ChapterWritten("**", digits, post);
    }
    assert TrimmedEnd(s) == |s| by {
      assert s[|s| - 1] == '*';
      TrimmedEndAt(s, |s|);
    }
    assert s[|s| - 2] == '*';
    forall k | m.end <= k < |s| - 2 ensures s[k] != '\n' {
      assert s[k] == post[k - |pre|] == rest[k - |pre|];
    }
  }

  /** Conversely, every preface marker is written out that way. */
  lemma PrefaceLineIff(s: string)
    ensures IsPrefaceLine(s) <==> exists w1, w2 :: AllSpace(w1) && AllSpace(w2) && s == "**" + Preface + w1 + "**" + w2
  {
    if IsPrefaceLine(s) {
      PrefaceLineForm(s);
    }
    if w1, w2 :| AllSpace(w1) && AllSpace(w2) && s == "**" + Preface + w1 + "**" + w2 {
      PrefaceLineWritten(w1, w2);
    }
  }

  lemma PrefaceLineForm(s: string)
    requires IsPrefaceLine(s)
    ensures exists w1, w2 :: AllSpace(w1) && AllSpace(w2) && s == "**" + Preface + w1 + "**" + w2
  {
    var j := SkipSpaces(s, 4);
    var w1, w2 := s[4..j], s[j + 2..];
    assert s[..4] == "**" + Preface;
    assert s[j..j + 2] == "**";
    PrefixExtend(s, 4, j);
    PrefixExtend(s, j, j + 2);
    PrefixExtend(s, j + 2, |s|);
    assert s[..|s|] == s;
    SpaceUpTo(s, j + 2);
    assert AllSpace(w1);
  }

  /** Conversely, every merged heading is written out that way. */
  lemma CompoundLineIff(s: string)
    ensures IsCompoundLine(s)
            <==> exists w1, w2, rest :: AllSpace(w1) && AllSpace(w2) && s == "**" + Preface + w1 + "+" + w2 + "第" + rest
  {
    if IsCompoundLine(s) {
      CompoundLineForm(s);
    }
    if w1, w2, rest :| AllSpace(w1) && AllSpace(w2) && s == "**" + Preface + w1 + "+" + w2 + "第" + rest {
      CompoundLineWritten(w1, w2, rest);
    }
  }

  lemma CompoundLineForm(s: string)
    requires IsCompoundLine(s)
    ensures exists w1, w2, rest :: AllSpace(w1) && AllSpace(w2) && s == "**" + Preface + w1 + "+" + w2 + "第" + rest
  {
    var j := SkipSpaces(s, 4);
    var c := SkipSpaces(s, j + 1);
    var w1, w2, rest := s[4..j], s[j + 1..c], s[c + 1..];
    assert s[..4] == "**" + Preface;
    assert s[j..j + 1] == "+" && s[c..c + 1] == "第";
    PrefixExtend(s, 4, j);
    PrefixExtend(s, j, j + 1);
    PrefixExtend(s, j + 1, c);
    PrefixExtend(s, c, c + 1);
    PrefixExtend(s, c + 1, |s|);
    assert s[..|s|] == s;
    assert AllSpace(w1) && AllSpace(w2);
  }

  /** A chapter marker in full: `**第`, blanks, the number, blanks, `章`,
      blanks, a text without newline, `**`, blanks. */
  predicate ChapterForm(s: string, w1: string, digits: string, w2: string, ws: string, text: string, w3: string) {
    && AllSpace(w1) && AllSpace(w2) && AllSpace(ws) && AllSpace(w3)
    && digits != [] && AllDigits(digits) && '\n' !in text
    && s == "**第" + w1 + digits + w2 + "章" + ws + text + "**" + w3
  }

  /** The chapter scanner accepts exactly the full chapter markers, and
      captures their number. */
  lemma ChapterLineIff(s: string, digits: string)
    ensures ChapterLine(s) == Some(digits)
            <==> exists w1, w2, ws, text, w3 :: ChapterForm(s, w1, digits, w2, ws, text, w3)
  {
    if ChapterLine(s) == Some(digits) {
      ChapterLineForm(s, digits);
    }
    if w1, w2, ws, text, w3 :| ChapterForm(s, w1, digits, w2, ws, text, w3) {
      FormChapterLine(s, w1, digits, w2, ws, text, w3);
    }
  }

  lemma ChapterLineForm(s: string, digits: string)
    requires ChapterLine(s) == Some(digits)
    ensures exists w1, w2, ws, text, w3 :: ChapterForm(s, w1, digits, w2, ws, text, w3)
  {
    var m := ChapterAt(s, 2).value;
    var e := TrimmedEnd(s);
    var d := SkipSpaces(s, m.end);
    assert d <= e - 2 by {
      assert !IsSpace(s[e - 2]);
    }
    assert digits == s[m.lo..m.hi];
    DigitsOfShape(s, 2, m);
    ChapterFormAt(s, m, d, e);
    assert ChapterForm(s, s[3..m.lo], digits, s[m.hi..m.end - 1], s[m.end..d], s[d..e - 2], s[e..]);
  }

  /** The parts of a chapter marker line, once its scanned indices are known. */
  lemma ChapterFormAt(s: string, m: Span, d: nat, e: nat)
    requires Starred(s) && ChapterShape(s, 2, m) && AllDigits(s[m.lo..m.hi])
    requires m.end <= d <= e - 2 && e <= |s| && AllSpace(s[e..])
    requires s[e - 2] == '*' && s[e - 1] == '*'
    requires forall k :: m.end <= k < d ==> IsSpace(s[k])
    requires forall k :: d <= k < e - 2 ==> s[k] != '\n'
    ensures ChapterForm(s, s[3..m.lo], s[m.lo..m.hi], s[m.hi..m.end - 1], s[m.end..d], s[d..e - 2], s[e..])
  {
    var w1, w2, ws, text := s[3..m.lo], s[m.hi..m.end - 1], s[m.end..d], s[d..e - 2];
    ChapterPieces(s, m.lo, m.hi, m.end, d, e);
    assert AllSpace(w1) && AllSpace(w2) && AllSpace(ws);
    assert '\n' !in text by {
      forall k | 0 <= k < |text| ensures text[k] != '\n' {
        assert text[k] == s[d + k];
      }
    }
  }

  /** A chapter marker line cut at the ends of its parts. */
  lemma ChapterPieces(s: string, lo: nat, hi: nat, end: nat, d: nat, e: nat)
    requires 3 <= lo <= hi < end <= d <= e - 2 && e <= |s|
    requires s[0] == '*' && s[1] == '*' && s[2] == '第' && s[end - 1] == '章' && s[e - 2] == '*' && s[e - 1] == '*'
    ensures s == "**第" + s[3..lo] + s[lo..hi] + s[hi..end - 1] + "章" + s[end..d] + s[d..e - 2] + "**" + s[e..]
  {
    assert s[..3] == "**第";
    PrefixExtend(s, 3, lo);
    PrefixExtend(s, lo, hi);
    PrefixExtend(s, hi, end - 1);
    PrefixExtend(s, end - 1, end);
    assert s[end - 1..end] == "章";
    PrefixExtend(s, end, d);
    PrefixExtend(s, d, e - 2);
    PrefixExtend(s, e - 2, e);
    assert s[e - 2..e] == "**";
    PrefixExtend(s, e, |s|);
    assert s[..|s|] == s;
  }


  lemma FormChapterLine(s: string, w1: string, digits: string, w2: string, ws: string, text: string, w3: string)
    requires ChapterForm(s, w1, digits, w2, ws, text, w3)
    ensures ChapterLine(s) == Some(digits)
  {
    var lo := 3 + |w1|;
    var hi := lo + |digits|;
    var m := Span(lo, hi, hi + |w2| + 1);
    var t := m.end + |ws|;
    var e := t + |text| + 2;
    FormPieces(s, w1, digits, w2, ws, text, w3);
    SlicedChapterLine(s, m, t, e, digits);
  }

  /** A chapter marker line, given as the slices between its parts. */
  lemma SlicedChapterLine(s: string, m: Span, t: nat, e: nat, digits: string)
    requires 3 <= m.lo < m.hi < m.end && m.end <= t && t + 2 <= e <= |s|
    requires s[0] == '*' && s[1] == '*' && s[2] == '第' && s[m.lo..m.hi] == digits
    requires AllSpace(s[3..m.lo]) && AllDigits(digits) && AllSpace(s[m.hi..m.end - 1])
    requires s[m.end - 1] == '章' && AllSpace(s[m.end..t]) && '\n' !in s[t..e - 2]
    requires s[e - 2] == '*' && s[e - 1] == '*' && AllSpace(s[e..])
    ensures ChapterLine(s) == Some(digits)
  {
    InSlice(s, 3, m.lo);
    InSlice(s, m.lo, m.hi);
    InSlice(s, m.hi, m.end - 1);
    InSlice(s, m.end, t);
    InSlice(s, t, e - 2);
    ScannedChapterLine(s, m, t, e, digits);
  }

  /** Each character of a slice is that of the string at the same place. */
  lemma InSlice(s: string, i: nat, j: nat)
    requires i <= j <= |s|
    ensures AllSpace(s[i..j]) ==> forall k :: i <= k < j ==> IsSpace(s[k])
    ensures AllDigits(s[i..j]) ==> forall k :: i <= k < j ==> IsDigit(s[k])
    ensures '\n' !in s[i..j] ==> forall k :: i <= k < j ==> s[k] != '\n'
  {
    forall k | i <= k < j ensures s[k] == s[i..j][k - i] {
    }
  }

  /** A chapter marker line, as the scanner sees its parts. */
  lemma ScannedChapterLine(s: string, m: Span, t: nat, e: nat, digits: string)
    requires 3 <= m.lo < m.hi < m.end && m.end <= t && t + 2 <= e <= |s|
    requires Starred(s) && s[2] == '第' && s[m.lo..m.hi] == digits
    requires forall k :: 3 <= k < m.lo ==> IsSpace(s[k])
    requires forall k :: m.lo <= k < m.hi ==> IsDigit(s[k])
    requires forall k :: m.hi <= k < m.end - 1 ==> IsSpace(s[k])
    requires s[m.end - 1] == '章'
    requires forall k :: m.end <= k < t ==> IsSpace(s[k])
    requires forall k :: t <= k < e - 2 ==> s[k] != '\n'
    requires s[e - 2] == '*' && s[e - 1] == '*' && AllSpace(s[e..])
    ensures ChapterLine(s) == Some(digits)
  {
    assert ChapterShape(s, 2, m);
    assert ChapterAt(s, 2) == Some(m) by {
      ChapterAtIff(s, 2, m);
    }
    assert TrimmedEnd(s) == e by {
      TrimmedEndAt(s, e);
    }
    var d := SkipSpaces(s, m.end);
    assert t <= d;
    assert forall k :: d <= k < e - 2 ==> s[k] != '\n';
  }

  /** Where each part of a full chapter marker lies in the line. */
  lemma FormPieces(s: string, w1: string, digits: string, w2: string, ws: string, text: string, w3: string)
    requires s == "**第" + w1 + digits + w2 + "章" + ws + text + "**" + w3
    ensures var lo := 3 + |w1|;
            var hi := lo + |digits|;
            var end := hi + |w2| + 1;
            var t := end + |ws|;
            var e := t + |text| + 2;
            && e <= |s|
            && s[2] == '第' && s[3..lo] == w1 && s[lo..hi] == digits && s[hi..end - 1] == w2
            && s[end - 1] == '章' && s[end..t] == ws && s[t..e - 2] == text
            && s[e - 2] == '*' && s[e - 1] == '*' && s[e..] == w3
  {
    var a := "**第" + w1;
    var b := a + digits;
    var c := b + w2;
    var d := c + "章";
    var f := d + ws;
    var g := f + text;
    var h := g + "**";
    assert s == h + w3;
    assert s[..|h|] == h && s[|h|..] == w3;
    assert h[..|g|] == g && s[|g|..|h|] == "**";
    assert g[..|f|] == f && s[|f|..|g|] == text;
    assert f[..|d|] == d && s[|d|..|f|] == ws;
    assert d[..|c|] == c && s[|c|..|d|] == "章";
    assert c[..|b|] == b && s[|b|..|c|] == w2;
    assert b[..|a|] == a && s[|a|..|b|] == digits;
    assert s[..|a|] == a && s[3..|a|] == w1 && s[..3] == "**第";
  }

  /** The preface marker opens the chunk written to 00-前言. */
  lemma PrefaceMarkerTitle(w1: string, w2: string)
    requires AllSpace(w1) && AllSpace(w2)
    ensures MarkerTitle("**" + Preface + w1 + "**" + w2) == Some("00-" + Preface)
  {
    PrefaceLineWritten(w1, w2);
  }

  /** A chapter marker opens the chunk named after its own number, padded
      to two digits, whatever chunks came before it. */
  lemma ChapterMarkerTitle(digits: string, rest: string)
    requires digits != [] && AllDigits(digits) && '\n' !in rest
    ensures var num := ZFill2(digits);
            MarkerTitle("**第" + digits + "章" + rest + "**") == Some(num + "-第" + num + "章")
  {
    var s := "**第" + digits + "章" + rest + "**";
    ChapterLineWritten(digits, rest);
    assert !IsPrefaceLine(s) by {
      assert s[2] == '第' && s[2] != Preface[0];
    }
  }

  /** The file prefix of a chapter is its own number, zero-padded: it reads
      back as the number written in the marker. */
  lemma ChapterNumberKept(digits: string)
    requires AllDigits(digits)
    ensures var num := ZFill2(digits);
            && ChapterTitle(digits) == num + "-第" + num + "章"
            && |num| >= 2 && AllDigits(num) && ParseDecimal(num) == ParseDecimal(digits)
  {
    if |digits| < 2 {
      LeadingZerosDoNotCount(2 - |digits|, digits);
    }
  }

  /** Every marker line without a newline is also a bold line, so the
      normaliser turns it into a heading. */
  lemma MarkerIsHeading(s: string)
    requires IsMarker(s) && '\n' !in s
    ensures HeadingInner(s).Some?
  {
    if IsPrefaceLine(s) {
      var j := SkipSpaces(s, 4);
      SpaceUpTo(s, j + 2);
      TrimmedEndAt(s, j + 2);
    } else {
      var m := ChapterAt(s, 2).value;
      assert m.end >= 5;
    }
  }

  // ------------------------------------------------------------- chunking

  /** The loop's variables: `current_title` (unset until the first marker)
      and `current`. */
  datatype Acc = Acc(title: Option<string>, current: seq<string>)

  /** One output file before normalisation: its stem and its lines. */
  datatype Piece = Piece(title: string, lines: seq<string>)

  function LinesOf(p: Piece): seq<string> {
    p.lines
  }

  /** `if current and current_title: chunks.append(...)`. */
  function Emit(a: Acc): (r: seq<Piece>)
    ensures FlatMap(LinesOf, r) == Held(a)
  {
    if a.current != [] && a.title.Some? then
      var r := [Piece(a.title.value, a.current)];
      assert FlatMap(LinesOf, r) == a.current + FlatMap(LinesOf, []);
      r
    else []
  }

  /** The lines the accumulator will hand on: none until a title is set. */
  function Held(a: Acc): seq<string> {
    if a.title.Some? then a.current else []
  }

  /** One turn of the loop: a merged heading is skipped, a marker closes
      the pending chunk and opens its own, any other line is collected. */
  function SplitStep(a: Acc, line: string): Out<Acc, Piece> {
    if IsCompoundLine(line) then Out(a, [])
    else match MarkerTitle(line)
      case Some(title) => Out(Acc(Some(title), [line]), Emit(a))
      case None => Out(a.(current := a.current + [line]), [])
  }

  /** The chunking loop of `main` over the lines of the text, with the
      final flush. */
  function SplitLines(lines: seq<string>): seq<Piece> {
    var r := Fold(SplitStep, Acc(None, []), lines);
    r.out + Emit(r.state)
  }

  // ------------------------------------------------- the lines that are kept

  /** What one line contributes to the output, once a marker has (or has
      not) been seen: merged headings nothing, markers themselves, other
      lines themselves only after a marker. */
  function KeptOne(started: bool, line: string): (r: seq<string>)
    ensures |r| <= 1 && (r != [] ==> r == [line])
  {
    if IsCompoundLine(line) then []
    else if IsMarker(line) || started then [line]
    else []
  }

  function Next(started: bool, line: string): bool {
    started || (!IsCompoundLine(line) && IsMarker(line))
  }

  /** A left-to-right filter with one bit of memory. */
  function Gather<I, T>(one: (bool, I) -> seq<T>, next: (bool, I) -> bool, started: bool, items: seq<I>): seq<T>
    decreases |items|
  {
    if items == [] then []
    else one(started, items[0]) + Gather(one, next, next(started, items[0]), items[1..])
  }

  /** The lines that reach some chunk: no merged heading anywhere, nothing
      before the first marker, everything else in order. */
  function Kept(lines: seq<string>): seq<string> {
    Gather(KeptOne, Next, false, lines)
  }

  lemma {:induction false} HeldFold(step: (Acc, string) -> Out<Acc, Piece>,
                                    one: (bool, string) -> seq<string>, next: (bool, string) -> bool,
                                    a: Acc, lines: seq<string>)
    requires forall s: Acc, l: string ::
               FlatMap(LinesOf, step(s, l).out) + Held(step(s, l).state) == Held(s) + one(s.title.Some?, l)
    requires forall s: Acc, l: string :: step(s, l).state.title.Some? == next(s.title.Some?, l)
    ensures var r := Fold(step, a, lines);
            FlatMap(LinesOf, r.out) + Held(r.state) == Held(a) + Gather(one, next, a.title.Some?, lines)
    decreases |lines|
  {
    if lines != [] {
      var s := step(a, lines[0]);
      var rest := Fold(step, s.state, lines[1..]);
      var g := Gather(one, next, s.state.title.Some?, lines[1..]);
      var o := one(a.title.Some?, lines[0]);
      var x := FlatMap(LinesOf, s.out);
      var y := FlatMap(LinesOf, rest.out);
      assert y + Held(rest.state) == Held(s.state) + g by {
        HeldFold(step, one, next, s.state, lines[1..]);
      }
      assert x + Held(s.state) == Held(a) + o;
      assert Gather(one, next, a.title.Some?, lines) == o + g by {
        assert s.state.title.Some? == next(a.title.Some?, lines[0]);
      }
      assert FlatMap(LinesOf, s.out + rest.out) == x + y by {
        FlatMapAppend(LinesOf, s.out, rest.out);
      }
      assert Fold(step, a, lines) == Out(rest.state, s.out + rest.out);
      Regroup(x, y, Held(rest.state), Held(s.state), g, Held(a), o);
    } else {
      assert FlatMap(LinesOf, []) + Held(a) == Held(a) + [];
    }
  }

  lemma StepKeeps(a: Acc, line: string)
    ensures var s := SplitStep(a, line);
            && FlatMap(LinesOf, s.out) + Held(s.state) == Held(a) + KeptOne(a.title.Some?, line)
            && s.state.title.Some? == Next(a.title.Some?, line)
  {
    var s := SplitStep(a, line);
    if !IsCompoundLine(line) && !IsMarker(line) {
      assert s.out == [];
    }
  }

  /** The chunks, concatenated, are the kept lines: nothing else is lost,
      added, repeated or reordered. */
  lemma SplitPartition(lines: seq<string>)
    ensures FlatMap(LinesOf, SplitLines(lines)) == Kept(lines)
  {
    forall s: Acc, l: string ensures
      && FlatMap(LinesOf, SplitStep(s, l).out) + Held(SplitStep(s, l).state) == Held(s) + KeptOne(s.title.Some?, l)
      && SplitStep(s, l).state.title.Some? == Next(s.title.Some?, l)
    {
      StepKeeps(s, l);
    }
    var a := Acc(None, []);
    HeldFold(SplitStep, KeptOne, Next, a, lines);
    var r := Fold(SplitStep, a, lines);
    FlatMapAppend(LinesOf, r.out, Emit(r.state));
  }

  // ------------------------------------------------------ shape of a chunk

  /** A chunk opens with the marker that named it, and no later line of it
      is a marker or a merged heading. */
  predicate Shaped(p: Piece) {
    && p.lines != []
    && MarkerTitle(p.lines[0]) == Some(p.title)
    && forall j :: 1 <= j < |p.lines| ==> !IsMarker(p.lines[j]) && !IsCompoundLine(p.lines[j])
  }

  /** Once a title is set, the lines held form a well-shaped chunk. */
  predicate Opened(a: Acc) {
    a.title.Some? ==> Shaped(Piece(a.title.value, a.current))
  }

  lemma StepShaped(a: Acc, line: string)
    requires Opened(a)
    ensures Opened(SplitStep(a, line).state)
    ensures forall k :: 0 <= k < |SplitStep(a, line).out| ==> Shaped(SplitStep(a, line).out[k])
  {
    if !IsCompoundLine(line) && !IsMarker(line) && a.title.Some? {
      var c := a.current + [line];
      forall j | 1 <= j < |c| ensures !IsMarker(c[j]) && !IsCompoundLine(c[j]) {
        if j < |a.current| { assert c[j] == a.current[j]; }
      }
    } else if !IsCompoundLine(line) && IsMarker(line) {
      assert Shaped(Piece(MarkerTitle(line).value, [line]));
    }
  }

  /** Every chunk is non-empty, begins with its own marker line, is titled
      as that marker says, and holds no other marker and no merged
      heading. */
  lemma PiecesShaped(lines: seq<string>)
    ensures forall k :: 0 <= k < |SplitLines(lines)| ==> Shaped(SplitLines(lines)[k])
  {
    forall s: Acc, l: string ensures
      && (Opened(s) ==> Opened(SplitStep(s, l).state))
      && (forall k :: Opened(s) && 0 <= k < |SplitStep(s, l).out| ==> Shaped(SplitStep(s, l).out[k]))
    {
      if Opened(s) { StepShaped(s, l); }
    }
    var a := Acc(None, []);
    FoldOutputsUnder(SplitStep, Opened, Shaped, a, lines);
    var r := Fold(SplitStep, a, lines);
    var e := Emit(r.state);
    forall k | 0 <= k < |r.out + e| ensures Shaped((r.out + e)[k]) {
      if k >= |r.out| { assert (r.out + e)[k] == e[k - |r.out|]; }
    }
  }

  /** Before the first marker nothing is kept, and the first marker is. */
  lemma {:induction false} KeptUnstarted(lines: seq<string>)
    ensures Gather(KeptOne, Next, false, lines) == [] <==> forall i :: 0 <= i < |lines| ==> !IsMarker(lines[i])
    decreases |lines|
  {
    if lines != [] {
      var l := lines[0];
      PatternsDisjoint(l);
      KeptUnstarted(lines[1..]);
      if !IsMarker(l) {
        assert Next(false, l) == false && KeptOne(false, l) == [];
        assert (forall i :: 0 <= i < |lines| ==> !IsMarker(lines[i]))
           <==> (forall i :: 0 <= i < |lines[1..]| ==> !IsMarker(lines[1..][i])) by {
          forall i | 0 <= i < |lines[1..]| ensures lines[1..][i] == lines[i + 1] { }
          forall i | 1 <= i < |lines| ensures lines[i] == lines[1..][i - 1] { }
        }
      } else {
        assert KeptOne(false, l) == [l];
      }
    }
  }

  /** With no marker line there is no chunk, and a single marker line is
      enough for one: lines before it, however many, are never written. */
  lemma NoMarkerNoPieces(lines: seq<string>)
    ensures SplitLines(lines) == [] <==> forall i :: 0 <= i < |lines| ==> !IsMarker(lines[i])
  {
    PiecesShaped(lines);
    SplitPartition(lines);
    KeptUnstarted(lines);
    var ps := SplitLines(lines);
    if ps != [] {
      assert ps[0].lines != [];
    }
  }

  /** Every kept line is one of the input lines. */
  lemma {:induction false} KeptWithin(started: bool, lines: seq<string>, x: string)
    requires x in Gather(KeptOne, Next, started, lines)
    ensures x in lines
    decreases |lines|
  {
    var o := KeptOne(started, lines[0]);
    if x !in o {
      KeptWithin(Next(started, lines[0]), lines[1..], x);
    }
  }

  // ---------------------------------------------------------- the files

  /** What `main` writes, in order: each chunk's file name and its lines,
      joined and normalised with the first bold line as `#`. */
  function Files(text: string): (r: seq<(string, string)>)
    ensures |r| == |SplitLines(Split(text, '\n'))|
  {
    var ps := SplitLines(Split(text, '\n'));
    seq(|ps|, k requires 0 <= k < |ps| => (ps[k].title + ".md", NormalizeHeadings(Join(ps[k].lines, "\n"), true)))
  }

  /** A chunk of the text has no line with a newline in it. */
  lemma PieceLinesPlain(text: string, k: nat, j: nat)
    requires k < |SplitLines(Split(text, '\n'))|
    requires j < |SplitLines(Split(text, '\n'))[k].lines|
    ensures '\n' !in SplitLines(Split(text, '\n'))[k].lines[j]
  {
    var lines := Split(text, '\n');
    var ps := SplitLines(lines);
    var x := ps[k].lines[j];
    FlatMapHas(LinesOf, ps, k, x);
    SplitPartition(lines);
    KeptWithin(false, lines, x);
  }

  /** Each written file has one line per line of its chunk, and its first
      line is a level-1 heading: the marker line, rewritten. */
  lemma FileOpensWithTitle(text: string, k: nat)
    requires k < |Files(text)|
    ensures var p := SplitLines(Split(text, '\n'))[k];
            var out := Split(Files(text)[k].1, '\n');
            && Files(text)[k].0 == p.title + ".md"
            && |out| == |p.lines|
            && HeadingInner(p.lines[0]).Some?
            && out[0] == "# " + Strip(HeadingInner(p.lines[0]).value)
  {
    var lines := Split(text, '\n');
    var p := SplitLines(lines)[k];
    PiecesShaped(lines);
    forall j | 0 <= j < |p.lines| ensures '\n' !in p.lines[j] {
      PieceLinesPlain(text, k, j);
    }
    SplitJoin(p.lines, '\n');
    NormalizedText(Join(p.lines, "\n"), true);
    MarkerIsHeading(p.lines[0]);
    NormalizeAt(p.lines, true, 0);
  }
}
