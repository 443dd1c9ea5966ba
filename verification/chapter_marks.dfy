/** The chapter markers both manuscript converters look for: the word
    前言 ("preface") and a chapter heading 第N章 ("chapter N"). Each is
    found by a scanner that follows Python's `re.match` on the scripts'
    patterns: `\s*` and `\d+` are greedy, and since a digit is never
    whitespace and neither is 章, no backtracking can change a match.
 */
module ChapterMarks {
  import opened Strings

  const Preface: string := "前言"

  /** Where the parts of a `第\s*(\d+)\s*章` match lie: the captured digits
      are `s[lo..hi]`, and the match ends at `end`, just after 章. */
  datatype Span = Span(lo: nat, hi: nat, end: nat)

  /** `s` holds the chapter pattern from index `i` with the parts at `m`. */
  predicate ChapterShape(s: string, i: nat, m: Span) {
    && i < m.lo < m.hi < m.end <= |s|
    && s[i] == '第'
    && (forall k :: i < k < m.lo ==> IsSpace(s[k]))
    && (forall k :: m.lo <= k < m.hi ==> IsDigit(s[k]))
    && (forall k :: m.hi <= k < m.end - 1 ==> IsSpace(s[k]))
    && s[m.end - 1] == '章'
  }

  /** `第\s*(\d+)\s*章` matched at index `i` of `s`. */
  function ChapterAt(s: string, i: nat): (r: Option<Span>)
    requires i <= |s|
    ensures r.Some? ==> ChapterShape(s, i, r.value)
  {
    if i < |s| && s[i] == '第' then
      var lo := SkipSpaces(s, i + 1);
      var hi := SkipDigits(s, lo);
      var c := SkipSpaces(s, hi);
      if lo < hi && c < |s| && s[c] == '章' then Some(Span(lo, hi, c + 1)) else None
    else None
  }

  /** The scanner finds exactly the chapter shapes: the match is unique. */
  lemma ChapterAtIff(s: string, i: nat, m: Span)
    requires i <= |s|
    ensures ChapterAt(s, i) == Some(m) <==> ChapterShape(s, i, m)
  {
    if ChapterShape(s, i, m) {
      assert IsDigit(s[m.lo]) && !IsSpace(s[m.lo]);
      var lo := SkipSpaces(s, i + 1);
      assert lo == m.lo;
      assert IsSpace(s[m.hi]) || s[m.hi] == '章';
      var hi := SkipDigits(s, lo);
      assert hi == m.hi;
      var c := SkipSpaces(s, hi);
      assert c == m.end - 1;
    }
  }

  /** The captured chapter number. */
  function Digits(s: string, m: Span): (d: string)
    requires m.lo <= m.hi <= |s|
    ensures |d| == m.hi - m.lo
  {
    s[m.lo..m.hi]
  }

  /** The captured number of a chapter shape is a non-empty digit string. */
  lemma DigitsOfShape(s: string, i: nat, m: Span)
    requires ChapterShape(s, i, m)
    ensures Digits(s, m) != [] && AllDigits(Digits(s, m))
  {
    var d := Digits(s, m);
    forall k | 0 <= k < |d| ensures IsDigit(d[k]) {
      assert d[k] == s[m.lo + k];
    }
  }

  /** `s` has the word 前言 at index `i`. */
  predicate PrefaceAt(s: string, i: nat) {
    i + 2 <= |s| && s[i] == Preface[0] && s[i + 1] == Preface[1]
  }

  /** `前言\s*\+\s*` matched at index `i`: the index just after it. */
  function CompoundAt(s: string, i: nat): (r: Option<nat>)
    requires i <= |s|
    ensures r.Some? ==> i + 3 <= r.value <= |s| && PrefaceAt(s, i)
  {
    if PrefaceAt(s, i) then
      var j := SkipSpaces(s, i + 2);
      if j < |s| && s[j] == '+' then Some(SkipSpaces(s, j + 1)) else None
    else None
  }

  /** A chapter heading written out the plain way is matched, and its
      number is the digits as written. */
  lemma ChapterWritten(prefix: string, digits: string, rest: string)
    requires digits != [] && AllDigits(digits)
    ensures var s := prefix + "第" + digits + "章" + rest;
            var e := |prefix| + |digits| + 2;
            && ChapterAt(s, |prefix|) == Some(Span(|prefix| + 1, e - 1, e))
            && Digits(s, Span(|prefix| + 1, e - 1, e)) == digits
  {
    var s := prefix + "第" + digits + "章" + rest;
    var e := |prefix| + |digits| + 2;
    var m := Span(|prefix| + 1, e - 1, e);
    assert s[|prefix|] == '第';
    forall k | m.lo <= k < m.hi ensures IsDigit(s[k]) {
      assert s[k] == digits[k - m.lo];
    }
    assert s[e - 1] == '章';
    ChapterAtIff(s, |prefix|, m);
    assert s[m.lo..m.hi] == digits;
  }
}
