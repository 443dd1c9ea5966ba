/** String primitives shared by the three manuscript scripts.

    Python's `str.strip()`, `str.split(sep)`, `sep.join(...)`, `str.zfill(2)`
    and `f"{n:02d}"` are written out here over `seq<char>`. Whitespace and
    digits are restricted to ASCII: Python also treats some non-ASCII code
    points as whitespace or `\d`, which this model does not.
 */
module Strings {

  datatype Option<+T> = None | Some(value: T)

  /** ASCII characters for which Python's `str.isspace()` (and the regex
      class `\s`) holds: tab, newline, vertical tab, form feed, carriage
      return, the four separators 0x1C-0x1F and the space. */
  predicate IsSpace(c: char) {
    c == ' ' || ('\t' <= c <= '\r') || ('\U{1C}' <= c <= '\U{1F}')
  }

  /** ASCII decimal digit (the model's reading of `\d`). */
  predicate IsDigit(c: char) {
    '0' <= c <= '9'
  }

  predicate AllSpace(s: string) {
    forall i :: 0 <= i < |s| ==> IsSpace(s[i])
  }

  predicate AllDigits(s: string) {
    forall i :: 0 <= i < |s| ==> IsDigit(s[i])
  }

  /** Neither end of `s` is whitespace: what `strip()` leaves behind. */
  predicate Trimmed(s: string) {
    s == [] || (!IsSpace(s[0]) && !IsSpace(s[|s| - 1]))
  }

  /** Number of leading whitespace characters of `s`. */
  function LeadingSpaces(s: string): (k: nat)
    ensures k <= |s|
    ensures forall i :: 0 <= i < k ==> IsSpace(s[i])
    ensures k < |s| ==> !IsSpace(s[k])
  {
    if |s| > 0 && IsSpace(s[0]) then 1 + LeadingSpaces(s[1..]) else 0
  }

  /** Number of trailing whitespace characters of `s`. */
  function TrailingSpaces(s: string): (k: nat)
    ensures k <= |s|
    ensures forall i :: |s| - k <= i < |s| ==> IsSpace(s[i])
    ensures k < |s| ==> !IsSpace(s[|s| - k - 1])
  {
    if |s| > 0 && IsSpace(s[|s| - 1]) then 1 + TrailingSpaces(s[..|s| - 1]) else 0
  }

  /** `s.lstrip()`: the suffix left after dropping leading whitespace. */
  function LStrip(s: string): (r: string)
    ensures |r| <= |s| && r == s[|s| - |r|..]
    ensures AllSpace(s[..|s| - |r|])
    ensures r == [] || !IsSpace(r[0])
  {
    var k := LeadingSpaces(s);
    assert forall i :: 0 <= i < k ==> s[..k][i] == s[i];
    s[k..]
  }

  /** `s.rstrip()`: the prefix left after dropping trailing whitespace. */
  function RStrip(s: string): (r: string)
    ensures |r| <= |s| && r == s[..|r|]
    ensures AllSpace(s[|r|..])
    ensures r == [] || !IsSpace(r[|r| - 1])
  {
    s[..|s| - TrailingSpaces(s)]
  }

  /** `s` is `r`, starting at index `a`, with only whitespace before and
      after it. */
  predicate Padded(s: string, a: nat, r: string) {
    && a + |r| <= |s|
    && AllSpace(s[..a])
    && s[a..a + |r|] == r
    && AllSpace(s[a + |r|..])
  }

  /** `s.strip()`: `s` is the result with whitespace on both sides. */
  function Strip(s: string): (r: string)
    ensures Trimmed(r)
    ensures r == [] <==> AllSpace(s)
    ensures |r| <= |s|
    ensures Trimmed(s) ==> r == s
  {
    var l := LStrip(s);
    var r := RStrip(l);
    StripFacts(s, l, r);
    r
  }

  /** What `strip` means: `Strip(s)` is the one trimmed string that `s`
      pads with whitespace on both sides. */
  lemma StripIff(s: string, t: string)
    ensures Strip(s) == t <==> Trimmed(t) && exists a: nat :: Padded(s, a, t)
  {
    StripPadded(s);
    if Trimmed(t) && exists a: nat :: Padded(s, a, t) {
      var a: nat :| Padded(s, a, t);
      StripUnique(s, a, t);
    }
  }

  /** The stripped string is padded in `s` with whitespace. */
  lemma StripPadded(s: string)
    ensures exists a: nat :: Padded(s, a, Strip(s))
  {
    var l := LStrip(s);
    var r := RStrip(l);
    StripFacts(s, l, r);
    assert r == Strip(s);
    assert Padded(s, |s| - |l|, r);
  }

  /** A trimmed string padded with whitespace strips back to itself. */
  lemma {:induction false} StripUnique(s: string, a: nat, t: string)
    requires Trimmed(t) && Padded(s, a, t)
    ensures Strip(s) == t
  {
    var r := Strip(s);
    StripPadded(s);
    var b: nat :| Padded(s, b, r);
    if t == [] {
      BlankPadding(s, a);
    } else {
      assert r != [] by {
        assert s[a] == t[0];
      }
      PaddingsAgree(s, a, t, b, r);
    }
  }

  /** Padding the empty string leaves only whitespace. */
  lemma BlankPadding(s: string, a: nat)
    requires Padded(s, a, [])
    ensures AllSpace(s)
  {
    assert s == s[..a] + s[a..];
  }

  /** Two trimmed, non-empty strings padded in the same `s` are equal: both
      start at the first non-blank character and end at the last. */
  lemma PaddingsAgree(s: string, a: nat, t: string, b: nat, r: string)
    requires t != [] && r != [] && Trimmed(t) && Trimmed(r)
    requires Padded(s, a, t) && Padded(s, b, r)
    ensures t == r
  {
  }

  /** The facts `Strip` promises, derived from those of `LStrip` and `RStrip`. */
  lemma StripFacts(s: string, l: string, r: string)
    requires |l| <= |s| && l == s[|s| - |l|..] && AllSpace(s[..|s| - |l|])
    requires l == [] || !IsSpace(l[0])
    requires |r| <= |l| && r == l[..|r|] && AllSpace(l[|r|..])
    requires r == [] || !IsSpace(r[|r| - 1])
    ensures Trimmed(r)
    ensures r == [] <==> AllSpace(s)
    ensures r == s[|s| - |l|..|s| - |l| + |r|]
    ensures AllSpace(s[..|s| - |l|]) && AllSpace(s[|s| - |l| + |r|..])
  {
    var i := |s| - |l|;
    assert s[i + |r|..] == l[|r|..];
    if Trimmed(s) && s != [] {
      assert |l| == |s|;
      assert |r| == |l|;
    }
    if r == [] {
      assert l == [];
      assert s == s[..i];
    } else {
      assert r[0] == l[0];
    }
  }

  /** A prefix of `s` is a shorter prefix followed by the slice between. */
  lemma PrefixExtend(s: string, i: nat, j: nat)
    requires i <= j <= |s|
    ensures s[..j] == s[..i] + s[i..j]
  {
  }

  /** Index of the first `c` in `s`, or `|s|` when there is none. */
  function Find(s: string, c: char): (i: nat)
    ensures i <= |s| && c !in s[..i]
    ensures i < |s| ==> s[i] == c
    ensures i == |s| <==> c !in s
  {
    if |s| == 0 then 0
    else if s[0] == c then 0
    else
      var i := Find(s[1..], c);
      assert s[..i + 1] == [s[0]] + s[1..][..i];
      i + 1
  }

  /** Number of leading copies of `c` in `s`. */
  function CountLeading(s: string, c: char): (k: nat)
    ensures k <= |s|
    ensures forall i :: 0 <= i < k ==> s[i] == c
    ensures k < |s| ==> s[k] != c
  {
    if |s| > 0 && s[0] == c then 1 + CountLeading(s[1..], c) else 0
  }

  /** Length of the longest all-digit prefix of `s` (the greedy `\d+`). */
  function DigitRun(s: string): (k: nat)
    ensures k <= |s| && AllDigits(s[..k])
    ensures k < |s| ==> !IsDigit(s[k])
  {
    if |s| > 0 && IsDigit(s[0]) then
      var k := DigitRun(s[1..]);
      assert s[..k + 1] == [s[0]] + s[1..][..k];
      k + 1
    else 0
  }

  /** The first index at or after `i` that is not whitespace (the greedy
      `\s*` starting at `i`). */
  function SkipSpaces(s: string, i: nat): (j: nat)
    requires i <= |s|
    ensures i <= j <= |s|
    ensures forall k :: i <= k < j ==> IsSpace(s[k])
    ensures j < |s| ==> !IsSpace(s[j])
    decreases |s| - i
  {
    if i < |s| && IsSpace(s[i]) then SkipSpaces(s, i + 1) else i
  }

  /** The first index at or after `i` that is not a digit (the greedy
      `\d*` starting at `i`). */
  function SkipDigits(s: string, i: nat): (j: nat)
    requires i <= |s|
    ensures i <= j <= |s|
    ensures forall k :: i <= k < j ==> IsDigit(s[k])
    ensures j < |s| ==> !IsDigit(s[j])
    decreases |s| - i
  {
    if i < |s| && IsDigit(s[i]) then SkipDigits(s, i + 1) else i
  }

  /** Every character of `strip(s)` occurs in `s`. */
  lemma StripWithin(s: string)
    ensures forall i :: 0 <= i < |Strip(s)| ==> Strip(s)[i] in s
  {
    var l := LStrip(s);
    var r := RStrip(l);
    StripFacts(s, l, r);
    var a := |s| - |l|;
    forall i | 0 <= i < |r| ensures r[i] in s {
      assert r[i] == s[a + i];
    }
  }

  /** `sep.join(parts)`. */
  function Join(parts: seq<string>, sep: string): string {
    if |parts| == 0 then ""
    else if |parts| == 1 then parts[0]
    else parts[0] + sep + Join(parts[1..], sep)
  }

  /** `"".join(parts)`. */
  function Concat(parts: seq<string>): string {
    if |parts| == 0 then "" else parts[0] + Concat(parts[1..])
  }

  /** `s.split(sep)` for a one-character separator: the pieces between
      separators, so a string with `n` separators has `n + 1` pieces. */
  function Split(s: string, sep: char): (r: seq<string>)
    ensures |r| >= 1
    ensures forall i :: 0 <= i < |r| ==> sep !in r[i]
    decreases |s|
  {
    var i := Find(s, sep);
    if i == |s| then [s]
    else [s[..i]] + Split(s[i + 1..], sep)
  }

  /** Joining the pieces back with the separator gives the string again. */
  lemma {:induction false} JoinSplit(s: string, sep: char)
    ensures Join(Split(s, sep), [sep]) == s
    decreases |s|
  {
    var i := Find(s, sep);
    if i < |s| {
      var rest := Split(s[i + 1..], sep);
      JoinSplit(s[i + 1..], sep);
      assert Split(s, sep) == [s[..i]] + rest;
      assert s == s[..i] + [sep] + s[i + 1..];
    }
  }

  /** Joining and splitting on a separator that no piece contains are inverse. */
  lemma {:induction false} SplitJoin(parts: seq<string>, sep: char)
    requires |parts| >= 1
    requires forall i :: 0 <= i < |parts| ==> sep !in parts[i]
    ensures Split(Join(parts, [sep]), sep) == parts
    decreases |parts|
  {
    if |parts| == 1 {
      assert Find(parts[0], sep) == |parts[0]|;
    } else {
      SplitFirstPiece(parts, sep);
      SplitJoin(parts[1..], sep);
      assert [parts[0]] + parts[1..] == parts;
    }
  }

  /** Splitting a join of several pieces yields the first piece, then the
      split of the join of the rest. */
  lemma SplitFirstPiece(parts: seq<string>, sep: char)
    requires |parts| >= 2 && sep !in parts[0]
    ensures Split(Join(parts, [sep]), sep) == [parts[0]] + Split(Join(parts[1..], [sep]), sep)
  {
    var s := Join(parts, [sep]);
    var tail := Join(parts[1..], [sep]);
    assert s == parts[0] + [sep] + tail;
    assert s[..|parts[0]|] == parts[0];
    assert s[|parts[0]|] == sep;
    FindIsFirst(s, sep, |parts[0]|);
    assert s[|parts[0]| + 1..] == tail;
  }

  lemma FindIsFirst(s: string, c: char, i: nat)
    requires i < |s| && s[i] == c && c !in s[..i]
    ensures Find(s, c) == i
  {
  }

  /** Joining with a separator puts the separator after the first piece. */
  lemma JoinCons(x: string, parts: seq<string>, sep: string)
    requires parts != []
    ensures Join([x] + parts, sep) == x + sep + Join(parts, sep)
  {
    assert ([x] + parts)[1..] == parts;
  }

  /** Joining with a separator puts the separator before the last piece. */
  lemma {:induction false} JoinSnoc(parts: seq<string>, sep: string)
    requires |parts| >= 2
    ensures Join(parts, sep) == Join(parts[..|parts| - 1], sep) + sep + parts[|parts| - 1]
    decreases |parts|
  {
    if |parts| > 2 {
      JoinSnoc(parts[1..], sep);
      assert parts[1..][..|parts| - 2] == parts[..|parts| - 1][1..];
    }
  }

  function Repeat(c: char, n: nat): (r: string)
    ensures |r| == n && forall i :: 0 <= i < n ==> r[i] == c
  {
    if n == 0 then "" else [c] + Repeat(c, n - 1)
  }

  /** `s.zfill(2)` for a string of digits: left-padded with '0' to length 2. */
  function ZFill2(s: string): (r: string)
    ensures |r| == if |s| >= 2 then |s| else 2
    ensures r[|r| - |s|..] == s
    ensures forall i :: 0 <= i < |r| - |s| ==> r[i] == '0'
  {
    if |s| >= 2 then s else Repeat('0', 2 - |s|) + s
  }

  function DigitChar(d: nat): char
    requires d < 10
  {
    ['0', '1', '2', '3', '4', '5', '6', '7', '8', '9'][d]
  }

  /** The decimal digits of `n`, most significant first, no leading zero. */
  function Decimal(n: nat): (r: string)
    ensures |r| >= 1 && AllDigits(r)
    ensures |r| > 1 ==> r[0] != '0'
    ensures |r| == 1 <==> n < 10
    ensures n < 100 ==> |r| <= 2
    decreases n
  {
    if n < 10 then [DigitChar(n)] else Decimal(n / 10) + [DigitChar(n % 10)]
  }

  /** The value of a string of decimal digits (Python's `int(s)`). */
  function ParseDecimal(s: string): nat
    requires AllDigits(s)
  {
    if |s| == 0 then 0
    else 10 * ParseDecimal(s[..|s| - 1]) + ((s[|s| - 1] as int) - ('0' as int))
  }

  lemma {:induction false} ParseDecimalOfDecimal(n: nat)
    ensures ParseDecimal(Decimal(n)) == n
    decreases n
  {
    if n >= 10 {
      ParseDecimalOfDecimal(n / 10);
      var s := Decimal(n);
      assert s[..|s| - 1] == Decimal(n / 10);
    }
  }

  lemma {:induction false} LeadingZerosDoNotCount(z: nat, s: string)
    requires AllDigits(s)
    ensures AllDigits(Repeat('0', z) + s)
    ensures ParseDecimal(Repeat('0', z) + s) == ParseDecimal(s)
    decreases |s|
  {
    var t := Repeat('0', z) + s;
    if |s| == 0 {
      assert t == Repeat('0', z);
      ZerosParseToZero(z);
    } else {
      assert t[..|t| - 1] == Repeat('0', z) + s[..|s| - 1];
      LeadingZerosDoNotCount(z, s[..|s| - 1]);
    }
  }

  lemma {:induction false} ZerosParseToZero(z: nat)
    ensures ParseDecimal(Repeat('0', z)) == 0
    decreases z
  {
    if z > 0 {
      assert Repeat('0', z)[..z - 1] == Repeat('0', z - 1);
      ZerosParseToZero(z - 1);
    }
  }

  /** `f"{n:02d}"`: the decimal form of `n`, zero-padded to two characters. */
  function Pad2(n: nat): (r: string)
    ensures AllDigits(r) && |r| >= 2
    ensures n < 100 ==> |r| == 2
  {
    ZFill2(Decimal(n))
  }

  /** Larger numbers give padded ordinals that read back larger. */
  lemma Pad2Order(m: nat, n: nat)
    requires m < n
    ensures ParseDecimal(Pad2(m)) < ParseDecimal(Pad2(n))
  {
    Pad2RoundTrip(m);
    Pad2RoundTrip(n);
  }

  /** The padded ordinal reads back as the number it was made from. */
  lemma Pad2RoundTrip(n: nat)
    ensures ParseDecimal(Pad2(n)) == n
  {
    var d := Decimal(n);
    ParseDecimalOfDecimal(n);
    if |d| < 2 {
      LeadingZerosDoNotCount(2 - |d|, d);
    }
  }

  /** Distinct ordinals give distinct prefixes. */
  lemma Pad2Injective(m: nat, n: nat)
    requires Pad2(m) == Pad2(n)
    ensures m == n
  {
    Pad2RoundTrip(m);
    Pad2RoundTrip(n);
  }

  /** `[x.strip() for x in xs]`. */
  function MapStrip(xs: seq<string>): (r: seq<string>)
    ensures |r| == |xs|
    ensures forall i :: 0 <= i < |xs| ==> r[i] == Strip(xs[i])
  {
    seq(|xs|, i requires 0 <= i < |xs| => Strip(xs[i]))
  }

  /** A string that ends with the separator splits into pieces the last of
      which is empty. */
  lemma {:induction false} LastPieceEmpty(s: string, sep: char)
    requires s != [] && s[|s| - 1] == sep
    ensures var parts := Split(s, sep);
            |parts| >= 2 && parts[|parts| - 1] == ""
    decreases |s|
  {
    var i := Find(s, sep);
    assert i < |s| by { assert s[|s| - 1] in s; }
    var rest := s[i + 1..];
    var r := Split(rest, sep);
    assert r[|r| - 1] == "" by {
      if rest == [] {
        assert Find(rest, sep) == 0;
      } else {
        assert rest[|rest| - 1] == s[|s| - 1];
        LastPieceEmpty(rest, sep);
      }
    }
    assert Split(s, sep) == [s[..i]] + r;
  }
}
