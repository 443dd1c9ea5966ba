/** The line classifier of the Markdown-to-Word exporter
    (`parse_markdown_line` in scripts/export_to_word.py).

    One raw line plus the two carried flags (inside a table, inside a
    fenced code block) becomes one token plus the new flags. The rules are
    tried in a fixed order and the first that applies wins: blank, fence,
    code line, heading, image, table row/separator, bullet, numbered item,
    quote, horizontal rule, and finally plain paragraph. Every regular
    expression of the source is replaced by a scanner that follows Python's
    `re.match` semantics (anchored at the start, greedy, `.` not matching a
    newline).
 */
module MarkdownLine {
  import opened Strings

  datatype Token =
    | Blank                          // whitespace-only line (the source's `None`)
    | FenceToggle                    // a line starting with three backticks
    | CodeLine(text: string)         // a line inside a fenced block, right-stripped
    | Heading(level: nat, text: string)
    | Image(alt: string, path: string)
    | TableSeparator
    | TableRow(cells: seq<string>)
    | Bullet(text: string)
    | Numbered(text: string)
    | Quote(text: string)
    | Rule
    | Paragraph(text: string)

  datatype Parsed = Parsed(token: Token, inTable: bool, inCode: bool)

  /** Tokens after which the pending table, if any, is no longer open. */
  predicate ClearsTable(t: Token) {
    t.Heading? || t.Bullet? || t.Numbered? || t.Paragraph?
  }

  /** Tokens that leave the carried `inTable` flag as it was. */
  predicate KeepsTable(t: Token) {
    t.Blank? || t.FenceToggle? || t.CodeLine? || t.Image? || t.Quote? || t.Rule?
  }

  const Fence: string := "```"

  // ---------------------------------------------------------------- scanners

  /** `^(#{1,6})\s+(.+)$` on a stripped line: the hash count and the text. */
  function MatchHeading(s: string): (r: Option<(nat, string)>)
    ensures r.Some? ==> 1 <= r.value.0 <= 6
  {
    var k := CountLeading(s, '#');
    if 1 <= k <= 6 && k < |s| && IsSpace(s[k]) then
      var t := LStrip(s[k..]);
      if t != [] && '\n' !in t then Some((k, t)) else None
    else None
  }

  /** `!\[([^\]]*)\]\(([^)]+)\)` anchored at the start: alt text and path.
      Whatever follows the closing parenthesis is ignored. */
  function MatchImage(s: string): Option<(string, string)> {
    if |s| >= 2 && s[0] == '!' && s[1] == '[' then
      var rest := s[2..];
      var a := Find(rest, ']');
      if a + 1 < |rest| && rest[a + 1] == '(' then
        var tail := rest[a + 2..];
        var b := Find(tail, ')');
        if 0 < b < |tail| then Some((rest[..a], tail[..b])) else None
      else None
    else None
  }

  predicate IsTableLine(s: string) {
    |s| >= 1 && s[0] == '|' && s[|s| - 1] == '|'
  }

  predicate SeparatorChar(c: char) {
    IsSpace(c) || c == '-' || c == ':' || c == '|'
  }

  /** `^\|[\s\-:|]+\|$`: a non-empty run of separator characters between two pipes. */
  predicate IsSeparator(s: string) {
    |s| >= 3 && s[0] == '|' && s[|s| - 1] == '|'
    && forall i :: 1 <= i < |s| - 1 ==> SeparatorChar(s[i])
  }

  /** `[c.strip() for c in s.split('|')[1:-1]]`. */
  function Cells(s: string): seq<string> {
    var parts := Split(s, '|');
    if |parts| >= 2 then MapStrip(parts[1..|parts| - 1]) else []
  }

  /** `^[\*\-]\s+`, and the text `re.sub` leaves after removing it. */
  function MatchBullet(s: string): Option<string> {
    if |s| >= 2 && (s[0] == '*' || s[0] == '-') && IsSpace(s[1]) then Some(LStrip(s[1..]))
    else None
  }

  /** `^\d+\.\s+`, and the text `re.sub` leaves after removing it. */
  function MatchNumbered(s: string): Option<string> {
    var d := DigitRun(s);
    if d >= 1 && d + 1 < |s| && s[d] == '.' && IsSpace(s[d + 1]) then Some(LStrip(s[d + 1..]))
    else None
  }

  predicate RuleChar(c: char) {
    c == '-' || c == '*' || c == '_'
  }

  /** `^[-*_]{3,}$`: three or more rule characters, in any mix. */
  predicate IsRule(s: string) {
    |s| >= 3 && forall i :: 0 <= i < |s| ==> RuleChar(s[i])
  }

  // -------------------------------------------------------------- classifier

  /** The rules after the blank, fence and code-block checks, in the
      source's order: heading, image, table, bullet, numbered, quote, rule,
      and otherwise a paragraph carrying the stripped line. */
  function ClassifyText(s: string): (t: Token)
    requires s != []
    ensures !t.Blank? && !t.FenceToggle? && !t.CodeLine?
    ensures t.Paragraph? ==> t.text == s
    ensures t.Heading? ==> 1 <= t.level <= 6
  {
    if s[0] == '#' && MatchHeading(s).Some? then
      Heading(MatchHeading(s).value.0, MatchHeading(s).value.1)
    else if MatchImage(s).Some? then Image(MatchImage(s).value.0, MatchImage(s).value.1)
    else if IsTableLine(s) then
      if IsSeparator(s) then TableSeparator else TableRow(Cells(s))
    else if MatchBullet(s).Some? then Bullet(MatchBullet(s).value)
    else if MatchNumbered(s).Some? then Numbered(MatchNumbered(s).value)
    else if s[0] == '>' then Quote(Strip(s[1..]))
    else if IsRule(s) then Rule
    else Paragraph(s)
  }

  /** The `in_table` flag each branch of the classifier returns: table
      lines set it, headings, list items and paragraphs clear it, and the
      other branches hand back the flag they were given. */
  function TableFlag(t: Token, inTable: bool): bool {
    if t.TableRow? || t.TableSeparator? then true
    else if ClearsTable(t) then false
    else inTable
  }

  /** `parse_markdown_line(line, ..., in_table, in_code_block)`. */
  function ParseLine(line: string, inTable: bool, inCode: bool): (r: Parsed)
    ensures r.token == Blank <==> AllSpace(line)
    ensures r.inCode != inCode <==> r.token == FenceToggle
    ensures r.token == FenceToggle <==> !AllSpace(line) && Fence <= Strip(line)
    ensures inCode ==> r.token in {Blank, FenceToggle, CodeLine(RStrip(line))}
    ensures !inCode ==> !r.token.CodeLine?
    ensures r.token.TableRow? || r.token.TableSeparator? ==> r.inTable
    ensures ClearsTable(r.token) ==> !r.inTable
    ensures KeepsTable(r.token) ==> r.inTable == inTable
    ensures r.token.Heading? ==> 1 <= r.token.level <= 6
  {
    var s := Strip(line);
    if s == [] then Parsed(Blank, inTable, inCode)
    else if Fence <= s then Parsed(FenceToggle, inTable, !inCode)
    else if inCode then Parsed(CodeLine(RStrip(line)), inTable, inCode)
    else
      var t := ClassifyText(s);
      Parsed(t, TableFlag(t, inTable), inCode)
  }

  // ------------------------------------------------- declarative line shapes

  /** A stripped heading line: `n` hashes, a whitespace run, then text that
      starts with a non-space character and holds no newline. */
  predicate HeadingShape(s: string, n: nat, text: string) {
    && 1 <= n <= 6
    && n + |text| < |s|
    && (forall i :: 0 <= i < n ==> s[i] == '#')
    && AllSpace(s[n..|s| - |text|])
    && s[|s| - |text|..] == text
    && text != [] && !IsSpace(text[0]) && '\n' !in text
  }

  /** An image reference: `![alt](path)` followed by anything. */
  predicate ImageShape(s: string, alt: string, path: string) {
    && "![" + alt + "](" + path + ")" <= s
    && ']' !in alt && ')' !in path && path != []
  }

  /** A bullet item: `*` or `-`, a whitespace run `ws`, then the item's
      text, which does not start with whitespace. */
  predicate BulletShape(s: string, ws: string, text: string) {
    && |s| >= 1 && (s[0] == '*' || s[0] == '-')
    && s[1..] == ws + text
    && ws != [] && AllSpace(ws)
    && (text == [] || !IsSpace(text[0]))
  }

  /** A numbered item: a digit run, a dot, a whitespace run `ws`, then the
      item's text, which does not start with whitespace. */
  predicate NumberedShape(s: string, digits: string, ws: string, text: string) {
    && s == digits + "." + ws + text
    && digits != [] && AllDigits(digits)
    && ws != [] && AllSpace(ws)
    && (text == [] || !IsSpace(text[0]))
  }

  /** The heading scanner accepts exactly the heading shapes. */
  lemma MatchHeadingIff(s: string, n: nat, text: string)
    requires Trimmed(s)
    ensures MatchHeading(s) == Some((n, text)) <==> HeadingShape(s, n, text)
  {
    var k := CountLeading(s, '#');
    if MatchHeading(s) == Some((n, text)) {
      var t := LStrip(s[k..]);
      assert s[|s| - |t|..] == s[k..][|s[k..]| - |t|..];
      assert s[n..|s| - |text|] == s[k..][..|s[k..]| - |t|];
    }
    if HeadingShape(s, n, text) {
      assert s[n] == s[n..|s| - |text|][0];
      assert k == n;
      var u := s[k..];
      assert u == s[n..|s| - |text|] + text;
      LStripOfSpacePrefix(s[n..|s| - |text|], text);
    }
  }

  lemma LStripOfSpacePrefix(w: string, t: string)
    requires AllSpace(w) && (t == [] || !IsSpace(t[0]))
    ensures LStrip(w + t) == t
  {
    SuffixAfterSpaces(w, t, LStrip(w + t));
  }

  /** A suffix of `w + t` with only whitespace before it and a non-space
      first character is `t` itself. */
  lemma SuffixAfterSpaces(w: string, t: string, r: string)
    requires AllSpace(w) && (t == [] || !IsSpace(t[0]))
    requires |r| <= |w + t| && r == (w + t)[|w + t| - |r|..]
    requires AllSpace((w + t)[..|w + t| - |r|]) && (r == [] || !IsSpace(r[0]))
    ensures r == t
  {
    var u := w + t;
    forall k | 0 <= k < |u| - |r| ensures IsSpace(u[k]) {
      assert u[..|u| - |r|][k] == u[k];
    }
    forall k | 0 <= k < |w| ensures IsSpace(u[k]) {
      assert w[k] == u[k];
    }
    if |t| > 0 {
      assert !IsSpace(u[|w|]);
    }
    if |r| > 0 {
      assert !IsSpace(u[|u| - |r|]);
    }
    assert |r| == |t|;
    assert r == u[|w|..];
  }

  /** The image scanner accepts exactly the image shapes. */
  lemma MatchImageIff(s: string, alt: string, path: string)
    ensures MatchImage(s) == Some((alt, path)) <==> ImageShape(s, alt, path)
  {
    if MatchImage(s) == Some((alt, path)) {
      MatchImageSound(s);
    }
    if ImageShape(s, alt, path) {
      MatchImageComplete(s, alt, path);
    }
  }

  lemma MatchImageSound(s: string)
    requires MatchImage(s).Some?
    ensures ImageShape(s, MatchImage(s).value.0, MatchImage(s).value.1)
  {
    var rest := s[2..];
    var a := Find(rest, ']');
    var tail := rest[a + 2..];
    var b := Find(tail, ')');
    ImagePieces(s, rest, a, tail, b);
  }

  lemma ImagePieces(s: string, rest: string, a: nat, tail: string, b: nat)
    requires |s| >= 2 && s[0] == '!' && s[1] == '[' && rest == s[2..]
    requires a + 1 < |rest| && rest[a] == ']' && rest[a + 1] == '(' && ']' !in rest[..a]
    requires tail == rest[a + 2..] && 0 < b < |tail| && tail[b] == ')' && ')' !in tail[..b]
    ensures ImageShape(s, rest[..a], tail[..b])
  {
    var p := "![" + rest[..a] + "](" + tail[..b] + ")";
    assert |p| == a + b + 5;
    forall k | 0 <= k < |p| ensures p[k] == s[k] {
      if k < 2 {
      } else if k < a + 2 {
        assert p[k] == rest[..a][k - 2];
      } else if k < a + 4 {
      } else if k < a + b + 4 {
        assert p[k] == tail[..b][k - a - 4];
      } else {
        assert p[k] == ')';
      }
    }
    assert p == s[..|p|];
  }

  lemma MatchImageComplete(s: string, alt: string, path: string)
    requires ImageShape(s, alt, path)
    ensures MatchImage(s) == Some((alt, path))
  {
    ImageAltFound(s, alt, path);
    ImagePathFound(s, alt, path);
    var rest := s[2..];
    var tail := rest[|alt| + 2..];
    assert s[0] == '!' && s[1] == '[' by {
      assert s[..2] == "![";
    }
    assert MatchImage(s) == Some((rest[..|alt|], tail[..|path|]));
  }

  lemma ImageAltFound(s: string, alt: string, path: string)
    requires ImageShape(s, alt, path)
    ensures Find(s[2..], ']') == |alt|
    ensures s[2..][..|alt|] == alt
  {
    var p := "![" + alt + "](" + path + ")";
    assert s[..|p|] == p;
    var rest := s[2..];
    assert rest[..|alt|] == alt;
    assert rest[|alt|] == ']';
    FindIsFirst(rest, ']', |alt|);
  }

  lemma ImagePathFound(s: string, alt: string, path: string)
    requires ImageShape(s, alt, path)
    ensures s[2..][|alt| + 1] == '('
    ensures s[2..][|alt| + 2..][..|path|] == path
    ensures Find(s[2..][|alt| + 2..], ')') == |path|
  {
    var p := "![" + alt + "](" + path + ")";
    assert s[..|p|] == p;
    var rest := s[2..];
    assert rest[|alt| + 1] == '(';
    var tail := rest[|alt| + 2..];
    assert tail[..|path|] == path;
    assert tail[|path|] == ')';
    FindIsFirst(tail, ')', |path|);
  }

  /** The bullet scanner accepts exactly the bullet shapes, and what it
      returns is the text after the marker and the whitespace run. */
  lemma MatchBulletIff(s: string, text: string)
    ensures MatchBullet(s) == Some(text) <==> exists ws :: BulletShape(s, ws, text)
  {
    if MatchBullet(s) == Some(text) {
      var u := s[1..];
      var ws := u[..|u| - |text|];
      assert u == ws + text;
      assert ws != [] by {
        assert IsSpace(u[0]);
        assert text == [] || u[|u| - |text|] == text[0];
      }
      assert BulletShape(s, ws, text);
    }
    if ws :| BulletShape(s, ws, text) {
      assert s[1] == ws[0];
      LStripOfSpacePrefix(ws, text);
    }
  }

  /** The numbered-item scanner accepts exactly the numbered shapes, and
      what it returns is the text after the number, the dot and the
      whitespace run. */
  lemma MatchNumberedIff(s: string, text: string)
    ensures MatchNumbered(s) == Some(text) <==> exists digits, ws :: NumberedShape(s, digits, ws, text)
  {
    if MatchNumbered(s) == Some(text) {
      var d := DigitRun(s);
      var u := s[d + 1..];
      var ws := u[..|u| - |text|];
      NumberedPieces(s, d, ws, text);
    }
    if digits, ws :| NumberedShape(s, digits, ws, text) {
      DigitRunOfShape(s, digits, ws, text);
      assert s[|digits| + 1..] == ws + text;
      LStripOfSpacePrefix(ws, text);
    }
  }

  /** What the numbered-item scanner found, cut into the parts of its shape. */
  lemma NumberedPieces(s: string, d: nat, ws: string, text: string)
    requires 1 <= d && d + 1 < |s| && AllDigits(s[..d]) && s[d] == '.' && IsSpace(s[d + 1])
    requires text == LStrip(s[d + 1..]) && ws == s[d + 1..][..|s| - d - 1 - |text|]
    ensures NumberedShape(s, s[..d], ws, text)
  {
    var u := s[d + 1..];
    assert u == ws + text;
    assert ws != [] by {
      assert IsSpace(u[0]);
      assert text == [] || u[|u| - |text|] == text[0];
    }
    assert s == s[..d] + "." + u;
  }

  /** In a numbered shape the digit run ends at the dot. */
  lemma DigitRunOfShape(s: string, digits: string, ws: string, text: string)
    requires NumberedShape(s, digits, ws, text)
    ensures DigitRun(s) == |digits| && s[|digits|] == '.' && s[|digits| + 1] == ws[0]
  {
    var k := DigitRun(s);
    assert s[..|digits|] == digits;
    DigitRunIs(s, |digits|);
  }

  /** The digit run is fixed by where the digits stop. */
  lemma {:induction false} DigitRunIs(s: string, j: nat)
    requires j <= |s| && AllDigits(s[..j]) && (j < |s| ==> !IsDigit(s[j]))
    ensures DigitRun(s) == j
    decreases j
  {
    if j > 0 {
      assert s[..j][0] == s[0];
      assert s[1..][..j - 1] == s[..j][1..];
      DigitRunIs(s[1..], j - 1);
    }
  }

  /** A table row's cells are the stripped pieces between its pipes. */
  lemma TableCellsShape(s: string)
    requires IsTableLine(s) && |s| >= 2
    ensures exists raw :: s == "|" + Join(raw, "|") + "|" && Cells(s) == MapStrip(raw)
  {
    var parts := Split(s, '|');
    var n := |parts|;
    PipeEnds(s);
    FrontJoin(s, parts);
    var raw := parts[1..n - 1];
    assert parts[..n - 1] == [""] + raw;
    Enclosed(s, parts[..n - 1], raw);
    assert Cells(s) == MapStrip(raw);
  }

  /** A line that is the pieces of `[""] + raw` joined by pipes, plus a
      closing pipe, is `raw` joined by pipes between two pipes. */
  lemma Enclosed(s: string, front: seq<string>, raw: seq<string>)
    requires raw != [] && front == [""] + raw && s == Join(front, "|") + "|"
    ensures s == "|" + Join(raw, "|") + "|"
  {
    JoinCons("", raw, "|");
  }

  /** Everything but the last (empty) piece, joined back, is the line
      without its closing pipe. */
  lemma FrontJoin(s: string, parts: seq<string>)
    requires parts == Split(s, '|') && |parts| >= 2 && parts[|parts| - 1] == ""
    ensures s == Join(parts[..|parts| - 1], "|") + "|"
  {
    JoinSplit(s, '|');
    JoinSnoc(parts, "|");
  }

  /** Split on pipes, a line with a pipe at each end has an empty first
      and an empty last piece, and at least one piece between them. */
  lemma PipeEnds(s: string)
    requires IsTableLine(s) && |s| >= 2
    ensures var parts := Split(s, '|');
            |parts| >= 3 && parts[0] == "" && parts[|parts| - 1] == ""
  {
    var parts := Split(s, '|');
    assert |parts| >= 3 && parts[0] == "" by {
      assert Find(s, '|') == 0;
      assert parts == [""] + Split(s[1..], '|');
      assert '|' in s[1..] by { assert s[1..][|s| - 2] == '|'; }
      assert |Split(s[1..], '|')| >= 2;
    }
    LastPieceEmpty(s, '|');
  }

  /** The last character of a string lies in each of its non-empty suffixes. */
  lemma LastInSuffix(s: string, k: nat)
    requires k <= |s|
    ensures k < |s| ==> s[|s| - 1] in s[k..]
  {
    if k < |s| {
      assert s[k..][|s| - 1 - k] == s[|s| - 1];
    }
  }
}

/** Properties of the classifier as a whole. */
module MarkdownLineFacts {
  import opened Strings
  import opened MarkdownLine

  /** Outside a code block a line is a heading of level `n` with `text`
      exactly when its stripped form has the heading shape. */
  lemma ParseHeadingIff(line: string, inTable: bool, n: nat, text: string)
    ensures ParseLine(line, inTable, false).token == Heading(n, text)
            <==> HeadingShape(Strip(line), n, text)
  {
    var s := Strip(line);
    MatchHeadingIff(s, n, text);
    if HeadingShape(s, n, text) {
      assert s[0] == '#';
      assert !(Fence <= s) by { assert s[0] != Fence[0]; }
    }
  }

  // ------------------------------------------ first match wins, rule by rule

  ghost predicate NoHeadingShape(s: string) {
    forall n: nat, text :: !HeadingShape(s, n, text)
  }

  ghost predicate NoImageShape(s: string) {
    forall alt, path :: !ImageShape(s, alt, path)
  }

  ghost predicate NoBulletShape(s: string) {
    forall ws, text :: !BulletShape(s, ws, text)
  }

  ghost predicate NoNumberedShape(s: string) {
    forall digits, ws, text :: !NumberedShape(s, digits, ws, text)
  }

  /** The stripped line `s` gets past the rules tried before the heading
      rule: it is not blank and is no fence. (Outside a code block there
      is no code-line rule.) */
  ghost predicate PastFence(s: string) {
    s != [] && !(Fence <= s)
  }

  /** ... and past the heading rule. */
  ghost predicate PastHeading(s: string) {
    PastFence(s) && NoHeadingShape(s)
  }

  /** ... and past the image rule. */
  ghost predicate PastImage(s: string) {
    PastHeading(s) && NoImageShape(s)
  }

  /** ... and past the table rule. */
  ghost predicate PastTable(s: string) {
    PastImage(s) && !IsTableLine(s)
  }

  /** ... and past the bullet rule. */
  ghost predicate PastBullet(s: string) {
    PastTable(s) && NoBulletShape(s)
  }

  /** ... and past the numbered-item rule. */
  ghost predicate PastNumbered(s: string) {
    PastBullet(s) && NoNumberedShape(s)
  }

  /** ... and past the quote rule. */
  ghost predicate PastQuote(s: string) {
    PastNumbered(s) && s[0] != '>'
  }

  /** ... and past the rule rule: nothing is left but a paragraph. */
  ghost predicate PastRule(s: string) {
    PastQuote(s) && !IsRule(s)
  }

  /** On a stripped line the heading scanner fails exactly when there is
      no heading shape. */
  lemma HeadingScan(s: string)
    requires Trimmed(s)
    ensures NoHeadingShape(s) <==> MatchHeading(s).None?
  {
    if MatchHeading(s).Some? {
      MatchHeadingIff(s, MatchHeading(s).value.0, MatchHeading(s).value.1);
    } else {
      forall n: nat, text ensures !HeadingShape(s, n, text) {
        MatchHeadingIff(s, n, text);
      }
    }
  }

  lemma ImageScan(s: string)
    ensures NoImageShape(s) <==> MatchImage(s).None?
  {
    if MatchImage(s).Some? {
      MatchImageSound(s);
    } else {
      forall alt, path ensures !ImageShape(s, alt, path) {
        MatchImageIff(s, alt, path);
      }
    }
  }

  lemma BulletScan(s: string)
    ensures NoBulletShape(s) <==> MatchBullet(s).None?
  {
    if MatchBullet(s).Some? {
      MatchBulletIff(s, MatchBullet(s).value);
    } else {
      forall ws, text ensures !BulletShape(s, ws, text) {
        MatchBulletIff(s, text);
      }
    }
  }

  lemma NumberedScan(s: string)
    ensures NoNumberedShape(s) <==> MatchNumbered(s).None?
  {
    if MatchNumbered(s).Some? {
      MatchNumberedIff(s, MatchNumbered(s).value);
    } else {
      forall digits, ws, text ensures !NumberedShape(s, digits, ws, text) {
        MatchNumberedIff(s, text);
      }
    }
  }

  /** Outside a code block, a line past the blank and fence rules gets the
      token `ClassifyText` gives its stripped form, with the table flag
      that token asks for; any other line is blank or a fence. */
  lemma OutsideCode(line: string, inTable: bool)
    ensures var s := Strip(line);
            var r := ParseLine(line, inTable, false);
            if PastFence(s) then r == Parsed(ClassifyText(s), TableFlag(ClassifyText(s), inTable), false)
            else r.token.Blank? || r.token.FenceToggle?
  {
  }

  /** Outside a code block a line is the image `alt`, `path` exactly when
      no earlier rule applies and its stripped form has the image shape;
      an image line keeps the table flag. No earlier rule can apply to an
      image shape, which starts with `!`. */
  lemma ParseImageIff(line: string, inTable: bool, alt: string, path: string)
    ensures ParseLine(line, inTable, false) == Parsed(Image(alt, path), inTable, false)
            <==> PastHeading(Strip(line)) && ImageShape(Strip(line), alt, path)
    ensures ImageShape(Strip(line), alt, path) ==> PastHeading(Strip(line))
  {
    var s := Strip(line);
    OutsideCode(line, inTable);
    if PastFence(s) {
      ClassifyImage(s, alt, path);
    }
    ImageFirst(s, alt, path);
  }

  lemma ClassifyImage(s: string, alt: string, path: string)
    requires Trimmed(s) && PastFence(s)
    ensures ClassifyText(s) == Image(alt, path) <==> PastHeading(s) && ImageShape(s, alt, path)
  {
    HeadingScan(s);
    MatchImageIff(s, alt, path);
  }

  lemma ImageFirst(s: string, alt: string, path: string)
    ensures ImageShape(s, alt, path) ==> PastHeading(s)
  {
    if ImageShape(s, alt, path) {
      assert s[0] == '!' by { assert s[..2] == "!["; }
      NotHeadingChar(s);
    }
  }

  /** Outside a code block a line is the bullet item `text` exactly when
      no earlier rule applies and its stripped form has the bullet shape;
      a bullet clears the table flag. A bullet shape, starting with `*` or
      `-`, is never taken by an earlier rule. */
  lemma ParseBulletIff(line: string, inTable: bool, text: string)
    ensures ParseLine(line, inTable, false) == Parsed(Bullet(text), false, false)
            <==> PastTable(Strip(line)) && exists ws :: BulletShape(Strip(line), ws, text)
    ensures (exists ws :: BulletShape(Strip(line), ws, text)) ==> PastTable(Strip(line))
  {
    var s := Strip(line);
    OutsideCode(line, inTable);
    if PastFence(s) {
      ClassifyBullet(s, text);
    }
    BulletFirst(s, text);
  }

  lemma ClassifyBullet(s: string, text: string)
    requires Trimmed(s) && PastFence(s)
    ensures ClassifyText(s) == Bullet(text) <==> PastTable(s) && exists ws :: BulletShape(s, ws, text)
  {
    HeadingScan(s);
    ImageScan(s);
    MatchBulletIff(s, text);
  }

  lemma BulletFirst(s: string, text: string)
    ensures (exists ws :: BulletShape(s, ws, text)) ==> PastTable(s)
  {
    if ws :| BulletShape(s, ws, text) {
      NotHeadingChar(s);
      NotImageChar(s);
    }
  }

  /** Outside a code block a line is the numbered item `text` exactly when
      no earlier rule applies and its stripped form has the numbered shape;
      a numbered item clears the table flag. A numbered shape, starting
      with a digit, is never taken by an earlier rule. */
  lemma ParseNumberedIff(line: string, inTable: bool, text: string)
    ensures ParseLine(line, inTable, false) == Parsed(Numbered(text), false, false)
            <==> PastBullet(Strip(line)) && exists digits, ws :: NumberedShape(Strip(line), digits, ws, text)
    ensures (exists digits, ws :: NumberedShape(Strip(line), digits, ws, text)) ==> PastBullet(Strip(line))
  {
    var s := Strip(line);
    OutsideCode(line, inTable);
    if PastFence(s) {
      ClassifyNumbered(s, text);
    }
    NumberedFirst(s, text);
  }

  lemma ClassifyNumbered(s: string, text: string)
    requires Trimmed(s) && PastFence(s)
    ensures ClassifyText(s) == Numbered(text)
            <==> PastBullet(s) && exists digits, ws :: NumberedShape(s, digits, ws, text)
  {
    HeadingScan(s);
    ImageScan(s);
    BulletScan(s);
    MatchNumberedIff(s, text);
  }

  lemma NumberedFirst(s: string, text: string)
    ensures (exists digits, ws :: NumberedShape(s, digits, ws, text)) ==> PastBullet(s)
  {
    if digits, ws :| NumberedShape(s, digits, ws, text) {
      assert s[0] == digits[0];
      NotHeadingChar(s);
      NotImageChar(s);
      NotBulletChar(s);
    }
  }

  /** Outside a code block a line is the quote `text` exactly when no
      earlier rule applies, its stripped form starts with `>`, and `text`
      is the rest stripped; a quote keeps the table flag. No earlier rule
      takes a line starting with `>`. */
  lemma ParseQuoteIff(line: string, inTable: bool, text: string)
    ensures ParseLine(line, inTable, false) == Parsed(Quote(text), inTable, false)
            <==> PastNumbered(Strip(line)) && Strip(line)[0] == '>' && text == Strip(Strip(line)[1..])
    ensures Strip(line) != [] && Strip(line)[0] == '>' ==> PastNumbered(Strip(line))
  {
    var s := Strip(line);
    OutsideCode(line, inTable);
    if PastFence(s) {
      ClassifyQuote(s, text);
    }
    QuoteFirst(s);
  }

  lemma ClassifyQuote(s: string, text: string)
    requires Trimmed(s) && PastFence(s)
    ensures ClassifyText(s) == Quote(text) <==> PastNumbered(s) && s[0] == '>' && text == Strip(s[1..])
  {
    if PastNumbered(s) {
      ClassifyLate(s);
    } else {
      ClassifyEarly(s);
    }
  }


  lemma QuoteFirst(s: string)
    ensures s != [] && s[0] == '>' ==> PastNumbered(s)
  {
    if s != [] && s[0] == '>' {
      NotHeadingChar(s);
      NotImageChar(s);
      NotBulletChar(s);
      NotNumberedChar(s);
    }
  }

  /** Outside a code block a line is a horizontal rule exactly when no
      earlier rule applies and its stripped form is three or more of `-`,
      `*` and `_`; a rule keeps the table flag. No earlier rule takes such
      a line: its second character is no whitespace, so it is no bullet. */
  lemma ParseRuleIff(line: string, inTable: bool)
    ensures ParseLine(line, inTable, false) == Parsed(Rule, inTable, false)
            <==> PastQuote(Strip(line)) && IsRule(Strip(line))
    ensures IsRule(Strip(line)) ==> PastQuote(Strip(line))
  {
    var s := Strip(line);
    OutsideCode(line, inTable);
    if PastFence(s) {
      ClassifyRule(s);
    }
    RuleFirst(s);
  }

  lemma ClassifyRule(s: string)
    requires Trimmed(s) && PastFence(s)
    ensures ClassifyText(s) == Rule <==> PastQuote(s) && IsRule(s)
  {
    if PastNumbered(s) {
      ClassifyLate(s);
    } else {
      ClassifyEarly(s);
    }
  }


  lemma RuleFirst(s: string)
    ensures IsRule(s) ==> PastQuote(s)
  {
    if IsRule(s) {
      NotHeadingChar(s);
      NotImageChar(s);
      NotNumberedChar(s);
      assert !IsSpace(s[1]);
      forall ws, text ensures !BulletShape(s, ws, text) {
        BulletSecond(s, ws, text);
      }
    }
  }

  /** Outside a code block a line is a paragraph exactly when no other rule
      applies, and the paragraph carries the stripped line; a paragraph
      clears the table flag. */
  lemma ParseParagraphIff(line: string, inTable: bool, text: string)
    ensures ParseLine(line, inTable, false) == Parsed(Paragraph(text), false, false)
            <==> PastRule(Strip(line)) && text == Strip(line)
  {
    var s := Strip(line);
    OutsideCode(line, inTable);
    if PastFence(s) {
      ClassifyParagraph(s, text);
    }
  }

  lemma ClassifyParagraph(s: string, text: string)
    requires Trimmed(s) && PastFence(s)
    ensures ClassifyText(s) == Paragraph(text) <==> PastRule(s) && text == s
  {
    if PastNumbered(s) {
      ClassifyLate(s);
    } else {
      ClassifyEarly(s);
    }
  }


  /** Past the numbered rule, only the quote, rule and paragraph cases are
      left. */
  lemma ClassifyLate(s: string)
    requires Trimmed(s) && PastNumbered(s)
    ensures ClassifyText(s) == (if s[0] == '>' then Quote(Strip(s[1..])) else if IsRule(s) then Rule else Paragraph(s))
  {
    HeadingScan(s);
    ImageScan(s);
    BulletScan(s);
    NumberedScan(s);
  }

  /** Before it, an earlier rule takes the line. */
  lemma ClassifyEarly(s: string)
    requires Trimmed(s) && PastFence(s) && !PastNumbered(s)
    ensures !ClassifyText(s).Quote? && !ClassifyText(s).Rule? && !ClassifyText(s).Paragraph?
  {
    HeadingScan(s);
    if !NoHeadingShape(s) {
      var n: nat, text :| HeadingShape(s, n, text);
      assert s[0] == '#';
    } else {
      ImageScan(s);
      if NoImageShape(s) && !IsTableLine(s) {
        BulletScan(s);
        NumberedScan(s);
      }
    }
  }

  lemma NotHeadingChar(s: string)
    requires s != [] && s[0] != '#'
    ensures NoHeadingShape(s)
  {
  }

  lemma NotImageChar(s: string)
    requires s != [] && s[0] != '!'
    ensures NoImageShape(s)
  {
    forall alt, path ensures !ImageShape(s, alt, path) {
      ImageStart(s, alt, path);
    }
  }

  lemma ImageStart(s: string, alt: string, path: string)
    ensures ImageShape(s, alt, path) ==> |s| >= 2 && s[..2] == "!["
  {
    if ImageShape(s, alt, path) {
      assert ("![" + alt + "](" + path + ")")[..2] == "![";
    }
  }

  lemma NotNumberedChar(s: string)
    requires s != [] && !IsDigit(s[0])
    ensures NoNumberedShape(s)
  {
    forall digits, ws, text ensures !NumberedShape(s, digits, ws, text) {
      NumberedStart(s, digits, ws, text);
    }
  }

  lemma NumberedStart(s: string, digits: string, ws: string, text: string)
    ensures NumberedShape(s, digits, ws, text) ==> s != [] && IsDigit(s[0])
  {
    if NumberedShape(s, digits, ws, text) {
      assert s[0] == digits[0];
    }
  }

  lemma BulletSecond(s: string, ws: string, text: string)
    ensures BulletShape(s, ws, text) ==> |s| >= 2 && IsSpace(s[1])
  {
    if BulletShape(s, ws, text) {
      assert s[1..][0] == ws[0];
    }
  }

  lemma NotBulletChar(s: string)
    requires s != [] && s[0] != '*' && s[0] != '-'
    ensures NoBulletShape(s)
  {
  }

  /** A stripped line that starts and ends with a pipe is always a table
      line: a separator when its interior is made only of whitespace,
      dashes, colons and pipes, and otherwise a row whose cells are the
      stripped pieces between the pipes. Either way the table flag is set. */
  lemma TableLineClassified(line: string, inTable: bool)
    requires IsTableLine(Strip(line))
    ensures var r := ParseLine(line, inTable, false);
            && r.inTable
            && (r.token == TableSeparator <==> IsSeparator(Strip(line)))
            && (!IsSeparator(Strip(line)) ==> r.token == TableRow(Cells(Strip(line))))
  {
    var s := Strip(line);
    assert !(Fence <= s) by { assert s[0] != Fence[0]; }
    assert MatchHeading(s).None? by { assert s[0] != '#'; }
    NotImageChar(s);
    ImageScan(s);
  }

  /** A hash line that is not a heading (no whitespace after the hashes,
      more than six hashes, or a newline in the text) falls through every
      later rule and becomes a paragraph, which clears the table flag. */
  lemma HashLineFallsThrough(line: string, inTable: bool)
    requires Strip(line) != [] && Strip(line)[0] == '#'
    requires forall n: nat, text :: !HeadingShape(Strip(line), n, text)
    ensures ParseLine(line, inTable, false) == Parsed(Paragraph(Strip(line)), false, false)
  {
    var s := Strip(line);
    assert !(Fence <= s) by { assert s[0] != Fence[0]; }
    NoShapeNoMatch(s);
    HashTextIsParagraph(s);
  }

  /** With no heading shape to find, the heading scanner finds nothing. */
  lemma NoShapeNoMatch(s: string)
    requires Trimmed(s)
    requires forall n: nat, text :: !HeadingShape(s, n, text)
    ensures MatchHeading(s).None?
  {
    if MatchHeading(s).Some? {
      MatchHeadingIff(s, MatchHeading(s).value.0, MatchHeading(s).value.1);
      assert false;
    }
  }

  /** A text that starts with a hash but is no heading is a paragraph:
      none of the later rules can start with a hash. */
  lemma HashTextIsParagraph(s: string)
    requires s != [] && s[0] == '#' && MatchHeading(s).None?
    ensures ClassifyText(s) == Paragraph(s)
  {
    NotNumbered(s);
    NotRule(s);
  }

  lemma NotNumbered(s: string)
    requires s != [] && !IsDigit(s[0])
    ensures MatchNumbered(s).None?
  {
    assert DigitRun(s) == 0;
  }

  lemma NotRule(s: string)
    requires s != [] && !RuleChar(s[0])
    ensures !IsRule(s)
  {
  }

  /** Seven or more leading hashes never make a heading. */
  lemma SevenHashesNoHeading(s: string, n: nat, text: string)
    requires |s| >= 7 && forall i :: 0 <= i < 7 ==> s[i] == '#'
    ensures !HeadingShape(s, n, text)
  {
    if 1 <= n <= 6 && n + |text| < |s| {
      assert s[n..|s| - |text|][0] == s[n] == '#';
    }
  }
}
