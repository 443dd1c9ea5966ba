/** The paragraph side of the Word-to-Markdown converter
    (scripts/docx_to_md.py). The document's paragraphs arrive already read
    from the archive; from there the converter
    - joins a paragraph's text nodes into one trimmed line,
    - writes paragraphs as Markdown lines, headings for outline levels 0-2,
    - cuts the paragraph stream into chapters at 前言 and 第N章 paragraphs,
    - and names each chapter's file by order of first appearance.
 */
module DocxToMd {
  import opened Strings
  import opened Folds
  import opened ChapterMarks

  // ------------------------------------------------------- paragraph text

  /** One `<w:t>` element: its text and the text after its closing tag,
      each "" when absent. */
  datatype TextNode = TextNode(text: string, tail: string)

  /** What the loop keeps of one node: its text if non-empty, then its
      tail if the tail holds more than whitespace. */
  function NodePieces(n: TextNode): (r: seq<string>)
    ensures |r| <= 2
    ensures forall k :: 0 <= k < |r| ==> r[k] != ""
    ensures n.text != "" <==> r != [] && r[0] == n.text
  {
    (if n.text != "" then [n.text] else []) + (if !AllSpace(n.tail) then [n.tail] else [])
  }

  /** `s.replace("\n", " ")`. */
  function NewlinesToSpaces(s: string): (r: string)
    ensures |r| == |s| && '\n' !in r
    ensures forall i :: 0 <= i < |s| ==> r[i] == (if s[i] == '\n' then ' ' else s[i])
    ensures AllSpace(r) <==> AllSpace(s)
  {
    seq(|s|, i requires 0 <= i < |s| => if s[i] == '\n' then ' ' else s[i])
  }

  /** The text of one paragraph: the kept pieces joined, newlines turned
      into spaces, whitespace stripped from both ends. */
  function ExtractText(nodes: seq<TextNode>): (r: string)
    ensures '\n' !in r && Trimmed(r)
    ensures exists a: nat :: Padded(NewlinesToSpaces(Concat(FlatMap(NodePieces, nodes))), a, r)
    ensures r == "" <==> AllSpace(Concat(FlatMap(NodePieces, nodes)))
  {
    var flat := NewlinesToSpaces(Concat(FlatMap(NodePieces, nodes)));
    StripWithin(flat);
    StripPadded(flat);
    Strip(flat)
  }

  lemma {:induction false} FlatMapPointwise(nodes: seq<TextNode>, others: seq<TextNode>)
    requires |nodes| == |others|
    requires forall k :: 0 <= k < |nodes| ==> NodePieces(nodes[k]) == NodePieces(others[k])
    ensures FlatMap(NodePieces, nodes) == FlatMap(NodePieces, others)
    decreases |nodes|
  {
    if nodes != [] {
      FlatMapPointwise(nodes[1..], others[1..]);
    }
  }

  /** A whitespace-only tail never reaches the text: replacing it by any
      other whitespace-only tail changes nothing. */
  lemma BlankTailIgnored(nodes: seq<TextNode>, k: nat, tail: string)
    requires k < |nodes| && AllSpace(nodes[k].tail) && AllSpace(tail)
    ensures ExtractText(nodes[k := nodes[k].(tail := tail)]) == ExtractText(nodes)
  {
    var others := nodes[k := nodes[k].(tail := tail)];
    FlatMapPointwise(nodes, others);
  }

  /** A single node whose text is already one trimmed line comes out as
      that text. */
  lemma CleanTextKept(t: string)
    requires Trimmed(t) && '\n' !in t
    ensures ExtractText([TextNode(t, "")]) == t
  {
    var n := TextNode(t, "");
    assert Concat(FlatMap(NodePieces, [n])) == t by {
      assert FlatMap(NodePieces, [n]) == NodePieces(n) + FlatMap(NodePieces, []);
      if t != "" {
        assert Concat([t]) == t + Concat([]);
      }
    }
    assert NewlinesToSpaces(t) == t;
    assert Strip(t) == t;
  }

  // ---------------------------------------------------------- Markdown lines

  /** A paragraph as the reader returns it: its text and its outline level
      (`None` when it has none). */
  datatype Paragraph = Paragraph(text: string, level: Option<int>)

  /** The heading marker for outline levels 0, 1 and 2: level + 1 hashes
      and a space. Other levels, and no level, have none. */
  function HeadingMarker(level: Option<int>): (r: string)
    ensures level.Some? && 0 <= level.value <= 2 ==>
              |r| == level.value + 2 && r[|r| - 1] == ' ' && forall k :: 0 <= k < |r| - 1 ==> r[k] == '#'
    ensures !(level.Some? && 0 <= level.value <= 2) ==> r == ""
  {
    if level == Some(0) then "# "
    else if level == Some(1) then "## "
    else if level == Some(2) then "### "
    else ""
  }

  /** One paragraph's Markdown line: empty for an empty paragraph, the
      text behind its heading marker otherwise. */
  function ParagraphLine(p: Paragraph): (line: string)
    ensures line == "" <==> p.text == ""
    ensures '\n' !in p.text ==> '\n' !in line
  {
    if p.text == "" then "" else HeadingMarker(p.level) + p.text
  }

  function Lines(ps: seq<Paragraph>): (r: seq<string>)
    ensures |r| == |ps| && forall i :: 0 <= i < |ps| ==> r[i] == ParagraphLine(ps[i])
  {
    seq(|ps|, i requires 0 <= i < |ps| => ParagraphLine(ps[i]))
  }

  /** `paragraphs_to_markdown`: one line per paragraph, a blank line
      between consecutive ones. */
  function ParagraphsToMarkdown(ps: seq<Paragraph>): (md: string)
    ensures ps == [] ==> md == ""
  {
    Join(Lines(ps), "\n\n")
  }

  /** `xs` with an empty line between consecutive items. */
  function Spread(xs: seq<string>): seq<string> {
    if |xs| <= 1 then xs else [xs[0], ""] + Spread(xs[1..])
  }

  /** The items sit at the even positions, the empty lines at the odd ones. */
  lemma {:induction false} SpreadPositions(xs: seq<string>)
    requires xs != []
    ensures var r := Spread(xs);
            && |r| == 2 * |xs| - 1
            && (forall i :: 0 <= i < |xs| ==> r[2 * i] == xs[i])
            && (forall i :: 0 <= i < |xs| - 1 ==> r[2 * i + 1] == "")
    decreases |xs|
  {
    if |xs| > 1 {
      var rest := Spread(xs[1..]);
      SpreadPositions(xs[1..]);
      var r := [xs[0], ""] + rest;
      forall i | 1 <= i < |xs| ensures r[2 * i] == xs[i] {
        assert r[2 * i] == rest[2 * (i - 1)];
      }
      forall i | 1 <= i < |xs| - 1 ensures r[2 * i + 1] == "" {
        assert r[2 * i + 1] == rest[2 * (i - 1) + 1];
      }
    }
  }

  lemma {:induction false} SpreadNoNewline(xs: seq<string>)
    requires forall i :: 0 <= i < |xs| ==> '\n' !in xs[i]
    ensures forall j :: 0 <= j < |Spread(xs)| ==> '\n' !in Spread(xs)[j]
    decreases |xs|
  {
    if |xs| > 1 {
      SpreadNoNewline(xs[1..]);
    }
  }

  lemma {:induction false} JoinSpread(xs: seq<string>)
    ensures Join(xs, "\n\n") == Join(Spread(xs), "\n")
    decreases |xs|
  {
    if |xs| > 1 {
      JoinSpread(xs[1..]);
      var rest := Spread(xs[1..]);
      assert ([xs[0], ""] + rest)[1..] == [""] + rest;
      assert ([""] + rest)[1..] == rest;
    }
  }

  /** Read back line by line, the Markdown is the paragraphs' lines with an
      empty line between consecutive ones, provided no paragraph text holds
      a newline (extracted texts never do). */
  lemma MarkdownLines(ps: seq<Paragraph>)
    requires ps != []
    requires forall i :: 0 <= i < |ps| ==> '\n' !in ps[i].text
    ensures Split(ParagraphsToMarkdown(ps), '\n') == Spread(Lines(ps))
  {
    var lines := Lines(ps);
    JoinSpread(lines);
    SpreadNoNewline(lines);
    if |lines| > 1 {
      SplitJoin(Spread(lines), '\n');
    } else {
      SplitJoin(lines, '\n');
    }
  }

  /** Hence one line per paragraph: line `2i` of the Markdown is paragraph
      `i`'s, and the lines between are empty. */
  lemma OneLinePerParagraph(ps: seq<Paragraph>)
    requires ps != []
    requires forall i :: 0 <= i < |ps| ==> '\n' !in ps[i].text
    ensures var r := Split(ParagraphsToMarkdown(ps), '\n');
            && |r| == 2 * |ps| - 1
            && (forall i :: 0 <= i < |ps| ==> r[2 * i] == ParagraphLine(ps[i]))
            && (forall i :: 0 <= i < |ps| - 1 ==> r[2 * i + 1] == "")
  {
    MarkdownLines(ps);
    SpreadPositions(Lines(ps));
  }

  // ------------------------------------------------------------- chapters

  /** `^前言\s*$`: the paragraph is the word 前言 alone. */
  predicate IsPreface(text: string) {
    PrefaceAt(text, 0) && SkipSpaces(text, 2) == |text|
  }

  /** `^前言\s*\+\s*第\s*\d+\s*章`: a merged heading such as 前言+第1章+第2章. */
  predicate IsCompound(text: string) {
    var c := CompoundAt(text, 0);
    c.Some? && ChapterAt(text, c.value).Some?
  }

  /** The preface pattern accepts exactly 前言 followed by whitespace. */
  lemma PrefaceIff(text: string)
    ensures IsPreface(text) <==> exists ws :: AllSpace(ws) && text == Preface + ws
  {
    if IsPreface(text) {
      var ws := text[2..];
      assert text == text[..2] + ws;
      assert text[..2] == Preface;
      assert AllSpace(ws) by {
        forall k | 0 <= k < |ws| ensures IsSpace(ws[k]) {
          assert ws[k] == text[k + 2];
        }
      }
    }
    if ws :| AllSpace(ws) && text == Preface + ws {
      forall k | 2 <= k < |text| ensures IsSpace(text[k]) {
        assert text[k] == ws[k - 2];
      }
      assert SkipSpaces(text, 2) == |text|;
    }
  }

  /** 前言, the whitespace `w1`, `+`, the whitespace `w2`, and then a
      chapter shape at `m`. */
  predicate CompoundShape(text: string, w1: string, w2: string, m: Span) {
    && AllSpace(w1) && AllSpace(w2)
    && Preface + w1 + "+" + w2 <= text
    && ChapterShape(text, |w1| + |w2| + 3, m)
  }

  /** The merged-heading pattern accepts exactly the texts of that shape. */
  lemma CompoundIff(text: string)
    ensures IsCompound(text) <==> exists w1, w2, m :: CompoundShape(text, w1, w2, m)
  {
    if IsCompound(text) {
      CompoundForm(text);
    }
    if w1, w2, m :| CompoundShape(text, w1, w2, m) {
      FormCompound(text, w1, w2, m);
    }
  }

  lemma CompoundForm(text: string)
    requires IsCompound(text)
    ensures exists w1, w2, m :: CompoundShape(text, w1, w2, m)
  {
    var j := SkipSpaces(text, 2);
    var c := CompoundAt(text, 0).value;
    var m := ChapterAt(text, c).value;
    assert text[j] == '+' && c == SkipSpaces(text, j + 1);
    CompoundPieces(text, j, c, m);
  }

  /** The parts of a merged heading, once its scanned indices are known. */
  lemma CompoundPieces(text: string, j: nat, c: nat, m: Span)
    requires 2 <= j < c <= |text| && text[0] == Preface[0] && text[1] == Preface[1] && text[j] == '+'
    requires forall k :: 2 <= k < j ==> IsSpace(text[k])
    requires forall k :: j + 1 <= k < c ==> IsSpace(text[k])
    requires ChapterShape(text, c, m)
    ensures CompoundShape(text, text[2..j], text[j + 1..c], m)
  {
    var w1, w2 := text[2..j], text[j + 1..c];
    assert AllSpace(w1) by {
      forall k | 0 <= k < |w1| ensures IsSpace(w1[k]) {
        assert w1[k] == text[k + 2];
      }
    }
    assert AllSpace(w2) by {
      forall k | 0 <= k < |w2| ensures IsSpace(w2[k]) {
        assert w2[k] == text[k + j + 1];
      }
    }
    PrefixExtend(text, 2, j);
    PrefixExtend(text, j, j + 1);
    PrefixExtend(text, j + 1, c);
    assert text[..2] == Preface && text[j..j + 1] == "+";
    assert text[..c] == Preface + w1 + "+" + w2;
  }

  lemma FormCompound(text: string, w1: string, w2: string, m: Span)
    requires CompoundShape(text, w1, w2, m)
    ensures IsCompound(text)
  {
    var p := Preface + w1 + "+" + w2;
    var j := 2 + |w1|;
    var c := j + 1 + |w2|;
    assert text[..c] == p;
    assert text[0] == Preface[0] && text[1] == Preface[1] && text[j] == '+';
    forall k | 2 <= k < j ensures IsSpace(text[k]) {
      assert text[k] == p[k] == w1[k - 2];
    }
    assert SkipSpaces(text, 2) == j;
    forall k | j + 1 <= k < c ensures IsSpace(text[k]) {
      assert text[k] == p[k] == w2[k - j - 1];
    }
    assert SkipSpaces(text, j + 1) == c;
    assert CompoundAt(text, 0) == Some(c);
    ChapterAtIff(text, c, m);
  }

  /** From index `from` on, a newline may only be the last character. */
  predicate NewlineOnlyLast(s: string, from: nat) {
    forall k :: from <= k < |s| - 1 ==> s[k] != '\n'
  }

  /** `^第\s*(\d+)\s*章\s*(.*)$`: where the chapter number lies. `(.*)`
      stops at a newline and `$` also matches before a final newline, so
      past the spaces after 章 a newline may only come last. */
  function MatchChapter(text: string): (r: Option<Span>)
    ensures r.Some? ==> ChapterShape(text, 0, r.value) && NewlineOnlyLast(text, SkipSpaces(text, r.value.end))
  {
    var m := ChapterAt(text, 0);
    if m.Some? && NewlineOnlyLast(text, SkipSpaces(text, m.value.end)) then m else None
  }

  /** Conversely, a chapter shape at the start whose tail holds no
      newline but a final one is matched, with the same parts. */
  lemma MatchChapterIff(text: string, m: Span)
    ensures MatchChapter(text) == Some(m)
            <==> ChapterShape(text, 0, m) && NewlineOnlyLast(text, SkipSpaces(text, m.end))
  {
    ChapterAtIff(text, 0, m);
  }

  /** A paragraph that starts a new chunk: 前言 at any level, or a chapter
      heading at outline level 0. */
  predicate Boundary(p: Paragraph) {
    IsPreface(p.text) || (MatchChapter(p.text).Some? && p.level == Some(0))
  }

  /** The title of the chunk a boundary paragraph starts. */
  function BoundaryTitle(p: Paragraph): (t: string)
    requires Boundary(p)
    ensures IsPreface(p.text) <==> t == Preface
  {
    if IsPreface(p.text) then Preface
    else
      var m := MatchChapter(p.text).value;
      "第" + ZFill2(Digits(p.text, m)) + "章"
  }

  /** A merged heading is neither a preface nor a chapter heading. */
  lemma CompoundIsNoBoundary(p: Paragraph)
    requires IsCompound(p.text)
    ensures !Boundary(p)
  {
    var j := SkipSpaces(p.text, 2);
    assert p.text[j] == '+';
  }

  datatype Chunk = Chunk(title: string, body: seq<Paragraph>)

  function BodyOf(c: Chunk): seq<Paragraph> {
    c.body
  }

  /** The chunk being collected: its title and its paragraphs so far. */
  datatype Open = Open(title: string, current: seq<Paragraph>)

  /** The chunk an open chunk becomes, if it has any paragraphs. */
  function Close(o: Open): (r: seq<Chunk>)
    ensures |r| <= 1 && (r == [] <==> o.current == [])
  {
    if o.current != [] then [Chunk(o.title, o.current)] else []
  }

  /** One iteration of `split_by_chapters`: a merged heading is skipped
      while nothing is collected, a boundary closes the open chunk and
      starts the next, and any other paragraph is collected. */
  function ChapterStep(o: Open, p: Paragraph): (r: Out<Open, Chunk>)
  {
    if IsCompound(p.text) && o.current == [] then Out(o, [])
    else if Boundary(p) then Out(Open(BoundaryTitle(p), [p]), Close(o))
    else Out(o.(current := o.current + [p]), [])
  }

  function SplitByChapters(ps: seq<Paragraph>): (chunks: seq<Chunk>)
    ensures ps == [] ==> chunks == []
  {
    var r := Fold(ChapterStep, Open(Preface, []), ps);
    r.out + Close(r.state)
  }

  // ------------------------------------------------- chapter properties

  /** A paragraph that is 前言 followed only by whitespace starts a new
      前言 chunk, whatever its outline level, and closes the open one. */
  lemma PrefaceStarts(o: Open, ws: string, level: Option<int>)
    requires AllSpace(ws)
    ensures var p := Paragraph(Preface + ws, level);
            ChapterStep(o, p) == Out(Open(Preface, [p]), Close(o))
  {
    var text := Preface + ws;
    forall k | 2 <= k < |text| ensures IsSpace(text[k]) {
      assert text[k] == ws[k - 2];
    }
    assert text[0] == Preface[0] && text[1] == Preface[1];
    assert IsPreface(text);
    assert CompoundAt(text, 0).None? by {
      assert SkipSpaces(text, 2) == |text|;
    }
  }

  /** A chapter heading 第N章 at outline level 0, with no newline in the
      rest of its text, starts a chunk titled 第 + N padded to two digits
      + 章 and closes the open one. */
  lemma ChapterStarts(o: Open, digits: string, rest: string)
    requires digits != [] && AllDigits(digits) && '\n' !in rest
    ensures var p := Paragraph("第" + digits + "章" + rest, Some(0));
            && Boundary(p) && BoundaryTitle(p) == "第" + ZFill2(digits) + "章"
            && ChapterStep(o, p) == Out(Open("第" + ZFill2(digits) + "章", [p]), Close(o))
  {
    var text := "第" + digits + "章" + rest;
    var m := Span(1, |digits| + 1, |digits| + 2);
    ChapterWritten("", digits, rest);
    assert "" + "第" + digits + "章" + rest == text;
    forall k | m.end <= k < |text| ensures text[k] != '\n' {
      assert text[k] == rest[k - m.end];
    }
    assert MatchChapter(text) == Some(m);
    NotPrefaceNorCompound(text);
  }

  /** A chapter heading at any other outline level is body text: it is
      added to the open chunk. */
  lemma ChapterBelowTopIsBody(o: Open, p: Paragraph)
    requires MatchChapter(p.text).Some? && p.level != Some(0)
    ensures ChapterStep(o, p) == Out(o.(current := o.current + [p]), [])
  {
    NotPrefaceNorCompound(p.text);
  }

  /** A text that starts with 第 is neither 前言 nor a merged heading. */
  lemma NotPrefaceNorCompound(text: string)
    requires text != [] && text[0] == '第'
    ensures !IsPreface(text) && !IsCompound(text)
  {
    assert text[0] != Preface[0];
  }

  /** The title a chunk starting with `p` gets: its boundary title, or 前言
      for the paragraphs before the first boundary. */
  function TitleFor(p: Paragraph): string {
    if Boundary(p) then BoundaryTitle(p) else Preface
  }

  /** A well-formed chunk: non-empty, titled after its first paragraph,
      and with no boundary after the first paragraph. */
  predicate Shaped(c: Chunk) {
    && c.body != []
    && c.title == TitleFor(c.body[0])
    && forall j :: 1 <= j < |c.body| ==> !Boundary(c.body[j])
  }

  predicate OpenShaped(o: Open) {
    (o.current == [] ==> o.title == Preface) && (o.current != [] ==> Shaped(Chunk(o.title, o.current)))
  }

  lemma StepShaped(o: Open, p: Paragraph)
    requires OpenShaped(o)
    ensures OpenShaped(ChapterStep(o, p).state)
    ensures forall k :: 0 <= k < |ChapterStep(o, p).out| ==> Shaped(ChapterStep(o, p).out[k])
  {
    if !(IsCompound(p.text) && o.current == []) && !Boundary(p) {
      var c := o.current + [p];
      assert c[0] == (if o.current == [] then p else o.current[0]);
      assert forall j :: 1 <= j < |c| - 1 ==> c[j] == o.current[j];
    }
  }

  /** Every chunk is non-empty, titled after its first paragraph, and holds
      no boundary after its first paragraph; every chunk but the first
      starts with a boundary. */
  lemma ChunksShaped(ps: seq<Paragraph>)
    ensures var chunks := SplitByChapters(ps);
            && (forall k :: 0 <= k < |chunks| ==> Shaped(chunks[k]))
            && (forall k :: 1 <= k < |chunks| ==> Boundary(chunks[k].body[0]))
  {
    ChunksWellFormed(ps);
    LaterChunksAtBoundaries(ps);
  }

  lemma ChunksWellFormed(ps: seq<Paragraph>)
    ensures var chunks := SplitByChapters(ps);
            forall k :: 0 <= k < |chunks| ==> Shaped(chunks[k])
  {
    var init := Open(Preface, []);
    forall o: Open, p: Paragraph | OpenShaped(o)
      ensures OpenShaped(ChapterStep(o, p).state)
      ensures forall k :: 0 <= k < |ChapterStep(o, p).out| ==> Shaped(ChapterStep(o, p).out[k])
    {
      StepShaped(o, p);
    }
    var good := (c: Chunk) => Shaped(c);
    FoldOutputsUnder(ChapterStep, OpenShaped, good, init, ps);
    var r := Fold(ChapterStep, init, ps);
    var chunks := r.out + Close(r.state);
    forall k | 0 <= k < |chunks| ensures Shaped(chunks[k]) {
      if k < |r.out| {
        assert chunks[k] == r.out[k] && good(r.out[k]);
      } else {
        assert chunks[k] == Chunk(r.state.title, r.state.current) && OpenShaped(r.state);
      }
    }
  }

  lemma LaterChunksAtBoundaries(ps: seq<Paragraph>)
    ensures var chunks := SplitByChapters(ps);
            forall k :: 1 <= k < |chunks| ==> chunks[k].body != [] && Boundary(chunks[k].body[0])
  {
    var init := Open(Preface, []);
    var mark := (o: Open) => o.current != [] && Boundary(o.current[0]);
    var starts := (c: Chunk) => c.body != [] && Boundary(c.body[0]);
    forall o: Open, p: Paragraph | mark(o) ensures mark(ChapterStep(o, p).state) {
      if !Boundary(p) {
        assert (o.current + [p])[0] == o.current[0];
      }
    }
    FoldOutputsAfterFirst(ChapterStep, mark, starts, init, ps);
    var r := Fold(ChapterStep, init, ps);
    var chunks := r.out + Close(r.state);
    forall k | 1 <= k < |chunks| ensures chunks[k].body != [] && Boundary(chunks[k].body[0]) {
      if k >= |r.out| {
        assert chunks[k] == Chunk(r.state.title, r.state.current);
      } else {
        assert chunks[k] == r.out[k] && starts(r.out[k]);
      }
    }
  }

  /** The input with its leading merged headings removed. */
  function DropLeadingCompounds(ps: seq<Paragraph>): (r: seq<Paragraph>)
    ensures r == [] || !IsCompound(r[0].text)
  {
    if ps != [] && IsCompound(ps[0].text) then DropLeadingCompounds(ps[1..]) else ps
  }

  /** Once a chunk is open, a step that collects paragraphs the way
      `ChapterStep` does loses nothing and adds nothing. */
  lemma {:induction false} CollectedFromOpen(step: (Open, Paragraph) -> Out<Open, Chunk>, o: Open, ps: seq<Paragraph>)
    requires o.current != []
    requires forall o': Open, p: Paragraph :: o'.current != [] ==>
               && FlatMap(BodyOf, step(o', p).out) + step(o', p).state.current == o'.current + [p]
               && step(o', p).state.current != []
    ensures var r := Fold(step, o, ps);
            FlatMap(BodyOf, r.out) + r.state.current == o.current + ps
    decreases |ps|
  {
    if ps != [] {
      var s := step(o, ps[0]);
      assert FlatMap(BodyOf, s.out) + s.state.current == o.current + [ps[0]] && s.state.current != [];
      CollectedFromOpen(step, s.state, ps[1..]);
      var rest := Fold(step, s.state, ps[1..]);
      FlatMapAppend(BodyOf, s.out, rest.out);
      Regroup(FlatMap(BodyOf, s.out), FlatMap(BodyOf, rest.out), rest.state.current, s.state.current,
              ps[1..], o.current, [ps[0]]);
      assert ps == [ps[0]] + ps[1..];
    }
  }

  /** Before any chunk is open, merged headings are skipped and the first
      other paragraph opens one. */
  lemma {:induction false} CollectedFold(step: (Open, Paragraph) -> Out<Open, Chunk>, o: Open, ps: seq<Paragraph>)
    requires o.current == []
    requires forall o': Open, p: Paragraph :: o'.current != [] ==>
               && FlatMap(BodyOf, step(o', p).out) + step(o', p).state.current == o'.current + [p]
               && step(o', p).state.current != []
    requires forall o': Open, p: Paragraph :: o'.current == [] && IsCompound(p.text) ==> step(o', p) == Out(o', [])
    requires forall o': Open, p: Paragraph :: o'.current == [] && !IsCompound(p.text) ==>
               step(o', p).out == [] && step(o', p).state.current == [p]
    ensures var r := Fold(step, o, ps);
            FlatMap(BodyOf, r.out) + r.state.current == DropLeadingCompounds(ps)
    decreases |ps|
  {
    if ps != [] {
      var s := step(o, ps[0]);
      if IsCompound(ps[0].text) {
        assert s == Out(o, []);
        CollectedFold(step, o, ps[1..]);
        var rest := Fold(step, o, ps[1..]);
        assert Fold(step, o, ps) == Out(rest.state, [] + rest.out);
        assert [] + rest.out == rest.out;
        assert DropLeadingCompounds(ps) == DropLeadingCompounds(ps[1..]);
        assert FlatMap(BodyOf, rest.out) + rest.state.current == DropLeadingCompounds(ps[1..]);
      } else {
        CollectedFromOpen(step, s.state, ps[1..]);
        var rest := Fold(step, s.state, ps[1..]);
        assert Fold(step, o, ps) == Out(rest.state, [] + rest.out);
        assert [] + rest.out == rest.out;
        assert ps == [ps[0]] + ps[1..];
      }
    }
  }

  lemma StepCollects(o: Open, p: Paragraph)
    ensures o.current != [] ==>
              && FlatMap(BodyOf, ChapterStep(o, p).out) + ChapterStep(o, p).state.current == o.current + [p]
              && ChapterStep(o, p).state.current != []
    ensures o.current == [] && IsCompound(p.text) ==> ChapterStep(o, p) == Out(o, [])
    ensures o.current == [] && !IsCompound(p.text) ==>
              ChapterStep(o, p).out == [] && ChapterStep(o, p).state.current == [p]
  {
    if IsCompound(p.text) {
      CompoundIsNoBoundary(p);
    }
    var c := Chunk(o.title, o.current);
    assert FlatMap(BodyOf, [c]) == o.current + FlatMap(BodyOf, []);
  }

  /** The chunks, concatenated, give back the input without its leading
      merged headings: nothing else is dropped, reordered or repeated. */
  lemma ChunksPartition(ps: seq<Paragraph>)
    ensures FlatMap(BodyOf, SplitByChapters(ps)) == DropLeadingCompounds(ps)
  {
    forall o: Open, p: Paragraph ensures
      && (o.current != [] ==>
            && FlatMap(BodyOf, ChapterStep(o, p).out) + ChapterStep(o, p).state.current == o.current + [p]
            && ChapterStep(o, p).state.current != [])
      && (o.current == [] && IsCompound(p.text) ==> ChapterStep(o, p) == Out(o, []))
      && (o.current == [] && !IsCompound(p.text) ==>
            ChapterStep(o, p).out == [] && ChapterStep(o, p).state.current == [p])
    {
      StepCollects(o, p);
    }
    var r := Fold(ChapterStep, Open(Preface, []), ps);
    CollectedFold(ChapterStep, Open(Preface, []), ps);
    FlatMapAppend(BodyOf, r.out, Close(r.state));
    if r.state.current != [] {
      var c := Chunk(r.state.title, r.state.current);
      assert FlatMap(BodyOf, [c]) == r.state.current + FlatMap(BodyOf, []);
    }
  }

  /** There are no chunks exactly when the input is nothing but merged
      headings (in particular, for an empty input). */
  lemma NoChunksIff(ps: seq<Paragraph>)
    ensures SplitByChapters(ps) == [] <==> DropLeadingCompounds(ps) == []
  {
    ChunksPartition(ps);
    ChunksShaped(ps);
    var chunks := SplitByChapters(ps);
    if chunks != [] {
      assert chunks == [chunks[0]] + chunks[1..];
      FlatMapAppend(BodyOf, [chunks[0]], chunks[1..]);
      assert FlatMap(BodyOf, [chunks[0]]) == chunks[0].body + FlatMap(BodyOf, []);
    }
  }

  // ------------------------------------------------------------ file names

  /** How a title and its ordinal make a file stem. */
  type Stem = (nat, string) -> string

  /** `f"{i:02d}-{title}"`. */
  function Numbered(i: nat, title: string): string {
    Pad2(i) + "-" + title
  }

  /** The loop over chunk titles: 前言 is already mapped; every other title
      not yet mapped is labelled with the map's current size as ordinal. */
  function NameLoop(stem: Stem, m: map<string, string>, titles: seq<string>): map<string, string>
    decreases |titles|
  {
    if titles == [] then m
    else
      var t := titles[0];
      var m' := if t != Preface && t !in m then m[t := stem(|m|, t)] else m;
      NameLoop(stem, m', titles[1..])
  }

  const PrefaceName: string := "00-" + Preface

  function NameMap(titles: seq<string>): map<string, string> {
    NameLoop(Numbered, map[Preface := PrefaceName], titles)
  }

  /** The titles other than 前言, each once, in order of first appearance:
      `titles[i]` is kept when it is not 前言 and not among `titles[..i]`. */
  function Firsts(titles: seq<string>): (r: seq<string>)
    ensures forall i :: 0 <= i < |r| ==> r[i] != Preface && r[i] in titles
    ensures forall i, j :: 0 <= i < j < |r| ==> r[i] != r[j]
    ensures forall t :: t in titles && t != Preface ==> t in r
    decreases |titles|
  {
    if titles == [] then []
    else
      var init := titles[..|titles| - 1];
      var t := titles[|titles| - 1];
      var r0 := Firsts(init);
      assert forall u :: u in init ==> u in titles;
      assert titles == init + [t];
      if t != Preface && t !in init then r0 + [t] else r0
  }

  /** The order ordinals are handed out in: 前言 first, then the other
      titles by first appearance. */
  function Order(titles: seq<string>): (r: seq<string>)
    ensures r != [] && r[0] == Preface
  {
    [Preface] + Firsts(titles)
  }

  /** The map after the loop has seen `ts`: exactly the titles seen and
      前言 are mapped, 前言 to its fixed name and every other title to its
      stem at its position in `Order(ts)`. */
  ghost predicate NamesAfter(stem: Stem, m: map<string, string>, ts: seq<string>) {
    var o := Order(ts);
    && (forall t :: t in m <==> t == Preface || t in ts)
    && |m| == |o|
    && m[Preface] == PrefaceName
    && forall k :: 1 <= k < |o| ==> m[o[k]] == stem(k, o[k])
  }

  /** One more title either extends the order by itself or leaves it alone. */
  lemma FirstsSnoc(ts: seq<string>, t: string)
    ensures Firsts(ts + [t]) == if t != Preface && t !in ts then Firsts(ts) + [t] else Firsts(ts)
  {
    var ts' := ts + [t];
    assert ts'[..|ts'| - 1] == ts && ts'[|ts'| - 1] == t;
  }

  /** One turn of the loop keeps the description. */
  lemma NameStep(stem: Stem, m: map<string, string>, ts: seq<string>, t: string)
    requires NamesAfter(stem, m, ts)
    ensures NamesAfter(stem, if t != Preface && t !in m then m[t := stem(|m|, t)] else m, ts + [t])
  {
    if t != Preface && t !in m {
      NameStepFresh(stem, m, ts, t);
    } else {
      NameStepSeen(stem, m, ts, t);
    }
  }

  /** A title not mapped yet gets the next ordinal and ends the order. */
  lemma NameStepFresh(stem: Stem, m: map<string, string>, ts: seq<string>, t: string)
    requires NamesAfter(stem, m, ts) && t != Preface && t !in m
    ensures NamesAfter(stem, m[t := stem(|m|, t)], ts + [t])
  {
    var ts' := ts + [t];
    var o := Order(ts);
    var m' := m[t := stem(|m|, t)];
    FreshOrder(ts, t);
    ExtendMembers(m, ts, t, stem(|m|, t));
    ExtendPositions(stem, m, ts, o, t);
    MapGrows(m, t, stem(|m|, t));
    NamesAfterIntro(stem, m', ts', o + [t]);
  }

  /** A title that is neither 前言 nor seen before goes at the end of the
      order. */
  lemma FreshOrder(ts: seq<string>, t: string)
    requires t != Preface && t !in ts
    ensures Order(ts + [t]) == Order(ts) + [t]
  {
    FirstsSnoc(ts, t);
  }

  /** The conditions of `NamesAfter`, with the order given. */
  lemma NamesAfterIntro(stem: Stem, m: map<string, string>, ts: seq<string>, o: seq<string>)
    requires o == Order(ts)
    requires forall t :: t in m <==> t == Preface || t in ts
    requires |m| == |o| && m[Preface] == PrefaceName
    requires forall k :: 1 <= k < |o| ==> m[o[k]] == stem(k, o[k])
    ensures NamesAfter(stem, m, ts)
  {
  }

  /** Mapping a new key adds one to the size. */
  lemma MapGrows(m: map<string, string>, t: string, v: string)
    requires t !in m
    ensures |m[t := v]| == |m| + 1 && m[t := v][t] == v
  {
  }

  /** A fresh title placed at the end of the order takes the next stem;
      the titles before it keep theirs. */
  lemma ExtendPositions(stem: Stem, m: map<string, string>, ts: seq<string>, o: seq<string>, t: string)
    requires NamesAfter(stem, m, ts) && o == Order(ts) && t !in m
    ensures var m', o' := m[t := stem(|m|, t)], o + [t];
            forall k :: 1 <= k < |o'| ==> m'[o'[k]] == stem(k, o'[k])
  {
    var m', o' := m[t := stem(|m|, t)], o + [t];
    forall k | 1 <= k < |o'| ensures m'[o'[k]] == stem(k, o'[k]) {
      if k < |o| {
        assert o'[k] == o[k] && o[k] != t;
      }
    }
  }

  /** Mapping one more title adds it, and nothing else, to the keys. */
  lemma ExtendMembers(m: map<string, string>, ts: seq<string>, t: string, v: string)
    requires forall u :: u in m <==> u == Preface || u in ts
    ensures forall u :: u in m[t := v] <==> u == Preface || u in ts + [t]
  {
    assert forall u :: u in ts + [t] <==> u in ts || u == t;
  }

  /** A title already mapped, 前言 included, changes neither the map nor
      the order. */
  lemma NameStepSeen(stem: Stem, m: map<string, string>, ts: seq<string>, t: string)
    requires NamesAfter(stem, m, ts) && (t == Preface || t in m)
    ensures NamesAfter(stem, m, ts + [t])
  {
    FirstsSnoc(ts, t);
    assert Order(ts + [t]) == Order(ts);
  }

  lemma {:induction false} NameLoopFrom(stem: Stem, m: map<string, string>, titles: seq<string>, n: nat)
    requires n <= |titles| && NamesAfter(stem, m, titles[..n])
    ensures NamesAfter(stem, NameLoop(stem, m, titles[n..]), titles)
    decreases |titles| - n
  {
    if n == |titles| {
      assert titles[..n] == titles;
      assert titles[n..] == [];
    } else {
      var t := titles[n];
      assert titles[..n + 1] == titles[..n] + [t];
      NameStep(stem, m, titles[..n], t);
      var m' := if t != Preface && t !in m then m[t := stem(|m|, t)] else m;
      assert titles[n..][1..] == titles[n + 1..];
      NameLoopFrom(stem, m', titles, n + 1);
    }
  }

  /** Every title is mapped, and its ordinal is its position among 前言
      (always 00) and the other distinct titles in order of first
      appearance, not its chapter number. */
  lemma NameOrdinals(titles: seq<string>)
    ensures var m := NameMap(titles);
            var o := Order(titles);
            && (forall t :: t in m <==> t == Preface || t in titles)
            && forall k :: 0 <= k < |o| ==> m[o[k]] == Pad2(k) + "-" + o[k]
  {
    assert titles[..0] == [];
    assert Firsts([]) == [];
    NameLoopFrom(Numbered, map[Preface := PrefaceName], titles, 0);
    assert titles[0..] == titles;
    assert Pad2(0) == "00" by { assert Decimal(0) == "0"; }
  }

  /** Ordinals are distinct and increase with first appearance. */
  lemma OrdinalsIncrease(titles: seq<string>, i: nat, j: nat)
    requires i < j < |Order(titles)|
    ensures var m := NameMap(titles);
            var o := Order(titles);
            && o[i] in m && m[o[i]] == Pad2(i) + "-" + o[i]
            && o[j] in m && m[o[j]] == Pad2(j) + "-" + o[j]
            && ParseDecimal(Pad2(i)) < ParseDecimal(Pad2(j))
  {
    NameOrdinals(titles);
    Pad2Order(i, j);
  }

  /** A first chunk 第03章 is written to 01-第03章: the ordinal follows the
      order of appearance, not the chapter number. */
  lemma FirstChapterGetsOne()
    ensures NameMap(["第03章"])["第03章"] == "01-第03章"
  {
    var t := "第03章";
    var m0 := map[Preface := PrefaceName];
    assert t != Preface && t !in m0 && |m0| == 1;
    var m1 := m0[t := Numbered(|m0|, t)];
    assert NameMap([t]) == NameLoop(Numbered, m1, [t][1..]);
    assert [t][1..] == [];
    assert NameMap([t]) == m1;
    assert Pad2(1) == "01" by {
      assert Decimal(1) == "1";
      assert Repeat('0', 1) == "0";
    }
  }

  /** The file a chunk is written to. */
  function FileName(m: map<string, string>, title: string): string {
    (if title in m then m[title] else title) + ".md"
  }

  /** The chunk titles, in order: what the naming loop iterates over. */
  function Titles(chunks: seq<Chunk>): (r: seq<string>)
    ensures |r| == |chunks|
    ensures forall k :: 0 <= k < |chunks| ==> r[k] == chunks[k].title
  {
    seq(|chunks|, k requires 0 <= k < |chunks| => chunks[k].title)
  }

  /** What `main` writes, in order: each chunk's file name and Markdown. A
      repeated title names the same file again, so the later chunk
      replaces the earlier one. Every title is in the name map, so the
      `.get` fallback to the bare title never applies. */
  function Outputs(ps: seq<Paragraph>): (r: seq<(string, string)>)
    ensures |r| == |SplitByChapters(ps)|
    ensures var chunks := SplitByChapters(ps);
            var m := NameMap(Titles(chunks));
            forall k :: 0 <= k < |r| ==>
              && chunks[k].title in m
              && r[k] == (m[chunks[k].title] + ".md", ParagraphsToMarkdown(chunks[k].body))
  {
    var chunks := SplitByChapters(ps);
    var m := NameMap(Titles(chunks));
    NameOrdinals(Titles(chunks));
    seq(|chunks|, k requires 0 <= k < |chunks| => (FileName(m, chunks[k].title), ParagraphsToMarkdown(chunks[k].body)))
  }

  /** File k is named `NN-title.md`, where NN is the title's position in
      the order 前言 first, then the other titles by first appearance:
      00-前言.md, then 01-…, 02-… as the naming comment promises. */
  lemma OutputNames(ps: seq<Paragraph>, k: nat)
    requires k < |SplitByChapters(ps)|
    ensures var c := SplitByChapters(ps)[k];
            var o := Order(Titles(SplitByChapters(ps)));
            exists i :: 0 <= i < |o| && o[i] == c.title
                        && Outputs(ps)[k] == (Pad2(i) + "-" + c.title + ".md", ParagraphsToMarkdown(c.body))
  {
    var chunks := SplitByChapters(ps);
    var titles := Titles(chunks);
    var c := chunks[k];
    var o := Order(titles);
    NameOrdinals(titles);
    assert titles[k] == c.title;
    var i: nat;
    if c.title == Preface {
      i := 0;
    } else {
      var f := Firsts(titles);
      assert c.title in f;
      var j :| 0 <= j < |f| && f[j] == c.title;
      i := j + 1;
      assert o[i] == f[j];
    }
    assert o[i] == c.title;
    assert NameMap(titles)[c.title] == Pad2(i) + "-" + c.title;
  }
}
