/** The Markdown-to-Word exporter's block assembly
    (`process_markdown_file` and the page-break loop of `main` in
    scripts/export_to_word.py).

    The output document is an abstract list of elements rather than
    python-docx objects. The file is split on '\n'; each line is classified
    by `MarkdownLine.ParseLine` with the two carried flags; table rows and
    code lines are accumulated and flushed on the state changes the source
    reacts to.
 */
module WordExport {
  import opened Strings
  import opened MarkdownLine
  import opened InlineFormat
  import opened Folds

  /** Elements whose text goes through `add_formatted_text` carry that
      text; their runs are `Runs(text)`. Table cells likewise, with ""
      for a cell that was never filled. */
  datatype Element =
    | EmptyPara                                        // `doc.add_paragraph()`
    | HeadingPara(style: nat, fontSize: nat, text: string)
    | TableBlock(rows: nat, cols: nat, grid: seq<seq<string>>)
    | CodePara(runs: seq<string>)                      // one run per code line
    | BulletPara(text: string)
    | NumberedPara(text: string)
    | QuotePara(text: string)                          // every run set italic
    | PlainPara(text: string)
    | RulePara(text: string)
    | Picture(path: string)
    | Caption(text: string)
    | ImagePlaceholder(text: string)
    | PageBreak

  /** The runs `add_formatted_text` adds for a text. */
  function Runs(text: string): seq<Span> {
    FormatText(text)
  }

  // ------------------------------------------------------------- headings

  /** The `level` argument of `add_heading`: Markdown level 1 is the title
      style 0, deeper levels are capped at 4. */
  function HeadingStyle(level: nat): (style: nat)
    requires level >= 1
    ensures style <= 4
    ensures style == 0 <==> level == 1
    ensures 2 <= level <= 4 ==> style == level
    ensures level >= 4 ==> style == 4
  {
    if level == 1 then 0 else if level < 4 then level else 4
  }

  /** The font size, in points, of a heading's runs. */
  function HeadingSize(level: nat): (size: nat)
    requires level >= 1
    ensures 10 <= size <= 14
    ensures level == 1 ==> size == 14
    ensures level == 2 ==> size == 12
    ensures level == 3 ==> size == 10
    ensures level >= 4 ==> size == 11
  {
    if level < 4 then 16 - 2 * level else 11
  }

  /** Levels 1 to 3 get strictly decreasing sizes; levels 4 and deeper all
      share 11pt, which is larger than the 10pt of level 3. */
  lemma HeadingSizeOrder(m: nat, n: nat)
    requires 1 <= m < n
    ensures n <= 3 ==> HeadingSize(m) > HeadingSize(n)
    ensures 4 <= m ==> HeadingSize(m) == HeadingSize(n)
    ensures m == 3 ==> HeadingSize(m) < HeadingSize(n)
  {
  }

  // --------------------------------------------------------------- images

  /** What the exporter needs from the file system: an existence test and
      the `os.path` functions it uses, all left uninterpreted. */
  datatype Files = Files(
    exists_: string -> bool,
    join: (string, string) -> string,
    basename: string -> string,
    imagesDir: string)

  /** The two candidate locations of an image: the images directory under
      the image's base name, then the path relative to the Markdown file. */
  function FirstCandidate(fs: Files, path: string): string {
    fs.join(fs.imagesDir, fs.basename(path))
  }

  function SecondCandidate(fs: Files, mdDir: string, path: string): string {
    fs.join(mdDir, path)
  }

  /** The elements one image line produces. */
  function ImageElements(fs: Files, mdDir: string, alt: string, path: string): (out: seq<Element>)
    ensures |out| >= 1
    ensures var c1 := FirstCandidate(fs, path);
            var c2 := SecondCandidate(fs, mdDir, path);
            && (out == [ImagePlaceholder("[图片: " + path + "]")] <==> !fs.exists_(c1) && !fs.exists_(c2))
            && (fs.exists_(c1) ==> out[0] == Picture(c1))
            && (!fs.exists_(c1) && fs.exists_(c2) ==> out[0] == Picture(c2))
            && (out[0].Picture? ==> |out| == (if alt == "" then 1 else 2))
            && (|out| == 2 ==> out[1] == Caption(alt))
  {
    var c1 := FirstCandidate(fs, path);
    var full := if fs.exists_(c1) then c1 else SecondCandidate(fs, mdDir, path);
    if fs.exists_(full) then (if alt != "" then [Picture(full), Caption(alt)] else [Picture(full)])
    else [ImagePlaceholder("[图片: " + path + "]")]
  }

  // --------------------------------------------------------------- tables

  /** One row of the table grid: the row's cells cut or padded with empty
      cells to `cols`. */
  function FitRow(row: seq<string>, cols: nat): (r: seq<string>)
    ensures |r| == cols
    ensures forall c :: 0 <= c < cols ==> r[c] == if c < |row| then row[c] else ""
  {
    if cols <= |row| then row[..cols] else row + Blanks(cols - |row|)
  }

  function Blanks(n: nat): (r: seq<string>)
    ensures |r| == n && forall i :: 0 <= i < n ==> r[i] == ""
  {
    if n == 0 then [] else [""] + Blanks(n - 1)
  }

  /** The Word table built from the accumulated rows: as many columns as
      the first row has cells; a cell beyond that is dropped, and a cell a
      short row does not supply stays empty. */
  function MakeTable(rows: seq<seq<string>>): (e: Element)
    requires rows != []
    ensures e.TableBlock? && e.rows == |rows| == |e.grid| && e.cols == |rows[0]|
    ensures forall r :: 0 <= r < |rows| ==> e.grid[r] == FitRow(rows[r], e.cols)
  {
    TableBlock(|rows|, |rows[0]|, seq(|rows|, r requires 0 <= r < |rows| => FitRow(rows[r], |rows[0]|)))
  }

  /** Every cell of the grid: the row's own text while the row has one,
      empty otherwise; in particular the first row is kept whole. */
  lemma TableCells(rows: seq<seq<string>>, r: nat, c: nat)
    requires r < |rows| && rows != [] && c < |rows[0]|
    ensures MakeTable(rows).grid[r][c] == if c < |rows[r]| then rows[r][c] else ""
    ensures r == 0 ==> MakeTable(rows).grid[0][c] == rows[0][c]
  {
  }

  // ------------------------------------------------------------ the fold

  /** The loop state: the two flags, the pending table rows and the
      pending code lines. */
  datatype Asm = Asm(inTable: bool, inCode: bool, rows: seq<seq<string>>, code: seq<string>)

  const Init: Asm := Asm(false, false, [], [])

  /** Pending rows only exist inside a table, and pending code lines only
      inside a code block. */
  predicate Valid(a: Asm) {
    (a.rows != [] ==> a.inTable) && (!a.inCode ==> a.code == [])
  }

  /** A state together with the elements emitted so far. */
  type Progress = Out<Asm, Element>

  /** The runs of a finished code block: each line followed by '\n'. */
  function CodeRuns(code: seq<string>): (runs: seq<string>)
    ensures |runs| == |code|
    ensures forall i :: 0 <= i < |code| ==> runs[i] == code[i] + "\n"
  {
    if code == [] then [] else [code[0] + "\n"] + CodeRuns(code[1..])
  }

  predicate NoTable(out: seq<Element>) {
    forall i :: 0 <= i < |out| ==> !out[i].TableBlock?
  }

  predicate NoPageBreak(out: seq<Element>) {
    forall i :: 0 <= i < |out| ==> !out[i].PageBreak?
  }

  /** The elements a token other than a fence or code line renders to;
      table rows and separators render to nothing. */
  function Render(fs: Files, mdDir: string, t: Token): (out: seq<Element>)
    requires !t.FenceToggle? && !t.CodeLine?
    requires t.Heading? ==> t.level >= 1
    ensures NoTable(out) && NoPageBreak(out)
    ensures t.TableRow? || t.TableSeparator? <==> out == []
  {
    match t
    case Blank => [EmptyPara]
    case Heading(n, text) => [HeadingPara(HeadingStyle(n), HeadingSize(n), text)]
    case Image(alt, path) => ImageElements(fs, mdDir, alt, path)
    case TableSeparator => []
    case TableRow(_) => []
    case Bullet(text) => [BulletPara(text)]
    case Numbered(text) => [NumberedPara(text)]
    case Quote(text) => [QuotePara(text)]
    case Rule => [RulePara(Repeat('─', 50))]
    case Paragraph(text) => [PlainPara(text)]
  }

  /** The parsed line ends a pending table: the table flag drops while
      rows are pending (fence and code lines never flush). */
  predicate Flushes(a: Asm, p: Parsed) {
    !p.token.FenceToggle? && !p.token.CodeLine? && a.inTable && !p.inTable && a.rows != []
  }

  /** The flag update `parse_markdown_line` can make: the code flag only
      changes on a fence, and table tokens set the table flag. */
  predicate Coherent(a: Asm, p: Parsed) {
    && (p.inCode != a.inCode <==> p.token.FenceToggle?)
    && (p.token.TableRow? ==> p.inTable)
    && (p.token.CodeLine? ==> a.inCode)
    && (p.token.Heading? ==> p.token.level >= 1)
  }

  /** One iteration of the loop body, on the line's parsed result. */
  function Advance(fs: Files, mdDir: string, a: Asm, p: Parsed): (r: Progress)
    requires Coherent(a, p)
    ensures Valid(a) ==> Valid(r.state)
    ensures NoPageBreak(r.out)
    ensures Flushes(a, p) ==> |r.out| >= 2 && r.out[..2] == [MakeTable(a.rows), EmptyPara] && NoTable(r.out[2..])
    ensures !Flushes(a, p) ==> NoTable(r.out)
  {
    if p.token.FenceToggle? then
      if a.inCode && a.code != [] then Out(Asm(a.inTable, p.inCode, a.rows, []), [CodePara(CodeRuns(a.code))])
      else Out(Asm(a.inTable, p.inCode, a.rows, a.code), [])
    else if p.token.CodeLine? then
      Out(Asm(a.inTable, p.inCode, a.rows, a.code + [p.token.text]), [])
    else if Flushes(a, p) then
      var out := Render(fs, mdDir, p.token);
      assert ([MakeTable(a.rows), EmptyPara] + out)[2..] == out;
      Out(Asm(p.inTable, p.inCode, AddRow([], p.token), a.code), [MakeTable(a.rows), EmptyPara] + out)
    else
      Out(Asm(p.inTable, p.inCode, AddRow(a.rows, p.token), a.code), Render(fs, mdDir, p.token))
  }

  /** The pending rows after a token: a table row appends its cells. */
  function AddRow(rows: seq<seq<string>>, t: Token): (r: seq<seq<string>>)
    ensures t.TableRow? ==> r == rows + [t.cells]
    ensures !t.TableRow? ==> r == rows
  {
    match t
    case TableRow(cells) => rows + [cells]
    case _ => rows
  }

  /** `parse_markdown_line` with the loop's current flags. */
  function Parse(a: Asm, line: string): (p: Parsed)
    ensures Coherent(a, p)
  {
    ParseLine(line, a.inTable, a.inCode)
  }

  /** One iteration of the loop over lines. */
  function Step(fs: Files, mdDir: string, a: Asm, line: string): (r: Progress)
    ensures Valid(a) ==> Valid(r.state)
    ensures NoPageBreak(r.out)
  {
    Advance(fs, mdDir, a, Parse(a, line))
  }

  function StepFn(fs: Files, mdDir: string): (Asm, string) -> Progress {
    (a, line) => Step(fs, mdDir, a, line)
  }

  /** The loop over a sequence of lines from state `a`. */
  function Run(fs: Files, mdDir: string, a: Asm, lines: seq<string>): (r: Progress)
    ensures Valid(a) ==> Valid(r.state)
    ensures NoPageBreak(r.out)
  {
    StepsKeep(fs, mdDir, a, lines);
    Fold(StepFn(fs, mdDir), a, lines)
  }

  /** The per-line guarantees of `Step` carry over to the whole loop. */
  lemma StepsKeep(fs: Files, mdDir: string, a: Asm, lines: seq<string>)
    ensures Valid(a) ==> Valid(Fold(StepFn(fs, mdDir), a, lines).state)
    ensures NoPageBreak(Fold(StepFn(fs, mdDir), a, lines).out)
  {
    var step := StepFn(fs, mdDir);
    if Valid(a) {
      FoldKeeps(step, Valid, a, lines);
    }
    var good := (e: Element) => !e.PageBreak?;
    forall s, line, k | 0 <= k < |step(s, line).out|
      ensures good(step(s, line).out[k])
    {
    }
    FoldOutputs(step, good, a, lines);
  }

  /** The loop, then the end-of-file flush: a pending table is emitted
      (with no empty paragraph after it); pending code lines are not. */
  function Assemble(fs: Files, mdDir: string, lines: seq<string>): (out: seq<Element>)
    ensures NoPageBreak(out)
  {
    var r := Run(fs, mdDir, Init, lines);
    r.out + (if r.state.rows != [] then [MakeTable(r.state.rows)] else [])
  }

  /** `process_markdown_file` on the file's content. */
  function ProcessFile(fs: Files, mdDir: string, content: string): (out: seq<Element>)
    ensures NoPageBreak(out)
  {
    Assemble(fs, mdDir, Split(content, '\n'))
  }

  // ------------------------------------------------------------ properties

  /** Running over two line sequences is running over their concatenation. */
  lemma RunAppend(fs: Files, mdDir: string, a: Asm, xs: seq<string>, ys: seq<string>)
    ensures var r1 := Run(fs, mdDir, a, xs);
            var r2 := Run(fs, mdDir, r1.state, ys);
            Run(fs, mdDir, a, xs + ys) == Out(r2.state, r1.out + r2.out)
  {
    FoldAppend(StepFn(fs, mdDir), a, xs, ys);
  }

  /** Running over a non-empty sequence is one step, then the rest. */
  lemma RunCons(fs: Files, mdDir: string, a: Asm, lines: seq<string>)
    requires lines != []
    ensures var s := Step(fs, mdDir, a, lines[0]);
            var r := Run(fs, mdDir, s.state, lines[1..]);
            Run(fs, mdDir, a, lines) == Out(r.state, s.out + r.out)
  {
    assert StepFn(fs, mdDir)(a, lines[0]) == Step(fs, mdDir, a, lines[0]);
  }

  /** A whitespace-only line, even inside a code block, leaves the state
      as it was and adds one empty paragraph. */
  lemma BlankLine(fs: Files, mdDir: string, a: Asm, line: string)
    requires AllSpace(line)
    ensures Step(fs, mdDir, a, line) == Out(a, [EmptyPara])
  {
  }

  predicate IsFenceLine(line: string) {
    !AllSpace(line) && Fence <= Strip(line)
  }

  /** A closing fence emits exactly one code paragraph holding the pending
      lines in order, each ending in '\n', and only if there are any. */
  lemma FenceCloses(fs: Files, mdDir: string, a: Asm, line: string)
    requires a.inCode && IsFenceLine(line)
    ensures var r := Step(fs, mdDir, a, line);
            && r.state == Asm(a.inTable, false, a.rows, [])
            && r.out == (if a.code == [] then [] else [CodePara(CodeRuns(a.code))])
  {
  }

  /** A line of a code body: not blank and not a fence. */
  predicate CodeBody(line: string) {
    !AllSpace(line) && !(Fence <= Strip(line))
  }

  function MapRStrip(lines: seq<string>): (r: seq<string>)
    ensures |r| == |lines| && forall i :: 0 <= i < |lines| ==> r[i] == RStrip(lines[i])
  {
    if lines == [] then [] else [RStrip(lines[0])] + MapRStrip(lines[1..])
  }

  /** One body line inside a code block is collected right-stripped, and
      nothing is emitted. */
  lemma CodeLineStep(fs: Files, mdDir: string, a: Asm, line: string)
    requires a.inCode && CodeBody(line)
    ensures Step(fs, mdDir, a, line) == Out(a.(code := a.code + [RStrip(line)]), [])
  {
  }

  /** The induction behind `CodeBodyCollected`, for any step function that
      collects body lines the way one step does. */
  lemma {:induction false} CollectFold(step: (Asm, string) -> Progress, a: Asm, lines: seq<string>)
    requires a.inCode && All(CodeBody, lines)
    requires forall s: Asm, line: string :: s.inCode && CodeBody(line) ==>
               step(s, line) == Out(s.(code := s.code + [RStrip(line)]), [])
    ensures Fold(step, a, lines) == Out(a.(code := a.code + MapRStrip(lines)), [])
    decreases |lines|
  {
    if lines != [] {
      var s := step(a, lines[0]);
      CollectFold(step, s.state, lines[1..]);
      assert a.code + [RStrip(lines[0])] + MapRStrip(lines[1..]) == a.code + MapRStrip(lines);
    } else {
      assert a.code + MapRStrip(lines) == a.code;
    }
  }

  /** Inside a code block, body lines are collected right-stripped and
      nothing is emitted. */
  lemma CodeBodyCollected(fs: Files, mdDir: string, a: Asm, lines: seq<string>)
    requires a.inCode
    requires All(CodeBody, lines)
    ensures Run(fs, mdDir, a, lines) == Out(a.(code := a.code + MapRStrip(lines)), [])
  {
    var step := StepFn(fs, mdDir);
    forall s: Asm, line: string | s.inCode && CodeBody(line)
      ensures step(s, line) == Out(s.(code := s.code + [RStrip(line)]), [])
    {
      CodeLineStep(fs, mdDir, s, line);
    }
    CollectFold(step, a, lines);
  }

  /** A code block that is never closed is dropped at end of file: a file
      made of an opening fence and body lines produces nothing. */
  lemma UnclosedCodeDropped(fs: Files, mdDir: string, fence: string, body: seq<string>)
    requires IsFenceLine(fence)
    requires All(CodeBody, body)
    ensures Assemble(fs, mdDir, [fence] + body) == []
  {
    var s := Step(fs, mdDir, Init, fence);
    assert s == Out(Asm(false, true, [], []), []);
    RunCons(fs, mdDir, Init, [fence] + body);
    CodeBodyCollected(fs, mdDir, s.state, body);
    assert ([fence] + body)[1..] == body;
  }

  /** A table line as the classifier sees it, outside a code block: a
      stripped line between pipes that is not an image. */
  predicate TableLine(line: string) {
    var s := Strip(line);
    s != [] && IsTableLine(s) && MatchImage(s).None? && !(Fence <= s)
  }

  /** The row one table line contributes: its cells, unless it is a
      separator line. */
  function RowOf(line: string): (r: seq<seq<string>>)
    ensures |r| <= 1
  {
    var s := Strip(line);
    if IsSeparator(s) then [] else [Cells(s)]
  }

  lemma TableLineToken(line: string, inTable: bool)
    requires TableLine(line)
    ensures var s := Strip(line);
            ParseLine(line, inTable, false)
              == Parsed(if IsSeparator(s) then TableSeparator else TableRow(Cells(s)), true, false)
  {
    var s := Strip(line);
    assert s[0] == '|';
  }

  /** One table line, outside a code block, sets the table flag, emits
      nothing, and adds its cells as a row unless it is a separator. */
  lemma TableStep(fs: Files, mdDir: string, a: Asm, line: string)
    requires !a.inCode && TableLine(line)
    ensures Step(fs, mdDir, a, line) == Out(a.(inTable := true, rows := a.rows + RowOf(line)), [])
  {
    TableLineToken(line, a.inTable);
    var p := Parse(a, line);
    assert p.inTable && !p.inCode && !Flushes(a, p);
    assert Render(fs, mdDir, p.token) == [];
    if IsSeparator(Strip(line)) {
      assert AddRow(a.rows, p.token) == a.rows + RowOf(line);
    } else {
      assert AddRow(a.rows, p.token) == a.rows + RowOf(line);
    }
  }

  /** The induction behind `TableLinesAccumulate`, for any step function
      that treats the lines `ok` accepts the way one step treats a table
      line. */
  lemma {:induction false} TableFold(step: (Asm, string) -> Progress, ok: string -> bool,
                                     rowOf: string -> seq<seq<string>>, a: Asm, lines: seq<string>)
    requires !a.inCode && All(ok, lines) && lines != []
    requires forall s: Asm, line: string :: !s.inCode && ok(line) ==>
               step(s, line) == Out(s.(inTable := true, rows := s.rows + rowOf(line)), [])
    ensures Fold(step, a, lines) == Out(a.(inTable := true, rows := a.rows + FlatMap(rowOf, lines)), [])
    decreases |lines|
  {
    var s := step(a, lines[0]);
    var rest := lines[1..];
    if rest == [] {
      assert FlatMap(rowOf, rest) == [];
      assert FlatMap(rowOf, lines) == rowOf(lines[0]);
      assert Fold(step, a, lines) == Out(s.state, s.out);
    } else {
      TableFold(step, ok, rowOf, s.state, rest);
      assert a.rows + rowOf(lines[0]) + FlatMap(rowOf, rest) == a.rows + FlatMap(rowOf, lines);
    }
  }

  /** Table lines set the table flag, emit nothing, and append one row per
      non-separator line. */
  lemma TableLinesAccumulate(fs: Files, mdDir: string, a: Asm, lines: seq<string>)
    requires !a.inCode
    requires All(TableLine, lines)
    requires lines != []
    ensures Run(fs, mdDir, a, lines) == Out(a.(inTable := true, rows := a.rows + FlatMap(RowOf, lines)), [])
  {
    var step := StepFn(fs, mdDir);
    forall s: Asm, line: string | !s.inCode && TableLine(line)
      ensures step(s, line) == Out(s.(inTable := true, rows := s.rows + RowOf(line)), [])
    {
      TableStep(fs, mdDir, s, line);
    }
    TableFold(step, TableLine, RowOf, a, lines);
  }

  /** A file made only of table lines with at least one row becomes one
      table whose row count is the number of non-separator lines. */
  lemma TableAtEndOfFile(fs: Files, mdDir: string, lines: seq<string>)
    requires lines != []
    requires All(TableLine, lines)
    requires FlatMap(RowOf, lines) != []
    ensures Assemble(fs, mdDir, lines) == [MakeTable(FlatMap(RowOf, lines))]
  {
    var rows := FlatMap(RowOf, lines);
    var r := Run(fs, mdDir, Init, lines);
    assert r.state.rows == rows && r.out == [] by {
      TableLinesAccumulate(fs, mdDir, Init, lines);
      assert Init.rows + rows == rows;
    }
    assert Assemble(fs, mdDir, lines) == [] + [MakeTable(rows)];
  }

  /** Blank lines do not end a table: two table lines separated by a blank
      line accumulate into the same pending table, and only the blank
      line's empty paragraph is emitted. */
  lemma BlankLineDoesNotEndTable(fs: Files, mdDir: string, a: Asm, t1: string, blank: string, t2: string)
    requires !a.inCode
    requires TableLine(t1) && TableLine(t2) && AllSpace(blank)
    ensures Run(fs, mdDir, a, [t1, blank, t2])
              == Out(a.(inTable := true, rows := a.rows + RowOf(t1) + RowOf(t2)), [EmptyPara])
  {
    var step := StepFn(fs, mdDir);
    var b := a.(inTable := true, rows := a.rows + RowOf(t1));
    var c := b.(rows := b.rows + RowOf(t2));
    assert step(a, t1) == Out(b, []) by { TableStep(fs, mdDir, a, t1); }
    assert step(b, blank) == Out(b, [EmptyPara]) by { BlankLine(fs, mdDir, b, blank); }
    assert step(b, t2) == Out(c, []) by { TableStep(fs, mdDir, b, t2); }
    ThreeSteps(step, a, t1, blank, t2);
  }

  /** Image, quote and rule lines keep the table flag, so a pending table
      stays pending across them and is emitted later. */
  lemma KeepsPendingTable(fs: Files, mdDir: string, a: Asm, line: string)
    requires !a.inCode && a.inTable && a.rows != []
    requires KeepsTable(ParseLine(line, a.inTable, a.inCode).token)
    ensures Step(fs, mdDir, a, line).state.rows == a.rows
    ensures Step(fs, mdDir, a, line).state.inTable
    ensures NoTable(Step(fs, mdDir, a, line).out)
  {
  }

  // ----------------------------------------------------------- page breaks

  /** A Markdown file in the export list: missing, or present with its
      directory and content. */
  datatype Source = Missing | Present(mdDir: string, content: string)

  /** How one present file is turned into elements, from its directory and
      content; `Export` uses `ProcessFile`. */
  type Processor = (string, string) -> seq<Element>

  function Processing(fs: Files): Processor {
    (dir, content) => ProcessFile(fs, dir, content)
  }

  /** The elements one file contributes: its content, then a page break
      unless it is the last entry of the list. */
  function FilePart(process: Processor, files: seq<Source>, i: nat): (out: seq<Element>)
    requires i < |files|
  {
    match files[i]
    case Missing => []
    case Present(dir, content) =>
      process(dir, content) + (if i < |files| - 1 then [PageBreak] else [])
  }

  /** `main`'s loop over the file list, from entry `i` on. */
  function ExportFrom(process: Processor, files: seq<Source>, i: nat): seq<Element>
    requires i <= |files|
    decreases |files| - i
  {
    if i == |files| then [] else FilePart(process, files, i) + ExportFrom(process, files, i + 1)
  }

  function Export(fs: Files, files: seq<Source>): seq<Element> {
    ExportFrom(Processing(fs), files, 0)
  }

  function CountBreaks(out: seq<Element>): nat {
    if out == [] then 0 else (if out[0].PageBreak? then 1 else 0) + CountBreaks(out[1..])
  }

  /** The number of present files among entries `i` .. `|files| - 2`. */
  function PresentBeforeLast(files: seq<Source>, i: nat): nat
    requires i <= |files|
    decreases |files| - i
  {
    if i + 1 >= |files| then 0
    else (if files[i].Present? then 1 else 0) + PresentBeforeLast(files, i + 1)
  }

  lemma {:induction false} CountBreaksAppend(xs: seq<Element>, ys: seq<Element>)
    ensures CountBreaks(xs + ys) == CountBreaks(xs) + CountBreaks(ys)
    decreases |xs|
  {
    if xs == [] {
      assert xs + ys == ys;
    } else {
      assert (xs + ys)[1..] == xs[1..] + ys;
      CountBreaksAppend(xs[1..], ys);
    }
  }

  lemma {:induction false} NoPageBreakCount(out: seq<Element>)
    requires NoPageBreak(out)
    ensures CountBreaks(out) == 0
    decreases |out|
  {
    if out != [] {
      NoPageBreakCount(out[1..]);
    }
  }

  /** The induction behind `PageBreakCount`, for any processing that emits
      no page breaks of its own. */
  lemma {:induction false} BreaksFrom(process: Processor, files: seq<Source>, i: nat)
    requires i <= |files|
    requires forall dir, content :: NoPageBreak(process(dir, content))
    ensures CountBreaks(ExportFrom(process, files, i)) == PresentBeforeLast(files, i)
    decreases |files| - i
  {
    if i < |files| {
      BreaksFrom(process, files, i + 1);
      CountBreaksAppend(FilePart(process, files, i), ExportFrom(process, files, i + 1));
      match files[i]
      case Missing =>
      case Present(dir, content) =>
        var body := process(dir, content);
        NoPageBreakCount(body);
        var tail: seq<Element> := if i < |files| - 1 then [PageBreak] else [];
        CountBreaksAppend(body, tail);
        assert CountBreaks(tail) == (if i < |files| - 1 then 1 else 0);
    }
  }

  /** There is one page break per present file that is not the last entry
      of the list, whatever the files contain. */
  lemma PageBreakCount(fs: Files, files: seq<Source>)
    ensures CountBreaks(Export(fs, files)) == PresentBeforeLast(files, 0)
  {
    BreaksFrom(Processing(fs), files, 0);
  }

  /** The induction behind `TrailingBreakWhenLastMissing`. */
  lemma {:induction false} TrailingBreakFrom(process: Processor, files: seq<Source>, i: nat)
    requires |files| >= 2 && files[|files| - 1].Missing? && files[|files| - 2].Present?
    requires i <= |files| - 2
    ensures var out := ExportFrom(process, files, i); |out| > 0 && out[|out| - 1] == PageBreak
    decreases |files| - i
  {
    var n := |files|;
    if i < n - 2 {
      TrailingBreakFrom(process, files, i + 1);
      var tail := ExportFrom(process, files, i + 1);
      assert (FilePart(process, files, i) + tail)[|FilePart(process, files, i) + tail| - 1] == tail[|tail| - 1];
    } else {
      assert ExportFrom(process, files, n) == [];
      assert ExportFrom(process, files, n - 1) == [];
      assert ExportFrom(process, files, i) == FilePart(process, files, i) + [];
    }
  }

  /** A missing last file still leaves the break after the file before it,
      so the document then ends with a page break. */
  lemma TrailingBreakWhenLastMissing(fs: Files, files: seq<Source>)
    requires |files| >= 2 && files[|files| - 1].Missing? && files[|files| - 2].Present?
    ensures var out := Export(fs, files); |out| > 0 && out[|out| - 1] == PageBreak
  {
    TrailingBreakFrom(Processing(fs), files, 0);
  }

  // ------------------------------------------------ page breaks as intended

  /** The number of present files among entries `i` on. */
  function PresentFrom(files: seq<Source>, i: nat): nat
    requires i <= |files|
    decreases |files| - i
  {
    if i == |files| then 0 else (if files[i].Present? then 1 else 0) + PresentFrom(files, i + 1)
  }

  /** The loop as its comment describes it: a page break between chapters,
      that is before every exported file but the first one, so that a
      missing entry adds no break. `started` says whether a file has been
      exported yet. */
  function ExportBetweenFrom(process: Processor, files: seq<Source>, i: nat, started: bool): seq<Element>
    requires i <= |files|
    decreases |files| - i
  {
    if i == |files| then []
    else match files[i]
      case Missing => ExportBetweenFrom(process, files, i + 1, started)
      case Present(dir, content) =>
        (if started then [PageBreak] else []) + process(dir, content) + ExportBetweenFrom(process, files, i + 1, true)
  }

  function ExportBetween(fs: Files, files: seq<Source>): seq<Element> {
    ExportBetweenFrom(Processing(fs), files, 0, false)
  }

  /** The induction behind `BetweenBreakCount`. */
  lemma {:induction false} BetweenBreaksFrom(process: Processor, files: seq<Source>, i: nat, started: bool)
    requires i <= |files|
    requires forall dir, content :: NoPageBreak(process(dir, content))
    ensures CountBreaks(ExportBetweenFrom(process, files, i, started))
              == if started || PresentFrom(files, i) == 0 then PresentFrom(files, i) else PresentFrom(files, i) - 1
    decreases |files| - i
  {
    if i < |files| {
      match files[i]
      case Missing =>
        BetweenBreaksFrom(process, files, i + 1, started);
      case Present(dir, content) =>
        BetweenBreaksFrom(process, files, i + 1, true);
        var head: seq<Element> := if started then [PageBreak] else [];
        var body := process(dir, content);
        var rest := ExportBetweenFrom(process, files, i + 1, true);
        NoPageBreakCount(body);
        CountBreaksAppend(head, body);
        CountBreaksAppend(head + body, rest);
        assert CountBreaks(head) == (if started then 1 else 0);
    }
  }

  /** Exporting `n` files, wherever the missing ones sit, puts exactly
      `n - 1` page breaks into the document. */
  lemma BetweenBreakCount(fs: Files, files: seq<Source>)
    ensures var n := PresentFrom(files, 0);
            CountBreaks(ExportBetween(fs, files)) == if n == 0 then 0 else n - 1
  {
    BetweenBreaksFrom(Processing(fs), files, 0, false);
  }

  /** Entries `i` .. `|files| - 2` hold the present files from `i` on,
      except the last entry when it is present. */
  lemma {:induction false} BeforeLastFrom(files: seq<Source>, i: nat)
    requires i < |files|
    ensures PresentBeforeLast(files, i) + (if files[|files| - 1].Present? then 1 else 0) == PresentFrom(files, i)
    decreases |files| - i
  {
    if i + 1 < |files| {
      BeforeLastFrom(files, i + 1);
    } else {
      assert PresentFrom(files, i + 1) == 0;
    }
  }

  /** The loop as written puts one page break more into the document than
      the intended one exactly when the last entry of the list is missing
      and some file is present: that break ends the document. */
  lemma ExtraBreakWhenLastMissing(fs: Files, files: seq<Source>)
    requires files != [] && PresentFrom(files, 0) > 0
    ensures CountBreaks(Export(fs, files))
              == CountBreaks(ExportBetween(fs, files)) + (if files[|files| - 1].Missing? then 1 else 0)
  {
    PageBreakCount(fs, files);
    BetweenBreakCount(fs, files);
    BeforeLastFrom(files, 0);
  }

  // ------------------------------------------ a table before a code block

  /** No table rows are pending inside a code block. */
  predicate TableClosedInCode(a: Asm) {
    a.inCode ==> a.rows == []
  }

  /** An opening fence outside code sets the code flag and emits nothing. */
  lemma OpenFenceStep(fs: Files, mdDir: string, a: Asm, open: string)
    requires !a.inCode && IsFenceLine(open)
    ensures Step(fs, mdDir, a, open) == Out(a.(inCode := true), [])
  {
  }

  /** A line that ends a pending table emits the table, an empty paragraph
      and the line's own elements. */
  lemma FlushStep(fs: Files, mdDir: string, a: Asm, line: string, t: Token)
    requires !a.inCode && a.inTable && a.rows != []
    requires ParseLine(line, true, false).token == t && ClearsTable(t)
    ensures Step(fs, mdDir, a, line)
              == Out(Asm(false, false, [], a.code), [MakeTable(a.rows), EmptyPara] + Render(fs, mdDir, t))
  {
  }

  /** A fenced code block with one body line emits one code paragraph and
      leaves the table state as it was: pending rows stay pending. */
  lemma CodeBlockKeepsTable(fs: Files, mdDir: string, a: Asm, open: string, body: string, close: string)
    requires Valid(a) && !a.inCode
    requires IsFenceLine(open) && CodeBody(body) && IsFenceLine(close)
    ensures Run(fs, mdDir, a, [open]).state == a.(inCode := true)
    ensures Run(fs, mdDir, a, [open, body, close]) == Out(a, [CodePara([RStrip(body) + "\n"])])
  {
    var step := StepFn(fs, mdDir);
    assert a.code == [];
    var s1 := step(a, open);
    assert s1 == Out(a.(inCode := true), []) by { OpenFenceStep(fs, mdDir, a, open); }
    var s2 := step(s1.state, body);
    assert s2 == Out(a.(inCode := true, code := [RStrip(body)]), []) by {
      CodeLineStep(fs, mdDir, s1.state, body);
      assert a.code + [RStrip(body)] == [RStrip(body)];
    }
    var s3 := step(s2.state, close);
    assert s3 == Out(a, [CodePara([RStrip(body) + "\n"])]) by {
      FenceCloses(fs, mdDir, s2.state, close);
      assert CodeRuns([RStrip(body)]) == [RStrip(body) + "\n"];
    }
    assert Run(fs, mdDir, a, [open]).state == s1.state by { RunCons(fs, mdDir, a, [open]); }
    ThreeSteps(step, a, open, body, close);
  }

  /** The fence and code branches of the loop skip the table flush, so a
      table directly followed by a fenced code block stays pending through
      the block. The next line that ends the table emits it after the code:
      the document holds the two in reverse order. */
  lemma CodeBlockOvertakesTable(fs: Files, mdDir: string, a: Asm, open: string, body: string, close: string,
                                line: string, t: Token)
    requires Valid(a) && !a.inCode && a.rows != []
    requires IsFenceLine(open) && CodeBody(body) && IsFenceLine(close)
    requires ParseLine(line, true, false).token == t && ClearsTable(t)
    ensures !TableClosedInCode(Run(fs, mdDir, a, [open]).state)
    ensures Run(fs, mdDir, a, [open, body, close, line]).out
              == [CodePara([RStrip(body) + "\n"]), MakeTable(a.rows), EmptyPara] + Render(fs, mdDir, t)
  {
    CodeBlockKeepsTable(fs, mdDir, a, open, body, close);
    var last := Run(fs, mdDir, a, [line]);
    assert last.out == [MakeTable(a.rows), EmptyPara] + Render(fs, mdDir, t) by {
      RunCons(fs, mdDir, a, [line]);
      FlushStep(fs, mdDir, a, line, t);
    }
    assert Run(fs, mdDir, a, [open, body, close, line]).out == [CodePara([RStrip(body) + "\n"])] + last.out by {
      ThreeThenOne(open, body, close, line);
      RunAppend(fs, mdDir, a, [open, body, close], [line]);
    }
    ConsThree(CodePara([RStrip(body) + "\n"]), MakeTable(a.rows), EmptyPara, Render(fs, mdDir, t));
  }

  lemma ThreeThenOne<T>(w: T, x: T, y: T, z: T)
    ensures [w, x, y, z] == [w, x, y] + [z]
  {
  }

  lemma ConsThree<T>(x: T, y: T, z: T, tail: seq<T>)
    ensures [x] + ([y, z] + tail) == [x, y, z] + tail
  {
  }

  /** The loop body as the order of the document needs it: an opening
      fence also ends a pending table, as every other block does. Every
      other line is handled as before. */
  function StepFenceFlushes(fs: Files, mdDir: string, a: Asm, line: string): (r: Progress)
    ensures Valid(a) && TableClosedInCode(a) ==> Valid(r.state) && TableClosedInCode(r.state)
    ensures NoPageBreak(r.out)
  {
    var p := Parse(a, line);
    if p.token.FenceToggle? && !a.inCode && a.rows != [] then
      Out(Asm(false, true, [], a.code), [MakeTable(a.rows), EmptyPara])
    else
      Step(fs, mdDir, a, line)
  }

  function FenceFlushFn(fs: Files, mdDir: string): (Asm, string) -> Progress {
    (a, line) => StepFenceFlushes(fs, mdDir, a, line)
  }

  /** The corrected loop over a sequence of lines. */
  function RunFenceFlushes(fs: Files, mdDir: string, a: Asm, lines: seq<string>): (r: Progress)
    ensures Valid(a) && TableClosedInCode(a) ==> Valid(r.state) && TableClosedInCode(r.state)
  {
    FenceFlushesKeep(fs, mdDir, a, lines);
    Fold(FenceFlushFn(fs, mdDir), a, lines)
  }

  /** The corrected step keeps tables out of code blocks on every line. */
  lemma FenceFlushesKeep(fs: Files, mdDir: string, a: Asm, lines: seq<string>)
    ensures Valid(a) && TableClosedInCode(a)
            ==> var r := Fold(FenceFlushFn(fs, mdDir), a, lines); Valid(r.state) && TableClosedInCode(r.state)
  {
    if Valid(a) && TableClosedInCode(a) {
      FoldKeeps(FenceFlushFn(fs, mdDir), (s: Asm) => Valid(s) && TableClosedInCode(s), a, lines);
    }
  }

  /** With the corrected step, a pending table is emitted when the code
      block opens, before the code paragraph, and nothing stays pending. */
  lemma FenceFlushesCodeBlock(fs: Files, mdDir: string, a: Asm, open: string, body: string, close: string)
    requires Valid(a) && !a.inCode && a.rows != []
    requires IsFenceLine(open) && CodeBody(body) && IsFenceLine(close)
    ensures RunFenceFlushes(fs, mdDir, a, [open, body, close])
              == Out(Asm(false, false, [], []), [MakeTable(a.rows), EmptyPara, CodePara([RStrip(body) + "\n"])])
  {
    var step := FenceFlushFn(fs, mdDir);
    assert a.code == [];
    var s1 := step(a, open);
    assert s1 == Out(Asm(false, true, [], []), [MakeTable(a.rows), EmptyPara]) by {
      FenceFlushesOpen(fs, mdDir, a, open);
    }
    var s2 := step(s1.state, body);
    assert s2 == Out(Asm(false, true, [], [RStrip(body)]), []) by {
      CodeLineStep(fs, mdDir, s1.state, body);
      assert [] + [RStrip(body)] == [RStrip(body)];
    }
    var s3 := step(s2.state, close);
    assert s3 == Out(Asm(false, false, [], []), [CodePara([RStrip(body) + "\n"])]) by {
      FenceCloses(fs, mdDir, s2.state, close);
      assert CodeRuns([RStrip(body)]) == [RStrip(body) + "\n"];
    }
    ThreeSteps(step, a, open, body, close);
  }

  /** With the corrected step, the same lines give the table first, then
      the code, in the order of the Markdown. */
  lemma TableBeforeCodeBlock(fs: Files, mdDir: string, a: Asm, open: string, body: string, close: string,
                             line: string, t: Token)
    requires Valid(a) && !a.inCode && a.rows != []
    requires IsFenceLine(open) && CodeBody(body) && IsFenceLine(close)
    requires ParseLine(line, true, false).token == t && ClearsTable(t)
    ensures RunFenceFlushes(fs, mdDir, a, [open, body, close, line]).out
              == [MakeTable(a.rows), EmptyPara, CodePara([RStrip(body) + "\n"])] + Render(fs, mdDir, t)
  {
    var step := FenceFlushFn(fs, mdDir);
    FenceFlushesCodeBlock(fs, mdDir, a, open, body, close);
    var mid := Asm(false, false, [], []);
    assert Fold(step, mid, [line]).out == Render(fs, mdDir, t) by {
      OutsideTableStep(fs, mdDir, mid, line, t);
      assert [line][1..] == [];
    }
    ThreeThenOne(open, body, close, line);
    FoldAppend(step, a, [open, body, close], [line]);
  }

  /** The corrected step on an opening fence with a pending table: the
      table and an empty paragraph are emitted before the code block opens. */
  lemma FenceFlushesOpen(fs: Files, mdDir: string, a: Asm, open: string)
    requires !a.inCode && a.rows != [] && IsFenceLine(open)
    ensures StepFenceFlushes(fs, mdDir, a, open) == Out(Asm(false, true, [], a.code), [MakeTable(a.rows), EmptyPara])
  {
  }

  /** Outside a table, a line that would end one renders on its own. */
  lemma OutsideTableStep(fs: Files, mdDir: string, a: Asm, line: string, t: Token)
    requires !a.inCode && !a.inTable
    requires ParseLine(line, true, false).token == t && ClearsTable(t)
    ensures StepFenceFlushes(fs, mdDir, a, line).out == Render(fs, mdDir, t)
  {
  }
}
