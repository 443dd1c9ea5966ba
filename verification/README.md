# Manuscript pipeline, modelled in Dafny

The book manuscript moves between Word and Markdown through three Python
scripts. This project models their text-processing core as pure Dafny
functions and proves what they do:

- `scripts/docx_to_md.py` turns the paragraphs of a Word document into Markdown.
  - It joins the text nodes of a paragraph (`extract_text_from_paragraph`).
  - It renders paragraphs as Markdown, with `#`, `##` or `###` for outline levels 0 to 2 (`paragraphs_to_markdown`).
  - It cuts the document into a 前言 (preface) chunk and one chunk per top-level 第N章 (chapter N) heading (`split_by_chapters`).
  - It names the output files `NN-<title>.md` in order of first appearance (the `name_map` loop of `main`).
- `scripts/split_pandoc_md.py` cuts a pandoc-made Markdown file into chapter files.
  - The cut points are bold `**前言**` and `**第N章 …**` marker lines, and merged `**前言+第…` lines are dropped (the chunk loop of `main`).
  - It rewrites bold-only lines as headings: the first one becomes `#` and the rest become `##` (`normalize_headings`).
- `scripts/export_to_word.py` assembles the chapter files into one Word document.
  - It classifies each line into a token (`parse_markdown_line`).
  - It splits inline text into bold, italic, code and formula runs (`add_formatted_text`).
  - It folds the tokens into document elements, collecting tables and code blocks (`process_markdown_file`).
  - It puts page breaks between files (`main`).

Modules:

| module | file | models |
|---|---|---|
| `Strings` | strings.dfy | Python's `strip`, `split`, `join`, `zfill` and `%02d`, on ASCII whitespace and digits |
| `Folds` | fold.dfy | a left fold with output, used for every loop that emits as it goes |
| `ChapterMarks` | chapter_marks.dfy | scanners for the 前言 and 第N章 patterns that both splitters share |
| `MarkdownLine`, `MarkdownLineFacts` | markdown_line.dfy | `parse_markdown_line` and its classification facts |
| `InlineFormat` | inline_format.dfy | `re.split` on the inline pattern, and the classification of the parts |
| `WordExport` | word_export.dfy | `process_markdown_file` as a fold over lines, and the file loop of `main` |
| `DocxToMd` | docx_to_md.dfy | text extraction, Markdown rendering, chapter splitting, file naming |
| `SplitPandoc` | split_pandoc.dfy | heading normalisation, the chunk loop, the files written |
| `HeadingRoundTrip` | heading_round_trip.dfy | a heading written by `docx_to_md.py` is read back as the same heading by `export_to_word.py` |

Each regular expression with more than one part is modelled as a hand-written scanner, with a predicate or a written-out form that describes what the pattern accepts. A lemma proves the two agree in both directions. These are:

- the line patterns of `parse_markdown_line`: `MarkdownLine.MatchHeadingIff`, `MarkdownLine.MatchImageIff`, `MarkdownLine.MatchBulletIff` and `MarkdownLine.MatchNumberedIff`;
- the chapter pattern both splitters share: `ChapterMarks.ChapterAtIff`;
- the patterns of `split_by_chapters`: `DocxToMd.PrefaceIff`, `DocxToMd.CompoundIff` and `DocxToMd.MatchChapterIff`;
- the patterns of the pandoc splitter: `SplitPandoc.HeadingWritten`, `SplitPandoc.PrefaceLineIff`, `SplitPandoc.CompoundLineIff` and `SplitPandoc.ChapterLineIff`.

The single-class patterns (the table separator, the horizontal rule) are written directly as predicates.

The Word document is modelled as a sequence of `WordExport.Element`s: headings, paragraphs with their inline runs, pictures, captions, tables, code paragraphs, empty paragraphs and page breaks. The filesystem is a `WordExport.Files` value: an existence test and path functions, all left uninterpreted.

## Model

| member | source | states |
|---|---|---|
| Strings.Strip | scripts/export_to_word.py:43 | the stripped string has no whitespace at either end and is empty exactly when the input is all whitespace; a string with no whitespace at its ends is left unchanged |
| Strings.StripIff | scripts/export_to_word.py:43 | `strip` gives exactly one string: the one with no whitespace at either end that the input holds with only whitespace before and after it |
| Strings.SplitJoin | scripts/split_pandoc_md.py:70-71 | lines without newlines, joined with newlines and split again, come back as the same lines, so `normalize_headings` sees exactly the chunk's lines |
| Strings.JoinSplit | scripts/split_pandoc_md.py:11-25 | splitting a text on a character and joining the pieces back with it restores the text, so the split and join in `normalize_headings` lose nothing |
| Strings.Pad2RoundTrip | scripts/docx_to_md.py:133 | `%02d` of a number reads back as that number |
| Strings.Pad2Order | scripts/docx_to_md.py:133 | a larger ordinal gives a larger two-digit prefix |
| Strings.Pad2Injective | scripts/docx_to_md.py:133 | different ordinals give different prefixes, so file names do not collide |
| Strings.LeadingZerosDoNotCount | scripts/docx_to_md.py:100 | `zfill(2)` keeps the value of the chapter number |
| ChapterMarks.ChapterAtIff | scripts/docx_to_md.py:96 | the `第\s*(\d+)\s*章` scanner finds a match exactly where the text has that shape, and reports where the digits are |
| ChapterMarks.ChapterWritten | scripts/docx_to_md.py:96 | `第` + digits + `章` is matched, and the captured number is those digits |
| MarkdownLine.ParseLine | scripts/export_to_word.py:41-100 | a line is blank exactly when it is all whitespace; the code flag flips exactly on a fence; inside a code block only blank, fence and right-stripped code lines occur; table rows set the table flag; headings, bullets, numbered items and paragraphs clear it; images, quotes and rules keep it |
| MarkdownLine.MatchHeadingIff | scripts/export_to_word.py:58-63 | `^(#{1,6})\s+(.+)$` accepts exactly 1 to 6 hashes, whitespace, and a non-empty rest, and reports the hash count and the text |
| MarkdownLine.MatchImageIff | scripts/export_to_word.py:66-70 | `!\[([^\]]*)\]\(([^)]+)\)` matches exactly the lines starting `![alt](path)` with no `]` in alt, and a non-empty path with no `)` |
| MarkdownLine.MatchBulletIff | scripts/export_to_word.py:81-83 | `^[\*\-]\s+` matches exactly the lines made of `*` or `-`, a whitespace run, and a text that does not start with whitespace; `re.sub` leaves that text |
| MarkdownLine.MatchNumberedIff | scripts/export_to_word.py:86-88 | `^\d+\.\s+` matches exactly the lines made of digits, a dot, a whitespace run, and a text that does not start with whitespace; `re.sub` leaves that text |
| MarkdownLine.TableCellsShape | scripts/export_to_word.py:77 | a table row is the pipe-joined raw cells between a leading and a trailing pipe, and its cells are those pieces stripped |
| MarkdownLineFacts.ParseHeadingIff | scripts/export_to_word.py:58-63 | outside code, a line parses as a heading of level n with text t exactly when its stripped form has the heading shape for n and t |
| MarkdownLineFacts.ParseImageIff | scripts/export_to_word.py:58-70 | outside code, a line is the image alt, path exactly when the blank, fence and heading rules do not apply and its stripped form starts with `![alt](path)`; the table flag is kept; an image line is never taken by an earlier rule |
| MarkdownLineFacts.ParseBulletIff | scripts/export_to_word.py:58-83 | outside code, a line is a bullet item exactly when the rules before it (blank, fence, heading, image, table) do not apply and its stripped form has the bullet shape; the table flag is cleared; a bullet line is never taken by an earlier rule |
| MarkdownLineFacts.ParseNumberedIff | scripts/export_to_word.py:58-88 | outside code, a line is a numbered item exactly when the rules before it, up to the bullet rule, do not apply and its stripped form has the numbered shape; the table flag is cleared; a numbered line is never taken by an earlier rule |
| MarkdownLineFacts.ParseQuoteIff | scripts/export_to_word.py:58-93 | outside code, a line is a quote exactly when the rules before it, up to the numbered rule, do not apply and its stripped form starts with `>`; the quote is the rest, stripped; the table flag is kept; a `>` line is never taken by an earlier rule |
| MarkdownLineFacts.ParseRuleIff | scripts/export_to_word.py:58-97 | outside code, a line is a horizontal rule exactly when the rules before it, up to the quote rule, do not apply and its stripped form is three or more of `-`, `*`, `_`; the table flag is kept; such a line is never taken by an earlier rule |
| MarkdownLineFacts.ParseParagraphIff | scripts/export_to_word.py:58-100 | outside code, a line is a paragraph exactly when no other rule applies, and the paragraph holds the stripped line; the table flag is cleared |
| MarkdownLineFacts.TableLineClassified | scripts/export_to_word.py:73-78 | a line enclosed in pipes is a separator exactly when it matches the separator pattern, and a row of its stripped cells otherwise; the table flag is set either way |
| MarkdownLineFacts.HashLineFallsThrough | scripts/export_to_word.py:58-100 | a `#` line that is not a heading falls through every later rule and becomes a paragraph that clears the table flag |
| MarkdownLineFacts.SevenHashesNoHeading | scripts/export_to_word.py:59 | seven or more hashes never make a heading |
| InlineFormat.PairAtComplete | scripts/export_to_word.py:106 | the scanner for one delimiter alternative finds every match of it, with its exact length |
| InlineFormat.SplitPartsConcat | scripts/export_to_word.py:106-107 | the parts of `re.split` concatenate back to the text, so no character is lost |
| InlineFormat.MatchedPartsAreRuns | scripts/export_to_word.py:106-133 | every captured part is a delimiter, a non-empty inner text, and the same delimiter; it renders as a run of that alternative's format holding the inner text |
| InlineFormat.ClassifyDelimited | scripts/export_to_word.py:112-133 | bold, italic, code, display math and inline math parts become runs of their format with the delimiters removed |
| InlineFormat.EmptyPartSkipped | scripts/export_to_word.py:109-111 | empty parts add no run |
| InlineFormat.NoPairOneRun | scripts/export_to_word.py:107-136 | text with no delimited pair is one part, classified by its ends alone, so a lone `*` gives an empty italic run |
| InlineFormat.PlainTextOneRun | scripts/export_to_word.py:134-136 | text without `*`, `` ` `` or `$` is a single plain run, or none when empty |
| WordExport.HeadingStyle | scripts/export_to_word.py:206-209 | level 1 maps to the title style 0; levels 2 to 4 map to themselves; deeper levels are capped at 4 |
| WordExport.HeadingSize | scripts/export_to_word.py:212 | a heading's runs are 14pt at level 1, 12pt at level 2, 10pt at level 3 and 11pt at level 4 and deeper |
| WordExport.HeadingSizeOrder | scripts/export_to_word.py:212 | sizes fall from level 1 to level 3; levels 4 and deeper share 11pt, which is larger than level 3's 10pt |
| WordExport.ImageElements | scripts/export_to_word.py:214-233 | the picture comes from the images directory when the file is there, else from beside the Markdown file; a caption follows when alt text is non-empty; a `[图片: path]` placeholder appears exactly when neither file exists |
| WordExport.MakeTable | scripts/export_to_word.py:182-192 | the grid has one row per collected row and as many columns as the first row; longer rows are cut and shorter rows padded with empty cells |
| WordExport.TableCells | scripts/export_to_word.py:186-192 | each grid cell is the row's own text while the row has one and empty otherwise; the header row is kept whole |
| WordExport.CodeRuns | scripts/export_to_word.py:163-166 | a code paragraph has one run per collected line, that line followed by a newline |
| WordExport.Render | scripts/export_to_word.py:199-263 | a token renders to no table and no page break; table rows and separators render to nothing and every other token to something |
| WordExport.Advance | scripts/export_to_word.py:157-263 | one loop iteration keeps the loop state valid; when a pending table is closed it emits the table and then an empty paragraph first; otherwise it emits no table |
| WordExport.BlankLine | scripts/export_to_word.py:199-202 | a whitespace-only line, even inside a code block, adds one empty paragraph and changes nothing else |
| WordExport.FenceCloses | scripts/export_to_word.py:158-170 | a closing fence emits one code paragraph with the pending lines, only if there are any, and empties the pending code |
| WordExport.CodeBodyCollected | scripts/export_to_word.py:172-177 | inside a code block, body lines are collected right-stripped and in order, and nothing is emitted |
| WordExport.UnclosedCodeDropped | scripts/export_to_word.py:267-278 | a code block still open at the end of the file is dropped: a fence plus body lines produces no element |
| WordExport.TableLinesAccumulate | scripts/export_to_word.py:235-239 | table lines emit nothing and append one row per non-separator line |
| WordExport.TableAtEndOfFile | scripts/export_to_word.py:267-278 | a file of table lines ends in exactly one table holding the non-separator rows, with no empty paragraph after it |
| WordExport.BlankLineDoesNotEndTable | scripts/export_to_word.py:180-202 | a blank line between two table lines keeps one table: its empty paragraph is emitted and the rows keep accumulating |
| WordExport.KeepsPendingTable | scripts/export_to_word.py:180-197 | an image, quote or rule line keeps a pending table pending and emits no table |
| WordExport.CodeBlockKeepsTable | scripts/export_to_word.py:158-177 | a fenced code block emits one code paragraph and leaves the table flag and the pending rows as they were; inside the block, rows are still pending |
| WordExport.CodeBlockOvertakesTable | scripts/export_to_word.py:158-194 | a table directly followed by a fenced code block is emitted after the code paragraph, when the next heading, list item or paragraph ends it: the document reverses the order of the Markdown |
| WordExport.StepFenceFlushes | scripts/export_to_word.py:158-194 | the corrected loop body, where an opening fence also ends a pending table; it keeps the state valid and no rows pending inside a code block |
| WordExport.RunFenceFlushes | scripts/export_to_word.py:157-263 | the corrected loop keeps the state valid, with no table rows pending inside a code block |
| WordExport.FenceFlushesCodeBlock | scripts/export_to_word.py:158-194 | in the corrected loop, a pending table is emitted, then an empty paragraph, then the code paragraph, and nothing stays pending |
| WordExport.TableBeforeCodeBlock | scripts/export_to_word.py:158-194 | in the corrected loop, the same lines give the table, an empty paragraph, the code, then the next block, in the order of the Markdown |
| WordExport.PageBreakCount | scripts/export_to_word.py:309-319 | the document holds one page break per existing file that is not the last entry of the list, whatever the files contain |
| WordExport.TrailingBreakWhenLastMissing | scripts/export_to_word.py:315-317 | when the last listed file is missing and the one before exists, the document ends with a page break |
| WordExport.BetweenBreakCount | scripts/export_to_word.py:315-317 | the corrected loop puts n - 1 page breaks between n exported files, wherever the missing ones sit |
| WordExport.ExtraBreakWhenLastMissing | scripts/export_to_word.py:309-319 | the loop as written has exactly one page break more than the corrected one when the last entry is missing, and the same number otherwise |
| DocxToMd.ExtractText | scripts/docx_to_md.py:17-25 | the extracted text is the joined texts and tails, with newlines turned into spaces, less only whitespace at both ends; it has no newline and no outer whitespace; it is empty exactly when the joined text and tails are all whitespace |
| DocxToMd.BlankTailIgnored | scripts/docx_to_md.py:23-24 | replacing a whitespace-only tail with another whitespace-only tail does not change the extracted text |
| DocxToMd.CleanTextKept | scripts/docx_to_md.py:17-25 | one text node holding stripped text without newlines is extracted unchanged |
| DocxToMd.HeadingMarker | scripts/docx_to_md.py:64-71 | outline levels 0, 1 and 2 get one, two or three hashes and a space; any other level gets no marker |
| DocxToMd.ParagraphLine | scripts/docx_to_md.py:60-71 | a line is empty exactly when its paragraph's text is empty, and it gains no newline |
| DocxToMd.OneLinePerParagraph | scripts/docx_to_md.py:57-72 | split on newlines, the Markdown has each paragraph's line at an even position and an empty line between consecutive paragraphs |
| DocxToMd.PrefaceIff | scripts/docx_to_md.py:89 | `^前言\s*$` matches exactly 前言 followed by whitespace |
| DocxToMd.CompoundIff | scripts/docx_to_md.py:86 | `^前言\s*\+\s*第\s*\d+\s*章` matches exactly the texts that start with 前言, whitespace, `+`, whitespace and a chapter shape |
| DocxToMd.MatchChapterIff | scripts/docx_to_md.py:96 | `^第\s*(\d+)\s*章\s*(.*)$` matches exactly when the text starts with a chapter shape and, past the whitespace after 章, has a newline at most as its last character; the match has the same parts |
| DocxToMd.CompoundIsNoBoundary | scripts/docx_to_md.py:86-97 | a merged 前言+第N章 heading is never a chunk boundary |
| DocxToMd.PrefaceStarts | scripts/docx_to_md.py:89-94 | a 前言 paragraph, at any level, closes the open chunk and opens a 前言 chunk holding itself |
| DocxToMd.ChapterStarts | scripts/docx_to_md.py:96-103 | a top-level 第N章 paragraph closes the open chunk and opens a chunk titled 第NN章, with N zero-padded to two digits |
| DocxToMd.ChapterBelowTopIsBody | scripts/docx_to_md.py:96-104 | a 第N章 paragraph below outline level 0 is body text of the open chunk |
| DocxToMd.ChunksPartition | scripts/docx_to_md.py:80-108 | the chunks' paragraphs, in order, are all the input paragraphs except the merged headings before the first kept paragraph |
| DocxToMd.NoChunksIff | scripts/docx_to_md.py:106-108 | there is no chunk exactly when every paragraph is a leading merged heading |
| DocxToMd.ChunksShaped | scripts/docx_to_md.py:84-107 | every chunk is non-empty and titled after its first paragraph; only its first paragraph is a boundary; every chunk but the first starts at a boundary |
| DocxToMd.NameOrdinals | scripts/docx_to_md.py:130-133 | every title is mapped; 前言 maps to 00-前言; the k-th other distinct title, by first appearance, maps to its two-digit k, a hyphen and the title |
| DocxToMd.OrdinalsIncrease | scripts/docx_to_md.py:130-133 | a title that appears earlier gets a smaller file-name number |
| DocxToMd.FirstChapterGetsOne | scripts/docx_to_md.py:130-133 | the ordinal follows appearance, not the chapter number: a first chapter 第03章 is named 01-第03章 |
| DocxToMd.Outputs | scripts/docx_to_md.py:130-139 | one file is written per chunk, in chunk order; every chunk title is in the name map, so the `.get` fallback to the bare title never applies; file k is the mapped name plus `.md` and holds the Markdown of chunk k's paragraphs |
| DocxToMd.OutputNames | scripts/docx_to_md.py:129-139 | file k is named `NN-title.md`, where NN is the title's place in the order 前言 first (00), then the other titles by first appearance, as the naming comment promises |
| SplitPandoc.HeadingWritten | scripts/split_pandoc_md.py:15 | `^\*\*(.+)\*\*\s*$` matches `**x**` plus trailing whitespace exactly when x is non-empty and has no newline, and captures x |
| SplitPandoc.HeadingInnerShape | scripts/split_pandoc_md.py:15-17 | a matched line is `**`, the capture, `**` and trailing whitespace |
| SplitPandoc.NormalizeAt | scripts/split_pandoc_md.py:13-24 | each output line is its input line unless that line is bold-only; then it is `# ` plus the stripped title if no bold-only line came before it and the flag asks for it, and `## ` plus the stripped title otherwise |
| SplitPandoc.NothingToNormalize | scripts/split_pandoc_md.py:14-24 | text without bold-only lines is left unchanged |
| SplitPandoc.NormalizedLines | scripts/split_pandoc_md.py:14-24 | no output line is bold-only, and no newline is introduced |
| SplitPandoc.NormalizeHeadingsIdempotent | scripts/split_pandoc_md.py:9-25 | normalising normalised text changes nothing, whatever the flag |
| SplitPandoc.NormalizedText | scripts/split_pandoc_md.py:11-25 | the normalised text has as many lines as the input, and they are the normalised input lines |
| SplitPandoc.PatternsDisjoint | scripts/split_pandoc_md.py:43-53 | no line is both a merged heading and a marker, or both a preface marker and a chapter marker |
| SplitPandoc.PrefaceMarkerTitle | scripts/split_pandoc_md.py:46-49 | `**前言**` with any whitespace opens the chunk titled 00-前言 |
| SplitPandoc.CompoundLineWritten | scripts/split_pandoc_md.py:43 | `**前言` + `+` + `第…` with any whitespace is a merged heading |
| SplitPandoc.PrefaceLineIff | scripts/split_pandoc_md.py:46 | `^\*\*前言\s*\*\*\s*$` matches exactly `**前言`, whitespace, `**` and whitespace |
| SplitPandoc.CompoundLineIff | scripts/split_pandoc_md.py:43 | `^\*\*前言\s*\+\s*第` matches exactly the lines that start with `**前言`, whitespace, `+`, whitespace and `第` |
| SplitPandoc.ChapterLineIff | scripts/split_pandoc_md.py:53-57 | `^\*\*第\s*(\d+)\s*章\s*(.*)\*\*\s*$` matches exactly `**第`, whitespace, digits, whitespace, `章`, whitespace, a text without newline, `**` and whitespace, and captures the digits |
| SplitPandoc.ChapterMarkerTitle | scripts/split_pandoc_md.py:53-58 | `**第N章…**` opens the chunk titled NN-第NN章, with N zero-padded to two digits |
| SplitPandoc.ChapterNumberKept | scripts/split_pandoc_md.py:57-58 | the padded number has at least two digits and the same value as N |
| SplitPandoc.MarkerIsHeading | scripts/split_pandoc_md.py:46-53 | every marker line is also a bold-only line, so it becomes the chunk's `#` heading |
| SplitPandoc.SplitPartition | scripts/split_pandoc_md.py:38-66 | the chunks' lines, in order, are the input lines from the first marker on, without merged headings |
| SplitPandoc.PiecesShaped | scripts/split_pandoc_md.py:41-66 | every chunk starts with its marker line, is titled after it, and holds no other marker and no merged heading |
| SplitPandoc.NoMarkerNoPieces | scripts/split_pandoc_md.py:62-66 | there is no chunk exactly when no line is a marker |
| SplitPandoc.KeptWithin | scripts/split_pandoc_md.py:62-63 | every kept line is an input line |
| SplitPandoc.FileOpensWithTitle | scripts/split_pandoc_md.py:69-73 | each file is named after its chunk's title, has one line per chunk line, and starts with `# ` plus the marker's stripped title |
| HeadingRoundTrip.HeadingSurvivesExport | scripts/docx_to_md.py:64-69 | a heading written at outline level 0, 1 or 2 is parsed back by the exporter as a heading of level 1, 2 or 3 with the same text |
| HeadingRoundTrip.ExtractedHeadingSurvives | scripts/docx_to_md.py:17-25 | a heading paragraph at outline level 0, 1 or 2 whose text is any non-empty extracted text survives the round trip to the exporter unchanged |

## Left out

- `docx_to_paragraphs` and `get_paragraph_style` (scripts/docx_to_md.py:27-55) read a zip archive and XML. The model takes the paragraphs, as text nodes with tails, and their outline levels as input.
- Rendering in python-docx is not modelled: fonts, styles, margins, alignment, indents and the `set_chinese_font` calls. Elements carry their text, level and runs, not their formatting.
- The filesystem, file reading and writing, `print` and `sys.exit` are left out. Paths and existence checks are parameters of `WordExport.Files`; file contents are inputs; the written files are the outputs of `DocxToMd.Outputs` and `SplitPandoc.Files`.
- `main` of scripts/docx_to_md.py looks for the .docx file (lines 111-124). That is filesystem search, so it is left out.
- `DocxToMd.Outputs` lists the files in the order they are written. A repeated chapter title names the same file twice; on disk the later chunk replaces the earlier one. The model lists both writes and does not model the overwrite.
- File contents are read in text mode (scripts/export_to_word.py:141, scripts/split_pandoc_md.py:33), which turns `\r\n` and `\r` into `\n`. `WordExport.ProcessFile` and `SplitPandoc.Files` take text after that translation.
- `SplitPandoc.Files` lists one write per chunk. Two markers can give the same title, for example `**第1章**` and `**第01章**` both give `01-第01章`. The model then lists that file twice; on disk the later write replaces the earlier one.
- The other scripts of the repository are outside this core: image generation, model listing and placeholder creation.
- Strings.Strip: whitespace and digits are ASCII only (`\s` and `\d` are Unicode-aware in Python), so full-width spaces and non-ASCII digits are not treated as whitespace or digits.
- MarkdownLine.TableCellsShape: a line that is a single `|` yields zero cells and a zero-column table. This lemma needs at least two characters; the zero-column case is handled by `MarkdownLine.ParseLine` itself.

Behaviour the model follows as the code is written:

- A table stays open across blank lines, images, quotes and rules. It closes on a heading, bullet, numbered item or paragraph, or at the end of the file.
- A table also stays open across a fenced code block, because the fence and code branches of the loop skip the table flush. The table is then emitted after the code, and table lines after the block join the same table.
- A blank line inside a code block adds an empty paragraph to the document and no line to the code block.
- A code block left open at the end of a file is dropped.
- A zero-column table is not suppressed.
- A horizontal rule may mix `-`, `*` and `_`.
- A lone `*` becomes an empty italic run, and formulas render like italic text.
- Level-3 headings are 10pt, smaller than the 11pt of level 4 and deeper.
- The pandoc splitter drops every line before the first marker. It drops merged `**前言+第…` headings anywhere, not only at the start.
- `split_by_chapters` treats a 第N章 paragraph below outline level 0 as body text.
- The pandoc splitter takes the file-name number from the chapter number. The .docx splitter numbers chapters in order of first appearance.

## Findings

| source | as written | input that shows it | evidently intended | confidence | as-written member | corrected member |
|---|---|---|---|---|---|---|
| scripts/export_to_word.py:158-194 | the fence and code-line branches `continue` before the table flush, so a table directly followed by a fenced code block stays pending through the block | a table row, then a fenced block with one code line, then a paragraph: the document holds the code paragraph first, then the table, then the paragraph | a fence ends a pending table as every other block does, so the table comes before the code, in the order of the Markdown | medium, not executed | WordExport.CodeBlockOvertakesTable | WordExport.TableBeforeCodeBlock |
| scripts/export_to_word.py:315-317 | a page break follows every existing file that is not the last entry of the list | a list whose last file (04-第04章.md) is missing while 03-第03章.md exists: the document ends with a page break, so it ends on a blank page | breaks only between exported chapters, none after the last one exported, as the comment on line 315 says | medium, not executed | WordExport.TrailingBreakWhenLastMissing | WordExport.BetweenBreakCount |
