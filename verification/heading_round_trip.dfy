/** The two converters meet: a heading paragraph that the Word-to-Markdown
    converter writes out is read back as a heading of the matching level
    by the Markdown-to-Word exporter's line classifier.
 */
module HeadingRoundTrip {
  import opened Strings
  import opened MarkdownLine
  import opened MarkdownLineFacts
  import DocxToMd

  /** The line written for a paragraph at outline level 0, 1 or 2 with a
      clean one-line text is its marker followed by the text: level + 1
      hashes, one space, the text. */
  lemma HeadingLineShape(p: DocxToMd.Paragraph)
    requires p.text != "" && Trimmed(p.text) && '\n' !in p.text
    requires p.level.Some? && 0 <= p.level.value <= 2
    ensures var line := DocxToMd.ParagraphLine(p);
            && Strip(line) == line
            && HeadingShape(line, p.level.value + 1, p.text)
  {
    var marker := DocxToMd.HeadingMarker(p.level);
    assert DocxToMd.ParagraphLine(p) == marker + p.text;
    MarkedLineShape(marker, p.level.value + 1, p.text);
  }

  /** `n` hashes and a space in front of a clean text make a trimmed
      heading line. */
  lemma MarkedLineShape(marker: string, n: nat, text: string)
    requires 1 <= n <= 6 && |marker| == n + 1 && marker[n] == ' '
    requires forall k :: 0 <= k < n ==> marker[k] == '#'
    requires text != "" && Trimmed(text) && '\n' !in text
    ensures Trimmed(marker + text) && HeadingShape(marker + text, n, text)
  {
    var line := marker + text;
    assert line[0] == marker[0];
    assert line[|line| - 1] == text[|text| - 1];
    forall i | 0 <= i < n ensures line[i] == '#' {
      assert line[i] == marker[i];
    }
    assert line[n..|line| - |text|] == [marker[n]];
    assert line[|line| - |text|..] == text;
  }

  /** A heading paragraph (outline level L in 0..2, non-empty trimmed
      one-line text) comes back from the exporter as a heading of level
      L + 1 with the same text, whatever the table flag. */
  lemma HeadingSurvivesExport(p: DocxToMd.Paragraph, inTable: bool)
    requires p.text != "" && Trimmed(p.text) && '\n' !in p.text
    requires p.level.Some? && 0 <= p.level.value <= 2
    ensures ParseLine(DocxToMd.ParagraphLine(p), inTable, false).token == Heading(p.level.value + 1, p.text)
  {
    HeadingLineShape(p);
    ParseHeadingIff(DocxToMd.ParagraphLine(p), inTable, p.level.value + 1, p.text);
  }

  /** The text the converter extracts from a paragraph's runs always
      qualifies: if it is not empty, a heading paragraph made from it
      survives the round trip. */
  lemma ExtractedHeadingSurvives(nodes: seq<DocxToMd.TextNode>, p: DocxToMd.Paragraph, inTable: bool)
    requires p.text == DocxToMd.ExtractText(nodes) && p.text != ""
    requires p.level.Some? && 0 <= p.level.value <= 2
    ensures ParseLine(DocxToMd.ParagraphLine(p), inTable, false).token == Heading(p.level.value + 1, p.text)
  {
    HeadingSurvivesExport(p, inTable);
  }
}
