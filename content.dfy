/** src/editor/content.rs: the document as a list of lines plus its delimiter. */
module Content {
  import opened Strings
  import Common
  import LineSplit

  /** `(row, col)`. */
  type PosInDocument = (nat, nat)

  /** `EditorContent { lines, delimiter }`. */
  datatype EditorContent = EditorContent(lines: seq<string>, delimiter: string)

  /** `EditorContent::new`. */
  function New(lines: seq<string>, delimiter: string): (c: EditorContent)
    ensures c.lines == lines && c.delimiter == delimiter
  {
    EditorContent(lines, delimiter)
  }

  /**
    `parse`: the lines and delimiter of `split` (content.rs:40-51 is the same
    code as split.rs, modelled once in `LineSplit`). The lines joined with
    the delimiter are the text, and there is at least one line.
  */
  function Parse(text: string): (c: EditorContent)
    ensures (c.lines, c.delimiter) == LineSplit.Split(text)
    ensures |c.lines| >= 1 && Join(c.lines, c.delimiter) == text
    ensures forall k :: 0 <= k < |c.lines| ==> !Contains(c.lines[k], c.delimiter)
  {
    var (lines, delimiter) := LineSplit.Split(text);
    New(lines, delimiter)
  }

  /** `line_end`: the position just after the last character of the row. */
  function LineEnd(c: EditorContent, row: nat): (p: PosInDocument)
    requires row < |c.lines|
    ensures p.0 == row && p.1 == |c.lines[row]|
  {
    (row, Common.LineLen(c.lines, row))
  }

  /** `last_line_row`: the index of the last row; `lines.len() - 1` underflows on no lines. */
  function LastLineRow(c: EditorContent): (r: nat)
    requires |c.lines| >= 1
    ensures r < |c.lines| && r + 1 == |c.lines|
  {
    |c.lines| - 1
  }

  /** `last_line_end`: the end of the document. */
  function LastLineEnd(c: EditorContent): (p: PosInDocument)
    requires |c.lines| >= 1
    ensures p == LineEnd(c, LastLineRow(c))
    ensures p.0 + 1 == |c.lines| && p.1 == |c.lines[|c.lines| - 1]|
  {
    LineEnd(c, LastLineRow(c))
  }

  /** The delimiter that `parse` stores follows the CRLF > LF > CR precedence, with LF by default. */
  lemma ParseDelimiter(text: string)
    ensures Parse(text).delimiter == LineSplit.CRLF <==> Contains(text, LineSplit.CRLF)
    ensures Parse(text).delimiter == LineSplit.LF <==>
      !Contains(text, LineSplit.CRLF) && (Contains(text, LineSplit.LF) || !Contains(text, LineSplit.CR))
    ensures Parse(text).delimiter == LineSplit.CR <==>
      !Contains(text, LineSplit.CRLF) && !Contains(text, LineSplit.LF) && Contains(text, LineSplit.CR)
  {
  }

  /** Parsed content always has a last row, so the queries above are defined on it. */
  lemma ParsedHasEnd(text: string)
    ensures LastLineRow(Parse(text)) + 1 == |Parse(text).lines|
    ensures LastLineEnd(Parse(text)).1 == |Parse(text).lines[|Parse(text).lines| - 1]|
  {
  }

  /**
    The shape of the tests at content.rs:59-81: two lines each terminated by
    the text's own delimiter parse into those lines, a final empty line and
    that delimiter.
  */
  lemma ParseTwoTerminatedLines(a: string, b: string, d: string)
    requires d == LineSplit.CRLF || d == LineSplit.LF || d == LineSplit.CR
    requires !Contains(a, d) && !Contains(b, d)
    requires LineSplit.DetectLineDelimiter(a + d + b + d) == d
    ensures Parse(a + d + b + d) == EditorContent([a, b, ""], d)
  {
    LineSplit.TwoTerminatedLines(a, b, d);
  }
}
