/**
  src/editor/split.rs: choosing the line delimiter of a text and splitting
  the text into lines on it.
*/
module LineSplit {
  import opened Strings

  const CRLF: string := "\r\n"
  const LF: string := "\n"
  const CR: string := "\r"

  /** `detect_line_delimiter`: CRLF if present, else LF, else CR, else LF. */
  function DetectLineDelimiter(text: string): (d: string)
    ensures d == CRLF || d == LF || d == CR
  {
    if Contains(text, CRLF) then CRLF
    else if Contains(text, LF) then LF
    else if Contains(text, CR) then CR
    else LF
  }

  /**
    `split`: the lines between the delimiters and the delimiter itself. Joined
    back with the delimiter the lines give the text, none of them contains it,
    and there is always at least one line.
  */
  function Split(content: string): (r: (seq<string>, string))
    ensures r.1 == DetectLineDelimiter(content)
    ensures |r.0| >= 1
    ensures Join(r.0, r.1) == content
    ensures forall k :: 0 <= k < |r.0| ==> !Contains(r.0[k], r.1)
  {
    var d := DetectLineDelimiter(content);
    JoinSplit(content, d);
    SplitPiecesFree(content, d);
    (Strings.Split(content, d), d)
  }

  /** The precedence of `detect_line_delimiter`, one case per alternative. */
  lemma DelimiterPrecedence(text: string)
    ensures Contains(text, CRLF) ==> DetectLineDelimiter(text) == CRLF
    ensures !Contains(text, CRLF) && Contains(text, LF) ==> DetectLineDelimiter(text) == LF
    ensures !Contains(text, CRLF) && !Contains(text, LF) && Contains(text, CR) ==> DetectLineDelimiter(text) == CR
    ensures !Contains(text, CRLF) && !Contains(text, LF) && !Contains(text, CR) ==> DetectLineDelimiter(text) == LF
  {
  }

  /** CRLF wins even when lone LF and CR occur as well. */
  lemma CrlfBeatsLoneBreaks()
    ensures DetectLineDelimiter("a\nb\rc\r\nd") == CRLF
  {
    assert OccursAt("a\nb\rc\r\nd", CRLF, 5);
  }

  /** Splitting text whose lines each end cleanly before the delimiter gives back those lines. */
  lemma SplitLinesOf(lines: seq<string>, d: string)
    requires |lines| >= 1
    requires d == CRLF || d == LF || d == CR
    requires forall k :: 0 <= k < |lines| ==> !Contains(lines[k], d)
    ensures Strings.Split(Join(lines, d), d) == lines
  {
    forall k | 0 <= k < |lines| ensures EndsCleanly(lines[k], d) {
      if d == CRLF { PairEndsCleanly(lines[k], d); } else { SingleEndsCleanly(lines[k], d); }
    }
    SplitJoin(lines, d);
  }

  /** Text holding a LF but no CR is LF-delimited. */
  lemma LfWithoutCr(text: string)
    requires '\n' in text && '\r' !in text
    ensures DetectLineDelimiter(text) == LF
  {
    MissingCharNotContained(text, CRLF, 0);
    var j :| 0 <= j < |text| && text[j] == '\n';
    assert OccursAt(text, LF, j) by { assert text[j..j + 1] == [text[j]]; }
  }

  /** Text holding a CR but no LF is CR-delimited. */
  lemma CrWithoutLf(text: string)
    requires '\r' in text && '\n' !in text
    ensures DetectLineDelimiter(text) == CR
  {
    MissingCharNotContained(text, CRLF, 1);
    MissingCharNotContained(text, LF, 0);
    var j :| 0 <= j < |text| && text[j] == '\r';
    assert OccursAt(text, CR, j) by { assert text[j..j + 1] == [text[j]]; }
  }

  /**
    The shape of the tests at split.rs:25-47: two lines each followed by the
    delimiter split into those lines and a final empty one.
  */
  lemma TwoTerminatedLines(a: string, b: string, d: string)
    requires d == CRLF || d == LF || d == CR
    requires !Contains(a, d) && !Contains(b, d)
    requires DetectLineDelimiter(a + d + b + d) == d
    ensures Split(a + d + b + d) == ([a, b, ""], d)
  {
    var lines := [a, b, ""];
    assert Join(lines, d) == a + d + b + d by {
      assert lines[1..] == [b, ""];
      assert [b, ""][1..] == [""];
      assert Join([b, ""], d) == b + d by {
        assert b + d + "" == b + d;
      }
    }
    MissingCharNotContained("", d, 0);
    assert forall k :: 0 <= k < |lines| ==> !Contains(lines[k], d);
    SplitLinesOf(lines, d);
  }
}
