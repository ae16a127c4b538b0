/**
  src/file.rs: the part of `read_file` after the file system read: the text
  is split on its detected delimiter (the read itself is not modelled).
*/
module File {
  import opened Strings
  import LineSplit

  /**
    `read_file` on the text `fs::read_to_string` returned: the lines found
    with the delimiter of `detect_line_delimiter` (the same precedence as in
    split.rs, modelled once in `LineSplit`), returned with that delimiter.
  */
  function ReadFile(fileContent: string): (r: (seq<string>, string))
    ensures r.1 == LineSplit.DetectLineDelimiter(fileContent)
    ensures r.0 == Strings.Split(fileContent, r.1)
    ensures |r.0| >= 1 && Join(r.0, r.1) == fileContent
  {
    var lineDelimiter := LineSplit.DetectLineDelimiter(fileContent);
    JoinSplit(fileContent, lineDelimiter);
    (Strings.Split(fileContent, lineDelimiter), lineDelimiter)
  }

  /** `detect_line_delimiter` as file.rs writes it: each branch of the `if` chain. */
  lemma DetectedDelimiter(fileContent: string)
    ensures Contains(fileContent, "\r\n") ==> ReadFile(fileContent).1 == "\r\n"
    ensures !Contains(fileContent, "\r\n") && Contains(fileContent, "\n") ==> ReadFile(fileContent).1 == "\n"
    ensures !Contains(fileContent, "\r\n") && !Contains(fileContent, "\n") && Contains(fileContent, "\r") ==>
      ReadFile(fileContent).1 == "\r"
    ensures !Contains(fileContent, "\r\n") && !Contains(fileContent, "\n") && !Contains(fileContent, "\r") ==>
      ReadFile(fileContent).1 == "\n"
  {
  }

  /** Writing the lines back with the delimiter reproduces the file, and no line holds the delimiter. */
  lemma LinesRoundTrip(fileContent: string)
    ensures Join(ReadFile(fileContent).0, ReadFile(fileContent).1) == fileContent
    ensures forall k :: 0 <= k < |ReadFile(fileContent).0| ==> !Contains(ReadFile(fileContent).0[k], ReadFile(fileContent).1)
  {
    SplitPiecesFree(fileContent, ReadFile(fileContent).1);
  }
}
