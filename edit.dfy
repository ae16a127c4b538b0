/**
  src/editor/edit.rs: an edit as a value. An `EditOp` records whether text is
  inserted or deleted, where, and the lines of that text, so that its
  inverse (the same lines, the other kind) undoes it exactly.
*/
module Edit {
  import opened Strings
  import LineSplit

  /** `(row, col)`. */
  type PosInDocument = (nat, nat)

  datatype EditOpKind = Insert | Delete

  datatype EditOp = EditOp(kind: EditOpKind, from: PosInDocument, lines: seq<string>)

  /** `EditOpKind::inverse`. */
  function InverseKind(k: EditOpKind): (r: EditOpKind)
    ensures r != k
  {
    match k
    case Insert => Delete
    case Delete => Insert
  }

  /** `EditOp::new`. */
  function New(kind: EditOpKind, from: PosInDocument, lines: seq<string>): (op: EditOp)
    ensures op.kind == kind && op.from == from && op.lines == lines
  {
    EditOp(kind, from, lines)
  }

  /** `lines_to_insert`: the lines of `split`, which rejoin to the inserted text. */
  function LinesToInsert(s: string): (r: seq<string>)
    ensures r == LineSplit.Split(s).0
    ensures |r| >= 1 && Join(r, LineSplit.DetectLineDelimiter(s)) == s
  {
    LineSplit.Split(s).0
  }

  /** `EditOp::insert`. */
  function InsertOp(from: PosInDocument, s: string): (op: EditOp)
    ensures op.kind == Insert && op.from == from && op.lines == LinesToInsert(s)
  {
    New(Insert, from, LinesToInsert(s))
  }

  /** `EditOp::inverse`: the other kind, the same start and the same lines. */
  function Inverse(op: EditOp): (r: EditOp)
    ensures r.kind != op.kind && r.from == op.from && r.lines == op.lines
  {
    New(InverseKind(op.kind), op.from, op.lines)
  }

  /**
    What `lines_to_delete` needs of its arguments to run without a panic:
    both rows exist, the range does not run backwards, and each slice bound
    lies within its row.
  */
  predicate ValidRange(lines: seq<string>, from: PosInDocument, to: PosInDocument)
  {
    from.0 <= to.0 < |lines| &&
    (from.0 == to.0 ==> from.1 <= to.1 <= |lines[from.0]|) &&
    (from.0 < to.0 ==> from.1 <= |lines[from.0]| && to.1 <= |lines[to.0]|)
  }

  /**
    The lines of text between `from` and `to`: on one row the slice between
    the columns; across rows the rest of the first row, the whole rows in
    between and the start of the last row.
  */
  function LinesToDelete(lines: seq<string>, from: PosInDocument, to: PosInDocument): (r: seq<string>)
    requires ValidRange(lines, from, to)
    ensures |r| == to.0 - from.0 + 1
    ensures from.0 == to.0 ==> r[0] == lines[from.0][from.1..to.1]
    ensures from.0 < to.0 ==> r[0] == lines[from.0][from.1..] && r[|r| - 1] == lines[to.0][..to.1]
    ensures forall k :: 0 < k < |r| - 1 ==> r[k] == lines[from.0 + k]
  {
    if from.0 == to.0 then [lines[from.0][from.1..to.1]]
    else [lines[from.0][from.1..]] + lines[from.0 + 1..to.0] + [lines[to.0][..to.1]]
  }

  /**
    `lines_to_delete` as the source writes it: pushing the first piece, every
    interior row in turn, and the last piece onto a growing vector.
  */
  method CollectLinesToDelete(lines: seq<string>, from: PosInDocument, to: PosInDocument)
    returns (linesToDelete: seq<string>)
    requires ValidRange(lines, from, to)
    ensures linesToDelete == LinesToDelete(lines, from, to)
  {
    var (fromRow, fromCol) := from;
    var (toRow, toCol) := to;
    linesToDelete := [];
    if fromRow == toRow {
      linesToDelete := linesToDelete + [lines[fromRow][fromCol..toCol]];
    } else {
      linesToDelete := linesToDelete + [lines[fromRow][fromCol..]];
      var k := fromRow + 1;
      while k < toRow
        invariant fromRow + 1 <= k <= toRow
        invariant linesToDelete == [lines[fromRow][fromCol..]] + lines[fromRow + 1..k]
      {
        linesToDelete := linesToDelete + [lines[k]];
        k := k + 1;
      }
      linesToDelete := linesToDelete + [lines[toRow][..toCol]];
    }
  }

  /** `EditOp::delete`: a deletion that records the text it removes. */
  function DeleteOp(lines: seq<string>, from: PosInDocument, to: PosInDocument): (op: EditOp)
    requires ValidRange(lines, from, to)
    ensures op.kind == Delete && op.from == from && op.lines == LinesToDelete(lines, from, to)
  {
    New(Delete, from, LinesToDelete(lines, from, to))
  }

  /**
    `to`: the position just after the op's text once it is in the document.
    `lines.len() - 1` and `lines[len - 1]` need at least one line.
  */
  function To(op: EditOp): (p: PosInDocument)
    requires |op.lines| >= 1
    ensures p.0 + 1 == op.from.0 + |op.lines|
    ensures |op.lines| == 1 ==> p.1 == op.from.1 + |op.lines[0]|
    ensures |op.lines| > 1 ==> p.1 == |op.lines[|op.lines| - 1]|
  {
    var (fromRow, fromCol) := op.from;
    var toRow := fromRow + |op.lines| - 1;
    var toColOffset := if |op.lines| == 1 then fromCol else 0;
    (toRow, toColOffset + |op.lines[|op.lines| - 1]|)
  }

  /** What `process` needs of the content and the op to run without a panic. */
  predicate Applicable(lines: seq<string>, op: EditOp)
  {
    |op.lines| >= 1 && op.from.0 < |lines| && op.from.1 <= |lines[op.from.0]| &&
    (op.kind == Delete ==> To(op).0 < |lines| && To(op).1 <= |lines[To(op).0]|)
  }

  /**
    The rows that replace the row split at the insertion point: the first
    inserted line goes after the head `pre`, the last one before the tail
    `post`, and the lines between are taken whole.
  */
  function Spliced(pre: string, ins: seq<string>, post: string): (r: seq<string>)
    requires |ins| >= 1
    ensures |r| == |ins|
    ensures |ins| == 1 ==> r == [pre + ins[0] + post]
    ensures |ins| > 1 ==> r[0] == pre + ins[0] && r[|r| - 1] == ins[|ins| - 1] + post
    ensures forall k :: 0 < k < |r| - 1 ==> r[k] == ins[k]
  {
    if |ins| == 1 then [pre + ins[0] + post]
    else [pre + ins[0]] + ins[1..|ins| - 1] + [ins[|ins| - 1] + post]
  }

  /**
    The content lines after `process`. An insert splits row `from.0` at
    `from.1` and splices its lines in between; a delete replaces rows
    `from.0..=To(op).0` by the head of the first and the tail of the last.
  */
  function Apply(lines: seq<string>, op: EditOp): (r: seq<string>)
    requires Applicable(lines, op)
    ensures op.from.0 < |r| && r[..op.from.0] == lines[..op.from.0]
    ensures op.kind == Insert ==> |r| == |lines| + |op.lines| - 1
    ensures op.kind == Insert ==> r[op.from.0 + |op.lines|..] == lines[op.from.0 + 1..]
    ensures op.kind == Delete ==> |r| + To(op).0 == |lines| + op.from.0
    ensures op.kind == Delete ==> r[op.from.0 + 1..] == lines[To(op).0 + 1..]
    ensures op.kind == Delete ==> r[op.from.0] == lines[op.from.0][..op.from.1] + lines[To(op).0][To(op).1..]
  {
    var (fromRow, fromCol) := op.from;
    match op.kind
    case Insert =>
      var row := lines[fromRow];
      lines[..fromRow] + Spliced(row[..fromCol], op.lines, row[fromCol..]) + lines[fromRow + 1..]
    case Delete =>
      var (toRow, toCol) := To(op);
      var r := lines[..fromRow] + [lines[fromRow][..fromCol] + lines[toRow][toCol..]] + lines[toRow + 1..];
      assert r[fromRow + 1..] == lines[toRow + 1..];
      r
  }

  /** The `&mut EditorContent` that `process` changes. */
  class Document {
    var lines: seq<string>
    var delimiter: string

    constructor(lines: seq<string>, delimiter: string)
      ensures this.lines == lines && this.delimiter == delimiter
    {
      this.lines := lines;
      this.delimiter := delimiter;
    }
  }

  /**
    `process`: an insert clones the op's lines, glues the split row's head
    onto the first and its tail onto the last and splices them over the row;
    a delete splices the one joined row over the rows of the range.
  */
  method Process(content: Document, editOp: EditOp)
    requires Applicable(content.lines, editOp)
    modifies content
    ensures content.lines == Apply(old(content.lines), editOp)
    ensures content.delimiter == old(content.delimiter)
  {
    var lines := editOp.lines;
    var (fromRow, fromCol) := editOp.from;
    match editOp.kind {
      case Insert =>
        var toInsert := lines;
        var row := content.lines[fromRow];
        var pre, post := row[..fromCol], row[fromCol..];
        toInsert := toInsert[0 := pre + toInsert[0]];
        toInsert := toInsert[|lines| - 1 := toInsert[|lines| - 1] + post];
        assert toInsert == Spliced(pre, lines, post);
        content.lines := content.lines[..fromRow] + toInsert + content.lines[fromRow + 1..];
      case Delete =>
        var (toRow, toCol) := To(editOp);
        var afterDelete := content.lines[fromRow][..fromCol] + content.lines[toRow][toCol..];
        content.lines := content.lines[..fromRow] + [afterDelete] + content.lines[toRow + 1..];
    }
  }

  /** The op `delete` builds ends where the deleted range ends. */
  lemma DeleteTo(lines: seq<string>, from: PosInDocument, to: PosInDocument)
    requires ValidRange(lines, from, to)
    ensures To(DeleteOp(lines, from, to)) == to
  {
  }

  /** A delete built from content applies to that content. */
  lemma DeleteApplicable(lines: seq<string>, from: PosInDocument, to: PosInDocument)
    requires ValidRange(lines, from, to)
    ensures Applicable(lines, DeleteOp(lines, from, to))
  {
    DeleteTo(lines, from, to);
  }

  lemma InverseInvolution(op: EditOp)
    ensures Inverse(Inverse(op)) == op
  {
  }

  /** Undo of a delete: inserting the deleted lines where they were restores the content. */
  lemma DeleteThenInverse(lines: seq<string>, from: PosInDocument, to: PosInDocument)
    requires ValidRange(lines, from, to)
    ensures Applicable(lines, DeleteOp(lines, from, to))
    ensures Applicable(Apply(lines, DeleteOp(lines, from, to)), Inverse(DeleteOp(lines, from, to)))
    ensures Apply(Apply(lines, DeleteOp(lines, from, to)), Inverse(DeleteOp(lines, from, to))) == lines
  {
    var op := DeleteOp(lines, from, to);
    DeleteApplicable(lines, from, to);
    DeleteTo(lines, from, to);
    var (fr, fc) := from;
    var (tr, tc) := to;
    var pre := lines[fr][..fc];
    var post := lines[tr][tc..];
    var r := Apply(lines, op);
    assert r[fr] == pre + post;
    assert r[fr][..fc] == pre;
    assert r[fr][fc..] == post;
    var back := Apply(r, Inverse(op));
    assert back == r[..fr] + Spliced(pre, op.lines, post) + r[fr + 1..];
    SplicedRestores(lines, from, to);
    assert lines == lines[..fr] + lines[fr..tr + 1] + lines[tr + 1..];
  }

  /** Gluing the head and tail of a range back onto the lines deleted from it gives the rows of the range. */
  lemma SplicedRestores(lines: seq<string>, from: PosInDocument, to: PosInDocument)
    requires ValidRange(lines, from, to)
    ensures Spliced(lines[from.0][..from.1], LinesToDelete(lines, from, to), lines[to.0][to.1..]) ==
      lines[from.0..to.0 + 1]
  {
    var (fr, fc) := from;
    var (tr, tc) := to;
    var pre := lines[fr][..fc];
    var post := lines[tr][tc..];
    var mid := Spliced(pre, LinesToDelete(lines, from, to), post);
    if fr == tr {
      assert pre + lines[fr][fc..tc] + post == lines[fr];
    } else {
      assert pre + lines[fr][fc..] == lines[fr];
      assert lines[tr][..tc] + post == lines[tr];
      assert mid[0] == lines[fr];
      assert mid[|mid| - 1] == lines[tr];
    }
  }

  /** Undo of an insert: deleting the inserted lines restores the content. */
  lemma InsertThenInverse(lines: seq<string>, op: EditOp)
    requires op.kind == Insert && Applicable(lines, op)
    ensures Applicable(Apply(lines, op), Inverse(op))
    ensures Apply(Apply(lines, op), Inverse(op)) == lines
  {
    var (fr, fc) := op.from;
    var n := |op.lines|;
    var row := lines[fr];
    var pre, post := row[..fc], row[fc..];
    var r := Apply(lines, op);
    var mid := Spliced(pre, op.lines, post);
    assert r == lines[..fr] + mid + lines[fr + 1..];
    var inv := Inverse(op);
    var (tr, tc) := To(inv);
    assert tr == fr + n - 1;
    assert r[fr] == mid[0];
    assert r[tr] == mid[n - 1];
    if n == 1 {
      assert r[fr] == pre + op.lines[0] + post;
      assert r[fr][..fc] == pre;
      assert r[tr][tc..] == post;
    } else {
      assert r[fr] == pre + op.lines[0];
      assert r[fr][..fc] == pre;
      assert r[tr] == op.lines[n - 1] + post;
      assert r[tr][tc..] == post;
    }
    assert Applicable(r, inv);
    var back := Apply(r, inv);
    assert back == r[..fr] + [pre + post] + r[tr + 1..];
    assert r[tr + 1..] == lines[fr + 1..];
    assert pre + post == lines[fr];
    assert lines == lines[..fr] + [lines[fr]] + lines[fr + 1..];
  }

  /** An insert's inverse is the delete of the range it inserted, read off the edited content. */
  lemma InsertInverseIsDelete(lines: seq<string>, op: EditOp)
    requires op.kind == Insert && Applicable(lines, op)
    ensures ValidRange(Apply(lines, op), op.from, To(op))
    ensures DeleteOp(Apply(lines, op), op.from, To(op)) == Inverse(op)
  {
    var (fr, fc) := op.from;
    var n := |op.lines|;
    var pre, post := lines[fr][..fc], lines[fr][fc..];
    var r := Apply(lines, op);
    var (tr, tc) := To(op);
    assert r[fr..fr + n] == Spliced(pre, op.lines, post);
    assert r[fr] == Spliced(pre, op.lines, post)[0];
    assert r[tr] == Spliced(pre, op.lines, post)[n - 1];
    var got := LinesToDelete(r, op.from, (tr, tc));
    if n == 1 {
      assert r[fr][fc..tc] == op.lines[0];
      assert got == op.lines;
    } else {
      assert r[fr][fc..] == op.lines[0];
      assert r[tr][..tc] == op.lines[n - 1];
      assert got == op.lines;
    }
  }

  /**
    In terms of the document text (its lines joined with the delimiter): an
    insert puts exactly the joined inserted lines at the insertion point.
  */
  lemma InsertText(lines: seq<string>, op: EditOp, d: string)
    requires op.kind == Insert && Applicable(lines, op)
    ensures var (fr, fc) := op.from;
      Join(lines, d) == Join(lines[..fr] + [lines[fr][..fc]], d) + Join([lines[fr][fc..]] + lines[fr + 1..], d)
    ensures var (fr, fc) := op.from;
      Join(Apply(lines, op), d) ==
        Join(lines[..fr] + [lines[fr][..fc]], d) + Join(op.lines, d) + Join([lines[fr][fc..]] + lines[fr + 1..], d)
  {
    var (fr, fc) := op.from;
    var a, b := lines[..fr], lines[fr + 1..];
    var pre, post := lines[fr][..fc], lines[fr][fc..];
    assert lines[fr] == pre + post;
    assert lines == a + [lines[fr]] + b;
    JoinGlue(a, pre, post, b, d);
    assert Apply(lines, op) == a + Spliced(pre, op.lines, post) + b;
    SplicedText(a, pre, op.lines, post, b, d);
  }

  /** The text of rows with `Spliced` rows in the middle holds the joined inserted lines between `pre` and `post`. */
  lemma SplicedText(a: seq<string>, pre: string, ins: seq<string>, post: string, b: seq<string>, d: string)
    requires |ins| >= 1
    ensures Join(a + Spliced(pre, ins, post) + b, d) == Join(a + [pre], d) + Join(ins, d) + Join([post] + b, d)
  {
    if |ins| == 1 {
      SplicedTextOne(a, pre, ins[0], post, b, d);
      assert ins == [ins[0]];
    } else {
      SplicedTextMany(a, pre, ins, post, b, d);
    }
  }

  lemma SplicedTextOne(a: seq<string>, pre: string, x: string, post: string, b: seq<string>, d: string)
    ensures Join(a + [pre + x + post] + b, d) == Join(a + [pre], d) + x + Join([post] + b, d)
  {
    assert pre + x + post == pre + (x + post);
    JoinGlue(a, pre, x + post, b, d);
    JoinGlue([], x, post, b, d);
    assert [] + [x + post] + b == [x + post] + b;
    assert [] + [x] == [x];
  }

  lemma SplicedTextMany(a: seq<string>, pre: string, ins: seq<string>, post: string, b: seq<string>, d: string)
    requires |ins| >= 2
    ensures Join(a + Spliced(pre, ins, post) + b, d) == Join(a + [pre], d) + Join(ins, d) + Join([post] + b, d)
  {
    var n := |ins|;
    var h := ins[..n - 1];
    var rest := ins[1..n - 1] + [ins[n - 1] + post] + b;
    assert a + Spliced(pre, ins, post) + b == a + [pre + ins[0]] + rest;
    JoinGlue(a, pre, ins[0], rest, d);
    assert [ins[0]] + rest == h + [ins[n - 1] + post] + b;
    JoinGlue(h, ins[n - 1], post, b, d);
    assert h + [ins[n - 1]] == ins;
    var x, y, z := Join(a + [pre], d), Join(ins, d), Join([post] + b, d);
    assert x + (y + z) == x + y + z;
  }

  /**
    In terms of the document text: the delete `delete` builds removes exactly
    the joined lines it records, from between the head of its first row and
    the tail of its last.
  */
  lemma DeleteText(lines: seq<string>, from: PosInDocument, to: PosInDocument, d: string)
    requires ValidRange(lines, from, to)
    ensures Applicable(lines, DeleteOp(lines, from, to))
    ensures Join(lines, d) ==
      Join(lines[..from.0] + [lines[from.0][..from.1]], d) + Join(LinesToDelete(lines, from, to), d) +
      Join([lines[to.0][to.1..]] + lines[to.0 + 1..], d)
    ensures Join(Apply(lines, DeleteOp(lines, from, to)), d) ==
      Join(lines[..from.0] + [lines[from.0][..from.1]], d) + Join([lines[to.0][to.1..]] + lines[to.0 + 1..], d)
  {
    var op := DeleteOp(lines, from, to);
    DeleteThenInverse(lines, from, to);
    var (fr, fc) := from;
    var (tr, tc) := to;
    var pre, post := lines[fr][..fc], lines[tr][tc..];
    var r := Apply(lines, op);
    assert r[fr] == pre + post;
    assert r[fr][..fc] == pre;
    assert r[fr][fc..] == post;
    InsertText(r, Inverse(op), d);
  }

  /** `to_single_line`. */
  lemma ToSingleLine()
    ensures To(New(Insert, (12, 14), ["line"])) == (12, 18)
  {
  }

  /** `to_multi_line`. */
  lemma ToMultiLine()
    ensures To(New(Insert, (12, 14), ["line 1", "line 23"])) == (13, 7)
  {
  }

  /** The shape of `insert_op_multi_line`: text with one LF and no CR gives its two lines. */
  lemma InsertTwoLines(from: PosInDocument, a: string, b: string)
    requires '\n' !in a && '\n' !in b && '\r' !in a && '\r' !in b
    ensures InsertOp(from, a + "\n" + b) == New(Insert, from, [a, b])
  {
    var text := a + "\n" + b;
    assert text[|a|] == '\n';
    LineSplit.LfWithoutCr(text);
    MissingCharNotContained(a, LineSplit.LF, 0);
    MissingCharNotContained(b, LineSplit.LF, 0);
    assert Join([a, b], LineSplit.LF) == text by {
      assert [a, b][1..] == [b];
    }
    LineSplit.SplitLinesOf([a, b], LineSplit.LF);
  }

  /** `delete_op_char`, `delete_op_eol`, `delete_op_line`, `delete_op_multi_line` and `delete_op_everything`. */
  lemma DeleteOpExamples()
    ensures DeleteOp(["Hello", "Amazing", "World"], (1, 0), (1, 1)) == New(Delete, (1, 0), ["A"])
    ensures DeleteOp(["Hello", "A"], (0, 5), (1, 0)) == New(Delete, (0, 5), ["", ""])
    ensures DeleteOp(["Hello"], (0, 0), (0, 5)) == New(Delete, (0, 0), ["Hello"])
    ensures DeleteOp(["Hello", "Amazing", "World"], (0, 3), (2, 3)) == New(Delete, (0, 3), ["lo", "Amazing", "Wor"])
    ensures DeleteOp(["Hello", "World"], (0, 0), (1, 5)) == New(Delete, (0, 0), ["Hello", "World"])
  {
    assert "Amazing"[0..1] == "A";
    assert "Hello"[5..] == "" && "A"[..0] == "";
    assert "Hello"[0..5] == "Hello";
    assert "Hello"[3..] == "lo" && "World"[..3] == "Wor";
    assert "Hello"[0..] == "Hello" && "World"[..5] == "World";
    assert ["Hello", "Amazing", "World"][1..2] == ["Amazing"];
    assert ["Hello", "World"][1..1] == [];
    assert ["Hello", "A"][1..1] == [];
  }

  /** `process_insert_single_line` and `process_insert_multi_line`. */
  lemma ProcessInsertExamples()
    ensures Apply(["Hello", "World"], New(Insert, (0, 4), ["issim"])) == ["Hellissimo", "World"]
    ensures Apply(["Hello", "World"], New(Insert, (0, 4), ["issimo", "Bell"])) == ["Hellissimo", "Bello", "World"]
  {
    assert "Hello"[..4] == "Hell" && "Hello"[4..] == "o";
    assert "Hell" + "issim" + "o" == "Hellissimo";
    assert "Hell" + "issimo" == "Hellissimo" && "Bell" + "o" == "Bello";
    assert ["issimo", "Bell"][1..1] == [];
    assert ["Hello", "World"][..0] == [] && ["Hello", "World"][1..] == ["World"];
  }

  /** `process_delete_single_line`: a delete within one row. */
  lemma DeleteWithinRowExample()
    ensures Apply(["Hello", "World"], DeleteOp(["Hello", "World"], (0, 3), (0, 5))) == ["Hel", "World"]
  {
    DeleteApplicable(["Hello", "World"], (0, 3), (0, 5));
    DeleteTo(["Hello", "World"], (0, 3), (0, 5));
    assert "Hello"[..3] == "Hel" && "Hello"[5..] == "";
    assert "Hel" + "" == "Hel";
    assert ["Hello", "World"][..0] == [] && ["Hello", "World"][1..] == ["World"];
  }

  /** `delete_eol`: deleting a line break joins two rows. */
  lemma DeleteLineBreakExample()
    ensures Apply(["Hello", "World"], DeleteOp(["Hello", "World"], (0, 5), (1, 0))) == ["HelloWorld"]
  {
    DeleteApplicable(["Hello", "World"], (0, 5), (1, 0));
    DeleteTo(["Hello", "World"], (0, 5), (1, 0));
    assert "Hello"[..5] == "Hello" && "World"[0..] == "World";
    assert "Hello" + "World" == "HelloWorld";
    assert ["Hello", "World"][..0] == [] && ["Hello", "World"][2..] == [];
  }

  /** `delete_multiple_lines`: a delete across three rows leaves one. */
  lemma DeleteAcrossRowsExample()
    ensures var c := ["Hello", "World", "How are you?"]; Apply(c, DeleteOp(c, (0, 2), (2, 8))) == ["Heyou?"]
  {
    var c := ["Hello", "World", "How are you?"];
    DeleteApplicable(c, (0, 2), (2, 8));
    DeleteTo(c, (0, 2), (2, 8));
    assert "Hello"[..2] == "He" && "How are you?"[8..] == "you?";
    assert "He" + "you?" == "Heyou?";
    assert c[..0] == [] && c[3..] == [];
  }
}
