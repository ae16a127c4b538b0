/**
  src/terminal/ansi_in.rs: the decoder of terminal input into events. Each
  parser either succeeds with the input it left unconsumed and its value, or
  fails; `alt` tries its alternatives in order and takes the first success.
  Keys arrive as single characters or as sequences after the control
  sequence introducer `ESC [` of ECMA-48 (section 5.4); the key codes and the
  `200~`/`201~` paste markers are xterm's.
*/
module AnsiIn {
  import opened Strings
  import opened TerminalEvents

  /** `IResult`, with every kind of error collapsed into `Failure`. */
  datatype ParseResult<T> = Done(rest: string, value: T) | Failure

  const ESC: char := '\U{1B}'
  const DEL: char := '\U{7F}'

  /** The control sequence introducer `ESC [`. */
  const CSI: string := [ESC, '[']

  const BRACKETED_PASTE_START: string := [ESC, '[', '2', '0', '0', '~']
  const BRACKETED_PASTE_END: string := [ESC, '[', '2', '0', '1', '~']

  /** `tag(t)`: the input starts with `t`, which is consumed. */
  function Tag(input: string, t: string): (r: ParseResult<()>)
    ensures r.Done? <==> StartsWith(input, t)
    ensures r.Done? ==> input == t + r.rest
  {
    if StartsWith(input, t) then
      assert input == t + input[|t|..];
      Done(input[|t|..], ())
    else Failure
  }

  /** `unicode_char`: one character at or above space. */
  function UnicodeChar(input: string): (r: ParseResult<char>)
    ensures r.Done? <==> |input| >= 1 && input[0] >= ' '
    ensures r.Done? ==> input == [r.value] + r.rest
  {
    if |input| >= 1 && input[0] >= ' ' then
      assert input == [input[0]] + input[1..];
      Done(input[1..], input[0])
    else Failure
  }

  /**
    `special_char`: ESC as the whole rest of the input is the escape key;
    DEL is backspace and TAB is tab.
  */
  function SpecialChar(input: string): (r: ParseResult<Key>)
    ensures r.Done? ==> (r.value == Esc <==> input == [ESC])
    ensures r.Done? ==> r.value in {Esc, Backspace, Tab}
    ensures r.Done? ==> |input| >= 1 && input == [input[0]] + r.rest
  {
    if Tag(input, [ESC]).Done? && Tag(input, [ESC]).rest == [] then Done([], Esc)
    else if Tag(input, [DEL]).Done? then Done(input[1..], Backspace)
    else if Tag(input, ['\t']).Done? then Done(input[1..], Tab)
    else Failure
  }

  /** `special_key`: the part of a key sequence after `ESC [`, tried in the source's order. */
  function SpecialKey(input: string): (r: ParseResult<Key>)
    ensures r.Done? ==> r.value in {Insert, Delete, Home, End, PageUp, PageDown, Up, Down, Right, Left}
    ensures r.Done? ==> EndsWith(input, r.rest) && |r.rest| < |input|
  {
    if StartsWith(input, "2~") then Done(input[2..], Insert)
    else if StartsWith(input, "3~") then Done(input[2..], Delete)
    else if StartsWith(input, "H") then Done(input[1..], Home)
    else if StartsWith(input, "F") then Done(input[1..], End)
    else if StartsWith(input, "5~") then Done(input[2..], PageUp)
    else if StartsWith(input, "6~") then Done(input[2..], PageDown)
    else if StartsWith(input, "A") then Done(input[1..], Up)
    else if StartsWith(input, "B") then Done(input[1..], Down)
    else if StartsWith(input, "C") then Done(input[1..], Right)
    else if StartsWith(input, "D") then Done(input[1..], Left)
    else Failure
  }

  /**
    `bracketed_paste`: the start marker, then everything up to the first
    end marker, which is consumed too; without an end marker it fails.
  */
  function BracketedPaste(input: string): (r: ParseResult<string>)
    ensures r.Done? ==> input == BRACKETED_PASTE_START + r.value + BRACKETED_PASTE_END + r.rest
    ensures r.Done? ==> !Contains(r.value + BRACKETED_PASTE_END[..|BRACKETED_PASTE_END| - 1], BRACKETED_PASTE_END)
    ensures r.Failure? <==>
      (!StartsWith(input, BRACKETED_PASTE_START) || !Contains(input[|BRACKETED_PASTE_START|..], BRACKETED_PASTE_END))
  {
    var start := Tag(input, BRACKETED_PASTE_START);
    if start.Failure? then Failure
    else
      var body := start.rest;
      match Find(body, BRACKETED_PASTE_END)
      case None => Failure
      case Some(k) =>
        NoEarlierEnd(body, k);
        Done(body[k + |BRACKETED_PASTE_END|..], body[..k])
  }

  /** The text before the first occurrence of the end marker, with all but its last character, holds no end marker. */
  lemma NoEarlierEnd(body: string, k: nat)
    requires OccursAt(body, BRACKETED_PASTE_END, k)
    requires forall j: nat :: j < k ==> !OccursAt(body, BRACKETED_PASTE_END, j)
    ensures body == body[..k] + BRACKETED_PASTE_END + body[k + |BRACKETED_PASTE_END|..]
    ensures !Contains(body[..k] + BRACKETED_PASTE_END[..|BRACKETED_PASTE_END| - 1], BRACKETED_PASTE_END)
  {
    var e := BRACKETED_PASTE_END;
    assert body == body[..k] + e + body[k + |e|..] by {
      assert body[k..k + |e|] == e;
    }
    var s := body[..k] + e[..|e| - 1];
    assert s == body[..k + |e| - 1];
    forall j: nat | j + |e| <= |s|
      ensures !OccursAt(s, e, j)
    {
      assert j < k && !OccursAt(body, e, j);
      assert s[j..j + |e|] == body[j..j + |e|];
    }
    ContainsIff(s, e);
  }

  /**
    `parse`: a special character, a bracketed paste, a key sequence after
    `ESC [`, or a printable character, in that order.
  */
  function Parse(input: string): (r: ParseResult<Event>)
    ensures r.Done? ==> EndsWith(input, r.rest) && |r.rest| < |input|
  {
    var special := SpecialChar(input);
    if special.Done? then Done(special.rest, Key(special.value))
    else
      var paste := BracketedPaste(input);
      if paste.Done? then Done(paste.rest, Paste(paste.value))
      else
        var csi := Tag(input, CSI);
        var key := if csi.Done? then SpecialKey(csi.rest) else Failure;
        if key.Done? then
          assert EndsWith(input, key.rest) by {
            assert input[|input| - |key.rest|..] == csi.rest[|csi.rest| - |key.rest|..];
          }
          Done(key.rest, Key(key.value))
        else
          var c := UnicodeChar(input);
          if c.Done? then Done(c.rest, Key(Char(c.value))) else Failure
  }

  /** A character at or above space other than DEL is its own key, and only it is consumed. */
  lemma PrintableChar(c: char, rest: string)
    requires c >= ' ' && c != DEL
    ensures Parse([c] + rest) == Done(rest, Key(Char(c)))
  {
    var input := [c] + rest;
    assert input[0] == c;
    assert !StartsWith(input, BRACKETED_PASTE_START) && !StartsWith(input, CSI);
    assert input[1..] == rest;
  }

  /** DEL is backspace and TAB is tab, whatever follows. */
  lemma BackspaceAndTab(rest: string)
    ensures Parse([DEL] + rest) == Done(rest, Key(Backspace))
    ensures Parse(['\t'] + rest) == Done(rest, Key(Tab))
  {
    assert ([DEL] + rest)[..1] == [DEL] && ([DEL] + rest)[1..] == rest;
    assert (['\t'] + rest)[..1] == ['\t'] && (['\t'] + rest)[1..] == rest;
  }

  /** ESC is the escape key when it is the last character of the input, and not otherwise. */
  lemma EscapeOnlyAtEnd(rest: string)
    ensures Parse([ESC]) == Done([], Key(Esc))
    ensures |rest| >= 1 ==> Parse([ESC] + rest).Failure? || Parse([ESC] + rest).value != Key(Esc)
  {
    assert [ESC][..1] == [ESC];
    var input := [ESC] + rest;
    if |rest| >= 1 {
      assert input != [ESC];
      assert input[0] == ESC;
    }
  }

  /** A control character other than TAB, ESC and DEL (a line feed, say) is no event. */
  lemma ControlCharFails(c: char, rest: string)
    requires c < ' ' && c != '\t' && c != ESC
    ensures Parse([c] + rest).Failure?
  {
    var input := [c] + rest;
    assert input[0] == c;
    assert !StartsWith(input, [ESC]) && !StartsWith(input, [DEL]) && !StartsWith(input, ['\t']);
    assert !StartsWith(input, BRACKETED_PASTE_START) && !StartsWith(input, CSI);
  }

  /**
    After `ESC [`, when the input does not start a paste, the event is the
    key `special_key` reads, or none.
  */
  lemma CsiParse(s: string)
    requires !StartsWith(s, "200~")
    ensures SpecialKey(s).Done? ==> Parse(CSI + s) == Done(SpecialKey(s).rest, Key(SpecialKey(s).value))
    ensures SpecialKey(s).Failure? ==> Parse(CSI + s).Failure?
  {
    var input := CSI + s;
    assert input[0] == ESC && input[1] == '[';
    assert input[..2] == CSI && input[2..] == s;
    if |input| >= 6 {
      assert input[..6] == CSI + s[..4];
    }
    assert !StartsWith(input, BRACKETED_PASTE_START);
  }

  /** `special_key` reads one final letter: the arrows. */
  lemma ArrowLetters(rest: string)
    ensures SpecialKey("A" + rest) == Done(rest, Up)
    ensures SpecialKey("B" + rest) == Done(rest, Down)
    ensures SpecialKey("C" + rest) == Done(rest, Right)
    ensures SpecialKey("D" + rest) == Done(rest, Left)
  {
    Letter('A', rest);
    Letter('B', rest);
    Letter('C', rest);
    Letter('D', rest);
  }

  /** `special_key` reads one final letter: Home and End. */
  lemma HomeEndLetters(rest: string)
    ensures SpecialKey("H" + rest) == Done(rest, Home)
    ensures SpecialKey("F" + rest) == Done(rest, End)
  {
    Letter('H', rest);
    Letter('F', rest);
  }

  /** A letter is no digit code, so `special_key` reaches the letter tags. */
  lemma Letter(f: char, rest: string)
    requires f != '2' && f != '3' && f != '5' && f != '6'
    ensures !StartsWith([f] + rest, "2~") && !StartsWith([f] + rest, "3~")
    ensures !StartsWith([f] + rest, "5~") && !StartsWith([f] + rest, "6~")
    ensures forall g: char :: StartsWith([f] + rest, [g]) <==> g == f
    ensures ([f] + rest)[1..] == rest
  {
    assert ([f] + rest)[0] == f && ([f] + rest)[..1] == [f];
  }

  /** `special_key` reads a digit and `~`: Insert, Delete, PageUp, PageDown. */
  lemma TildeCodes(rest: string)
    ensures SpecialKey("2~" + rest) == Done(rest, Insert)
    ensures SpecialKey("3~" + rest) == Done(rest, Delete)
    ensures SpecialKey("5~" + rest) == Done(rest, PageUp)
    ensures SpecialKey("6~" + rest) == Done(rest, PageDown)
  {
    assert ("2~" + rest)[..2] == "2~" && ("2~" + rest)[2..] == rest;
    assert ("3~" + rest)[..2] == "3~" && ("3~" + rest)[2..] == rest;
    assert ("5~" + rest)[..2] == "5~" && ("5~" + rest)[2..] == rest;
    assert ("6~" + rest)[..2] == "6~" && ("6~" + rest)[2..] == rest;
  }

  /** The whole key sequences: `ESC [` and a final letter. */
  lemma CursorKeys(rest: string)
    ensures Parse(CSI + "A" + rest) == Done(rest, Key(Up))
    ensures Parse(CSI + "B" + rest) == Done(rest, Key(Down))
    ensures Parse(CSI + "C" + rest) == Done(rest, Key(Right))
    ensures Parse(CSI + "D" + rest) == Done(rest, Key(Left))
    ensures Parse(CSI + "H" + rest) == Done(rest, Key(Home))
    ensures Parse(CSI + "F" + rest) == Done(rest, Key(End))
  {
    ArrowLetters(rest);
    HomeEndLetters(rest);
    LetterSequence('A', rest);
    LetterSequence('B', rest);
    LetterSequence('C', rest);
    LetterSequence('D', rest);
    LetterSequence('H', rest);
    LetterSequence('F', rest);
  }

  lemma LetterSequence(f: char, rest: string)
    requires f != '2'
    ensures CSI + [f] + rest == CSI + ([f] + rest)
    ensures !StartsWith([f] + rest, "200~")
    ensures SpecialKey([f] + rest).Done? ==> Parse(CSI + [f] + rest) == Done(SpecialKey([f] + rest).rest, Key(SpecialKey([f] + rest).value))
  {
    assert ([f] + rest)[0] == f;
    CsiParse([f] + rest);
  }

  /** The whole key sequences: `ESC [`, a digit and `~`. */
  lemma TildeKeys(rest: string)
    ensures Parse(CSI + "2~" + rest) == Done(rest, Key(Insert))
    ensures Parse(CSI + "3~" + rest) == Done(rest, Key(Delete))
    ensures Parse(CSI + "5~" + rest) == Done(rest, Key(PageUp))
    ensures Parse(CSI + "6~" + rest) == Done(rest, Key(PageDown))
  {
    TildeCodes(rest);
    TildeSequence('2', rest);
    TildeSequence('3', rest);
    TildeSequence('5', rest);
    TildeSequence('6', rest);
  }

  lemma TildeSequence(d: char, rest: string)
    ensures CSI + [d, '~'] + rest == CSI + ([d, '~'] + rest)
    ensures !StartsWith([d, '~'] + rest, "200~")
    ensures SpecialKey([d, '~'] + rest).Done? ==>
      Parse(CSI + [d, '~'] + rest) == Done(SpecialKey([d, '~'] + rest).rest, Key(SpecialKey([d, '~'] + rest).value))
  {
    assert ([d, '~'] + rest)[1] == '~';
    CsiParse([d, '~'] + rest);
  }

  /** A final character that names no key after `ESC [` gives no event. */
  lemma UnknownCsiFails(f: char, rest: string)
    requires f != '2' && f != '3' && f != '5' && f != '6'
    requires f != 'A' && f != 'B' && f != 'C' && f != 'D' && f != 'H' && f != 'F'
    ensures Parse(CSI + [f] + rest).Failure?
  {
    var s := [f] + rest;
    assert s[0] == f;
    assert SpecialKey(s).Failure?;
    CsiParse(s);
    assert CSI + [f] + rest == CSI + s;
  }

  /**
    A bracketed paste: the text between the start marker and the first end
    marker is the pasted text, and the markers are consumed. `EndsCleanly`
    says the end marker after `p` is the first one.
  */
  lemma PasteOf(p: string, rest: string)
    requires EndsCleanly(p, BRACKETED_PASTE_END)
    ensures Parse(BRACKETED_PASTE_START + p + BRACKETED_PASTE_END + rest) == Done(rest, Paste(p))
  {
    var input := BRACKETED_PASTE_START + p + BRACKETED_PASTE_END + rest;
    var body := p + BRACKETED_PASTE_END + rest;
    assert input[0] == ESC && input[1] == '[' && input != [ESC];
    assert input[..|BRACKETED_PASTE_START|] == BRACKETED_PASTE_START;
    assert input[|BRACKETED_PASTE_START|..] == body;
    FirstOccurrenceAfter(p, BRACKETED_PASTE_END, rest);
    assert body[..|p|] == p;
    assert body[|p| + |BRACKETED_PASTE_END|..] == rest;
  }

  /** Text without ESC cannot hold an end marker, so the first one is the one after it. */
  lemma PlainPaste(p: string)
    requires ESC !in p
    ensures EndsCleanly(p, BRACKETED_PASTE_END)
  {
    var s := p + BRACKETED_PASTE_END;
    forall j: nat | j < |p|
      ensures !OccursAt(s, BRACKETED_PASTE_END, j)
    {
      assert s[j] == p[j] != ESC;
    }
  }

  /** The examples of ansi_in.rs's tests: `"x"` and a whole paste. */
  lemma SourceExamples()
    ensures Parse("x") == Done([], Key(Char('x')))
    ensures Parse(BRACKETED_PASTE_START + "Hello World!" + BRACKETED_PASTE_END) ==
      Done([], Paste("Hello World!"))
  {
    PrintableChar('x', []);
    assert "x" == ['x'] + [];
    PlainPaste("Hello World!");
    PasteOf("Hello World!", []);
    assert BRACKETED_PASTE_START + "Hello World!" + BRACKETED_PASTE_END + [] ==
      BRACKETED_PASTE_START + "Hello World!" + BRACKETED_PASTE_END;
  }
}
