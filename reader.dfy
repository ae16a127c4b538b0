/**
  src/terminal/reader.rs: reassembling the terminal's reads into one command
  and decoding commands into events. The `Reader` trait is a list of chunks
  the reads return one at a time; reading past the last chunk is the I/O
  error that `?` passes on.
*/
module TerminalReader {
  import opened Common
  import opened Strings
  import AnsiIn
  import TerminalEvents

  /** A `Reader` over a fixed list of chunks. */
  class ChunkReader {
    var chunks: seq<string>
    var next: nat

    predicate Valid()
      reads this
    {
      next <= |chunks|
    }

    constructor(chunks: seq<string>)
      ensures Valid() && this.chunks == chunks && next == 0
    {
      this.chunks := chunks;
      this.next := 0;
    }

    /** `read`: the next chunk, or an error when none is left. */
    method Read() returns (r: Option<string>)
      requires Valid()
      modifies this
      ensures Valid() && chunks == old(chunks)
      ensures old(next) < |chunks| ==> r == Some(chunks[old(next)]) && next == old(next) + 1
      ensures old(next) == |chunks| ==> r.None? && next == old(next)
    {
      if next < |chunks| {
        r := Some(chunks[next]);
        next := next + 1;
      } else {
        r := None;
      }
    }
  }

  /**
    The input `read_cmd` assembles from chunk `i` on, with the index of the
    first chunk it leaves unread; none when a read fails.
  */
  function AssembleCmd(chunks: seq<string>, i: nat): (r: Option<(string, nat)>)
    ensures r.Some? ==> i < r.value.1 <= |chunks|
  {
    if i >= |chunks| then None
    else if chunks[i] != AnsiIn.BRACKETED_PASTE_START then Some((chunks[i], i + 1))
    else PasteTail(chunks, i + 1, chunks[i])
  }

  /** The loop of `read_cmd`: appends chunks up to and including the first that ends with the end marker. */
  function PasteTail(chunks: seq<string>, j: nat, buffer: string): (r: Option<(string, nat)>)
    ensures r.Some? ==> j < r.value.1 <= |chunks|
    decreases |chunks| - j
  {
    if j >= |chunks| then None
    else if EndsWith(chunks[j], AnsiIn.BRACKETED_PASTE_END) then Some((buffer + chunks[j], j + 1))
    else PasteTail(chunks, j + 1, buffer + chunks[j])
  }

  /** The chunks concatenated. */
  function Concat(chunks: seq<string>): string
  {
    if |chunks| == 0 then [] else Concat(chunks[..|chunks| - 1]) + chunks[|chunks| - 1]
  }

  /**
    What the paste loop does, stated without the loop: it stops at the
    first chunk from `j` on that ends with the end marker, and the buffer
    grows by exactly the chunks in between; with no such chunk it fails.
  */
  lemma {:induction false} PasteTailStopsAtFirstEnd(chunks: seq<string>, j: nat, buffer: string)
    requires j <= |chunks|
    ensures var r := PasteTail(chunks, j, buffer);
      r.Some? ==> (EndsWith(chunks[r.value.1 - 1], AnsiIn.BRACKETED_PASTE_END) &&
        r.value.0 == buffer + Concat(chunks[j..r.value.1]) &&
        forall k :: j <= k < r.value.1 - 1 ==> !EndsWith(chunks[k], AnsiIn.BRACKETED_PASTE_END))
    decreases |chunks| - j
  {
    if j < |chunks| {
      assert chunks[j..j + 1] == [chunks[j]];
      assert Concat([chunks[j]]) == chunks[j] by { assert [chunks[j]][..0] == []; }
      if !EndsWith(chunks[j], AnsiIn.BRACKETED_PASTE_END) {
        assert PasteTail(chunks, j, buffer) == PasteTail(chunks, j + 1, buffer + chunks[j]);
        PasteTailStopsAtFirstEnd(chunks, j + 1, buffer + chunks[j]);
        var r := PasteTail(chunks, j + 1, buffer + chunks[j]);
        if r.Some? {
          ConcatCons(chunks[j], chunks[j + 1..r.value.1]);
          assert chunks[j..r.value.1] == [chunks[j]] + chunks[j + 1..r.value.1];
        }
      }
    }
  }

  /** The paste loop fails exactly when no chunk from `j` on ends with the end marker. */
  lemma {:induction false} PasteTailFailsWithoutEnd(chunks: seq<string>, j: nat, buffer: string)
    requires j <= |chunks|
    ensures PasteTail(chunks, j, buffer).None? <==>
      forall k :: j <= k < |chunks| ==> !EndsWith(chunks[k], AnsiIn.BRACKETED_PASTE_END)
    decreases |chunks| - j
  {
    if j < |chunks| && !EndsWith(chunks[j], AnsiIn.BRACKETED_PASTE_END) {
      assert PasteTail(chunks, j, buffer) == PasteTail(chunks, j + 1, buffer + chunks[j]);
      PasteTailFailsWithoutEnd(chunks, j + 1, buffer + chunks[j]);
    }
  }

  lemma {:induction false} ConcatCons(head: string, tail: seq<string>)
    ensures Concat([head] + tail) == head + Concat(tail)
    decreases |tail|
  {
    if |tail| == 0 {
      assert [head] + tail == [head];
      assert [head][..0] == [];
    } else {
      var init := tail[..|tail| - 1];
      assert ([head] + tail)[..|tail|] == [head] + init;
      ConcatCons(head, init);
    }
  }

  /**
    `read_cmd`: a chunk other than the exact start marker is the whole
    command; after a lone start marker the command runs to the first chunk
    that ends with the end marker. A whole paste in one chunk counts as the
    first kind.
  */
  lemma AssembleCmdCases(chunks: seq<string>, i: nat)
    requires i < |chunks|
    ensures chunks[i] != AnsiIn.BRACKETED_PASTE_START ==>
      AssembleCmd(chunks, i).Some? && AssembleCmd(chunks, i).value.0 == chunks[i] && AssembleCmd(chunks, i).value.1 == i + 1
    ensures chunks[i] == AnsiIn.BRACKETED_PASTE_START && AssembleCmd(chunks, i).Some? ==>
      var (s, n) := AssembleCmd(chunks, i).value;
      s == Concat(chunks[i..n]) && EndsWith(chunks[n - 1], AnsiIn.BRACKETED_PASTE_END) &&
      forall k :: i < k < n - 1 ==> !EndsWith(chunks[k], AnsiIn.BRACKETED_PASTE_END)
    ensures chunks[i] == AnsiIn.BRACKETED_PASTE_START ==>
      (AssembleCmd(chunks, i).None? <==> forall k :: i < k < |chunks| ==> !EndsWith(chunks[k], AnsiIn.BRACKETED_PASTE_END))
  {
    if chunks[i] == AnsiIn.BRACKETED_PASTE_START {
      PasteTailStopsAtFirstEnd(chunks, i + 1, chunks[i]);
      PasteTailFailsWithoutEnd(chunks, i + 1, chunks[i]);
      var r := AssembleCmd(chunks, i);
      if r.Some? {
        ConcatCons(chunks[i], chunks[i + 1..r.value.1]);
        assert chunks[i..r.value.1] == [chunks[i]] + chunks[i + 1..r.value.1];
      }
    }
  }

  /** A chunk without ESC cannot end with the end marker. */
  lemma NoEscNoEnd(s: string)
    requires AnsiIn.ESC !in s
    ensures !EndsWith(s, AnsiIn.BRACKETED_PASTE_END)
  {
    if |s| >= |AnsiIn.BRACKETED_PASTE_END| {
      assert s[|s| - |AnsiIn.BRACKETED_PASTE_END|..][0] == s[|s| - |AnsiIn.BRACKETED_PASTE_END|];
    }
  }

  /** A paste read in three chunks, as in reader.rs's test: the command is the three joined. */
  lemma ThreeChunkPaste(a: string, b: string)
    requires AnsiIn.ESC !in a
    ensures AssembleCmd([AnsiIn.BRACKETED_PASTE_START, a, b + AnsiIn.BRACKETED_PASTE_END], 0) ==
      Some((AnsiIn.BRACKETED_PASTE_START + a + b + AnsiIn.BRACKETED_PASTE_END, 3))
  {
    NoEscNoEnd(a);
    var e := AnsiIn.BRACKETED_PASTE_END;
    var chunks := [AnsiIn.BRACKETED_PASTE_START, a, b + e];
    assert (b + e)[|b + e| - |e|..] == e;
    assert PasteTail(chunks, 2, AnsiIn.BRACKETED_PASTE_START + a) ==
      Some((AnsiIn.BRACKETED_PASTE_START + a + (b + e), 3));
    assert AnsiIn.BRACKETED_PASTE_START + a + (b + e) == AnsiIn.BRACKETED_PASTE_START + a + b + e;
  }

  /**
    The end marker is looked for in each chunk alone: when a read splits it,
    the paste goes on past it and, with nothing more to read, fails.
  */
  lemma SplitEndMarkerMissed(a: string, k: nat)
    requires AnsiIn.ESC !in a && 0 < k < |AnsiIn.BRACKETED_PASTE_END|
    ensures var e := AnsiIn.BRACKETED_PASTE_END;
      AssembleCmd([AnsiIn.BRACKETED_PASTE_START, a + e[..k], e[k..]], 0).None?
  {
    var e := AnsiIn.BRACKETED_PASTE_END;
    var chunks := [AnsiIn.BRACKETED_PASTE_START, a + e[..k], e[k..]];
    var s := a + e[..k];
    if |s| >= |e| {
      assert s[|s| - |e|] == a[|s| - |e|];
      assert s[|s| - |e|..][0] == s[|s| - |e|];
    }
    assert !EndsWith(chunks[1], e) && !EndsWith(chunks[2], e);
    var buf := AnsiIn.BRACKETED_PASTE_START + s;
    assert PasteTail(chunks, 3, buf + e[k..]).None?;
    assert PasteTail(chunks, 2, buf) == PasteTail(chunks, 3, buf + e[k..]);
    assert PasteTail(chunks, 1, AnsiIn.BRACKETED_PASTE_START) == PasteTail(chunks, 2, buf);
  }

  /** `read_cmd`, as a loop of reads. */
  method ReadCmd(reader: ChunkReader) returns (r: Option<string>)
    requires reader.Valid()
    modifies reader
    ensures reader.Valid() && reader.chunks == old(reader.chunks)
    ensures r.None? <==> AssembleCmd(reader.chunks, old(reader.next)).None?
    ensures r.Some? ==> AssembleCmd(reader.chunks, old(reader.next)) == Some((r.value, reader.next))
  {
    var input := reader.Read();
    if input.None? {
      return None;
    }
    var buffer := input.value;
    if input.value == AnsiIn.BRACKETED_PASTE_START {
      while true
        invariant reader.Valid() && reader.chunks == old(reader.chunks)
        invariant PasteTail(reader.chunks, reader.next, buffer) == AssembleCmd(reader.chunks, old(reader.next))
        decreases |reader.chunks| - reader.next
      {
        var more := reader.Read();
        if more.None? {
          return None;
        }
        buffer := buffer + more.value;
        if EndsWith(more.value, AnsiIn.BRACKETED_PASTE_END) {
          break;
        }
      }
    }
    return Some(buffer);
  }

  /**
    The event `read_event` returns from chunk `i` on, with the first chunk
    left unread: commands that do not decode are skipped; none when a read
    fails first.
  */
  function NextEvent(chunks: seq<string>, i: nat): (r: Option<(TerminalEvents.Event, nat)>)
    ensures r.Some? ==> i < r.value.1 <= |chunks|
    decreases |chunks| - i
  {
    match AssembleCmd(chunks, i)
    case None => None
    case Some((input, n)) =>
      match AnsiIn.Parse(input)
      case Done(_, e) => Some((e, n))
      case Failure => NextEvent(chunks, n)
  }

  /**
    `starts` are the chunk indices at which successive commands begin, each
    command but the last assembled and failing to decode.
  */
  predicate UndecodedRun(chunks: seq<string>, starts: seq<nat>)
  {
    forall k :: 0 <= k < |starts| - 1 ==>
      (AssembleCmd(chunks, starts[k]).Some? &&
       AnsiIn.Parse(AssembleCmd(chunks, starts[k]).value.0).Failure? &&
       starts[k + 1] == AssembleCmd(chunks, starts[k]).value.1)
  }

  /** The event of the command that begins at chunk `j`, when it decodes. */
  function DecodedAt(chunks: seq<string>, j: nat): Option<(TerminalEvents.Event, nat)>
  {
    match AssembleCmd(chunks, j)
    case None => None
    case Some((input, n)) => if AnsiIn.Parse(input).Done? then Some((AnsiIn.Parse(input).value, n)) else None
  }

  /** The last of `starts` begins a command that decodes, and it is the event `read_event` returns. */
  predicate DecodesLast(chunks: seq<string>, starts: seq<nat>, i: nat)
  {
    |starts| >= 1 && starts[0] == i && DecodedAt(chunks, starts[|starts| - 1]).Some? &&
    NextEvent(chunks, i) == DecodedAt(chunks, starts[|starts| - 1])
  }

  /**
    `read_event` returns the event of the first command that decodes, and
    every command before it failed to decode.
  */
  lemma {:induction false} NextEventIsFirstDecoded(chunks: seq<string>, i: nat)
    requires NextEvent(chunks, i).Some?
    ensures exists starts: seq<nat> :: UndecodedRun(chunks, starts) && DecodesLast(chunks, starts, i)
    decreases |chunks| - i
  {
    var (input, n) := AssembleCmd(chunks, i).value;
    if AnsiIn.Parse(input).Done? {
      assert UndecodedRun(chunks, [i]) && DecodesLast(chunks, [i], i);
    } else {
      assert NextEvent(chunks, i) == NextEvent(chunks, n);
      NextEventIsFirstDecoded(chunks, n);
      var starts: seq<nat> :| UndecodedRun(chunks, starts) && DecodesLast(chunks, starts, n);
      RunCons(chunks, i, starts);
      var last := starts[|starts| - 1];
      var all := [i] + starts;
      assert all[0] == i && all[|all| - 1] == last;
      assert NextEvent(chunks, i) == DecodedAt(chunks, last);
      assert DecodesLast(chunks, all, i);
    }
  }

  /** A command that fails to decode, in front of a run, makes a longer run. */
  lemma RunCons(chunks: seq<string>, i: nat, starts: seq<nat>)
    requires AssembleCmd(chunks, i).Some? && AnsiIn.Parse(AssembleCmd(chunks, i).value.0).Failure?
    requires |starts| >= 1 && starts[0] == AssembleCmd(chunks, i).value.1
    requires UndecodedRun(chunks, starts)
    ensures UndecodedRun(chunks, [i] + starts)
  {
    var all := [i] + starts;
    forall k | 0 <= k < |all| - 1
      ensures AssembleCmd(chunks, all[k]).Some? && AnsiIn.Parse(AssembleCmd(chunks, all[k]).value.0).Failure? &&
        all[k + 1] == AssembleCmd(chunks, all[k]).value.1
    {
      if k > 0 {
        assert all[k] == starts[k - 1] && all[k + 1] == starts[k];
      }
    }
  }

  /** `read_event`: reads commands until one decodes. */
  method ReadEvent(reader: ChunkReader) returns (r: Option<TerminalEvents.Event>)
    requires reader.Valid()
    modifies reader
    ensures reader.Valid() && reader.chunks == old(reader.chunks)
    ensures r.None? <==> NextEvent(reader.chunks, old(reader.next)).None?
    ensures r.Some? ==> NextEvent(reader.chunks, old(reader.next)) == Some((r.value, reader.next))
  {
    while true
      invariant reader.Valid() && reader.chunks == old(reader.chunks)
      invariant NextEvent(reader.chunks, reader.next) == NextEvent(reader.chunks, old(reader.next))
      decreases |reader.chunks| - reader.next
    {
      var input := ReadCmd(reader);
      if input.None? {
        return None;
      }
      var parsed := AnsiIn.Parse(input.value);
      if parsed.Done? {
        return Some(parsed.value);
      }
    }
  }
}
