/**
  The parts of Rust's `str` API the editor relies on (`contains`, `starts_with`,
  `ends_with`, `find`, `split` and joining), over `seq<char>` with one index per
  position.
*/
module Strings {
  import opened Common

  /** `pat` occurs in `s` starting at index `i`. */
  predicate OccursAt(s: string, pat: string, i: nat)
  {
    i + |pat| <= |s| && s[i..i + |pat|] == pat
  }

  predicate StartsWith(s: string, pat: string)
  {
    |pat| <= |s| && s[..|pat|] == pat
  }

  predicate EndsWith(s: string, pat: string)
  {
    |pat| <= |s| && s[|s| - |pat|..] == pat
  }

  /** `str::find`: the first index at which `pat` occurs, if any. */
  function Find(s: string, pat: string): (r: Option<nat>)
    ensures r.Some? ==> OccursAt(s, pat, r.value)
    ensures r.Some? ==> forall j: nat :: j < r.value ==> !OccursAt(s, pat, j)
    ensures r.None? ==> forall j: nat :: !OccursAt(s, pat, j)
    decreases |s|
  {
    if StartsWith(s, pat) then
      assert OccursAt(s, pat, 0) by { assert s[0..|pat|] == s[..|pat|]; }
      Some(0)
    else if |s| == 0 then None
    else
      var tail := Find(s[1..], pat);
      ShiftOccurrence(s, pat);
      match tail
      case None => None
      case Some(i) => Some(i + 1)
  }

  /** Occurrences in `s` past its first position are the occurrences in `s[1..]`, one index on. */
  lemma ShiftOccurrence(s: string, pat: string)
    requires |s| > 0
    ensures OccursAt(s, pat, 0) <==> StartsWith(s, pat)
    ensures forall j: nat {:trigger OccursAt(s, pat, j)} :: 1 <= j ==> (OccursAt(s, pat, j) <==> OccursAt(s[1..], pat, j - 1))
  {
    if |pat| <= |s| { assert s[0..|pat|] == s[..|pat|]; }
    forall j: nat | 1 <= j ensures OccursAt(s, pat, j) <==> OccursAt(s[1..], pat, j - 1) {
      ShiftAt(s, pat, j - 1);
    }
  }

  lemma ShiftAt(s: string, pat: string, j: nat)
    requires |s| > 0
    ensures OccursAt(s, pat, j + 1) <==> OccursAt(s[1..], pat, j)
  {
    if j + 1 + |pat| <= |s| {
      assert s[j + 1..j + 1 + |pat|] == s[1..][j..j + |pat|];
    }
  }

  /** `str::contains`. */
  predicate Contains(s: string, pat: string)
  {
    Find(s, pat).Some?
  }

  lemma ContainsIff(s: string, pat: string)
    ensures Contains(s, pat) <==> exists j: nat :: OccursAt(s, pat, j)
  {
  }

  /** `str::split(d)` collected into a vector: the pieces between the non-overlapping occurrences of `d`, left to right. */
  function Split(s: string, d: string): (r: seq<string>)
    requires |d| > 0
    ensures |r| >= 1
    decreases |s|
  {
    match Find(s, d)
    case None => [s]
    case Some(i) => [s[..i]] + Split(s[i + |d|..], d)
  }

  /** The pieces of `lines` with `d` between each two neighbours (`[..].join(d)`). */
  function Join(lines: seq<string>, d: string): string
  {
    if |lines| == 0 then []
    else if |lines| == 1 then lines[0]
    else lines[0] + d + Join(lines[1..], d)
  }

  /** Joining the pieces of a split with the same delimiter gives back the text. */
  lemma {:induction false} JoinSplit(s: string, d: string)
    requires |d| > 0
    ensures Join(Split(s, d), d) == s
    decreases |s|
  {
    var f := Find(s, d);
    if f.Some? {
      var i := f.value;
      var rest := s[i + |d|..];
      var tail := Split(rest, d);
      JoinSplit(rest, d);
      assert Split(s, d) == [s[..i]] + tail;
      JoinCons(s[..i], tail, d);
      assert s[i..i + |d|] == d;
      assert s == s[..i] + s[i..i + |d|] + rest;
    }
  }

  lemma JoinCons(head: string, tail: seq<string>, d: string)
    requires |tail| >= 1
    ensures Join([head] + tail, d) == head + d + Join(tail, d)
  {
    assert ([head] + tail)[1..] == tail;
  }

  /**
    Joining lines where one line is the concatenation `x + y` is joining the
    lines up to `x` and appending the join of the lines from `y` on.
  */
  lemma {:induction false} JoinGlue(a: seq<string>, x: string, y: string, b: seq<string>, d: string)
    ensures Join(a + [x + y] + b, d) == Join(a + [x], d) + Join([y] + b, d)
    decreases |a|
  {
    if |a| == 0 {
      assert a + [x + y] + b == [x + y] + b;
      assert a + [x] == [x];
      if |b| == 0 {
        assert [x + y] + b == [x + y];
        assert [y] + b == [y];
      } else {
        JoinCons(x + y, b, d);
        JoinCons(y, b, d);
      }
    } else {
      JoinGlue(a[1..], x, y, b, d);
      assert a + [x + y] + b == [a[0]] + (a[1..] + [x + y] + b);
      JoinCons(a[0], a[1..] + [x + y] + b, d);
      assert a + [x] == [a[0]] + (a[1..] + [x]);
      JoinCons(a[0], a[1..] + [x], d);
    }
  }

  /** No piece of a split contains the delimiter. */
  lemma {:induction false} SplitPiecesFree(s: string, d: string)
    requires |d| > 0
    ensures forall k :: 0 <= k < |Split(s, d)| ==> !Contains(Split(s, d)[k], d)
    decreases |s|
  {
    match Find(s, d)
    case None =>
    case Some(i) =>
      var rest := s[i + |d|..];
      SplitPiecesFree(rest, d);
      PrefixFree(s, d, i);
      assert Split(s, d) == [s[..i]] + Split(rest, d);
  }

  /** The text before the first occurrence of `d` does not contain `d`. */
  lemma PrefixFree(s: string, d: string, i: nat)
    requires i <= |s| && |d| > 0
    requires forall j: nat :: j < i ==> !OccursAt(s, d, j)
    ensures !Contains(s[..i], d)
  {
    if Contains(s[..i], d) {
      var j := Find(s[..i], d).value;
      assert s[..i][j..j + |d|] == s[j..j + |d|];
      assert OccursAt(s, d, j);
    }
  }

  /** Text without the delimiter is a single piece. */
  lemma SplitNoDelimiter(s: string, d: string)
    requires |d| > 0 && !Contains(s, d)
    ensures Split(s, d) == [s]
  {
  }

  /**
    `head + d` has no occurrence of `d` that starts inside `head`: the
    delimiter that follows `head` is found right where it was put.
  */
  predicate EndsCleanly(head: string, d: string)
  {
    forall j: nat :: j < |head| ==> !OccursAt(head + d, d, j)
  }

  lemma EndsCleanlyFree(head: string, d: string)
    requires |d| > 0 && EndsCleanly(head, d)
    ensures !Contains(head, d)
  {
    if Contains(head, d) {
      var j := Find(head, d).value;
      assert (head + d)[j..j + |d|] == head[j..j + |d|];
      assert OccursAt(head + d, d, j);
    }
  }

  /** A one-character delimiter can only be found where it occurs. */
  lemma SingleEndsCleanly(head: string, d: string)
    requires |d| == 1 && !Contains(head, d)
    ensures EndsCleanly(head, d)
  {
    forall j: nat | j < |head| ensures !OccursAt(head + d, d, j) {
      assert (head + d)[j..j + 1] == head[j..j + 1];
      assert !OccursAt(head, d, j);
    }
  }

  /** A two-character delimiter with distinct characters, such as CRLF, can only be found where it occurs. */
  lemma PairEndsCleanly(head: string, d: string)
    requires |d| == 2 && d[0] != d[1] && !Contains(head, d)
    ensures EndsCleanly(head, d)
  {
    forall j: nat | j < |head| ensures !OccursAt(head + d, d, j) {
      if j + 1 < |head| {
        assert (head + d)[j..j + 2] == head[j..j + 2];
        assert !OccursAt(head, d, j);
      } else {
        assert (head + d)[j + 1] == d[0];
      }
    }
  }

  /** Text lacking a character of `pat` does not contain `pat`. */
  lemma MissingCharNotContained(s: string, pat: string, k: nat)
    requires k < |pat| && pat[k] !in s
    ensures !Contains(s, pat)
  {
  }

  /**
    The converse of `JoinSplit`: splitting lines joined with `d` gives back
    the lines when each of them ends cleanly before `d`.
  */
  lemma {:induction false} SplitJoin(lines: seq<string>, d: string)
    requires |d| > 0 && |lines| >= 1
    requires forall k :: 0 <= k < |lines| ==> EndsCleanly(lines[k], d)
    ensures Split(Join(lines, d), d) == lines
    decreases |lines|
  {
    if |lines| == 1 {
      EndsCleanlyFree(lines[0], d);
      SplitNoDelimiter(lines[0], d);
    } else {
      var s := Join(lines, d);
      var head := lines[0];
      var tail := Join(lines[1..], d);
      assert s == head + d + tail;
      FirstOccurrenceAfter(head, d, tail);
      assert s[..|head|] == head;
      assert s[|head| + |d|..] == tail;
      SplitJoin(lines[1..], d);
    }
  }

  /** In `head + d + tail`, with `head` ending cleanly, the first occurrence of `d` is right after `head`. */
  lemma FirstOccurrenceAfter(head: string, d: string, tail: string)
    requires |d| > 0 && EndsCleanly(head, d)
    ensures Find(head + d + tail, d) == Some(|head|)
  {
    var s := head + d + tail;
    assert OccursAt(s, d, |head|) by {
      assert s[|head|..|head| + |d|] == d;
    }
    forall j: nat | j < |head| ensures !OccursAt(s, d, j) {
      assert !OccursAt(head + d, d, j);
      assert s[j..j + |d|] == (head + d)[j..j + |d|];
    }
    var r := Find(s, d);
    assert r.Some?;
    assert !(r.value < |head|);
    assert !(r.value > |head|);
  }
}
