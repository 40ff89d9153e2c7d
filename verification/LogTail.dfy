/** Reading the last lines of a log file backwards in chunks (src/source/log/local_log.rs) and splitting
    them into capped lines (src/source/log/ssh_log.rs). */
module LogTail {
  import opened Bounds
  import opened Counting
  import opened Sequences
  import opened Utf8Text
  import opened Wrappers

  const NEWLINE: byte := 10
  const READ_CHUNK_BYTES: nat := 65_536
  const HARD_CAP_LINES: nat := 10_000

  // ---- The last lines of a text

  function Newlines(s: bytes): nat {
    if s == [] then 0 else (if s[0] == NEWLINE then 1 else 0) + Newlines(s[1..])
  }

  /** Lines end at a newline; text after the last newline is a line too. */
  function Lines(s: bytes): nat {
    Newlines(s) + if s != [] && s[|s| - 1] != NEWLINE then 1 else 0
  }

  function AfterFirstLine(s: bytes): (r: bytes)
    ensures |r| <= |s| && (s != [] ==> |r| < |s|)
  {
    if s == [] then [] else if s[0] == NEWLINE then s[1..] else AfterFirstLine(s[1..])
  }

  /** At most the last `n` lines: lines are dropped from the front until no more than `n` are left. */
  function LastLines(s: bytes, n: nat): bytes
    decreases |s|
  {
    if s == [] || Lines(s) <= n then s else LastLines(AfterFirstLine(s), n)
  }

  lemma {:induction false} NewlinesSplit(a: bytes, b: bytes)
    ensures Newlines(a + b) == Newlines(a) + Newlines(b)
    decreases |a|
  {
    if a == [] {
      assert a + b == b;
    } else {
      NewlinesSplit(a[1..], b);
      assert (a + b)[1..] == a[1..] + b;
    }
  }

  lemma NewlinesFrom(s: bytes, i: nat)
    requires i < |s|
    ensures Newlines(s[i..]) == Newlines(s[i + 1..]) + if s[i] == NEWLINE then 1 else 0
  {
    DropDrop(s, i, 1);
  }

  lemma {:induction false} NoNewlineLeft(s: bytes)
    requires Newlines(s) == 0
    ensures forall i | 0 <= i < |s| :: s[i] != NEWLINE
    decreases |s|
  {
    if s != [] {
      NoNewlineLeft(s[1..]);
      Uncons(s);
    }
  }

  /** A line starts at `start`, and from there on there are as many of the last `n` lines as exist. */
  predicate TailStart(s: bytes, n: nat, start: nat) {
    && start <= |s| && (start == 0 || s[start - 1] == NEWLINE)
    && Lines(s[start..]) == if Lines(s) < n then Lines(s) else n
  }

  lemma {:induction false} FirstNewline(s: bytes) returns (i: nat)
    requires Newlines(s) > 0
    ensures i < |s| && s[i] == NEWLINE && AfterFirstLine(s) == s[i + 1..] && Newlines(s[..i]) == 0
    decreases |s|
  {
    if s[0] == NEWLINE {
      i := 0;
    } else {
      var j := FirstNewline(s[1..]);
      i := j + 1;
      DropDrop(s, 1, j + 1);
      assert s[..i] == [s[0]] + s[1..][..j];
      assert s[..i][1..] == s[1..][..j];
    }
  }

  /** A start at or before the first line's end drops nothing or the whole first line. */
  lemma {:induction false} TailStartIsLastLines(s: bytes, n: nat, start: nat)
    requires n > 0 && TailStart(s, n, start)
    ensures s[start..] == LastLines(s, n)
    decreases |s|
  {
    if start == 0 {
      assert s[0..] == s;
    } else {
      Rejoin(s, start);
      NewlinesSplit(s[..start], s[start..]);
      NewlinesSplit(s[..start - 1], [NEWLINE]);
      assert s[..start] == s[..start - 1] + [NEWLINE];
      var i := FirstNewline(s);
      FirstAtMost(s, i, start);
      var rest := s[i + 1..];
      DropDrop(s, i + 1, start - (i + 1));
      FewerLines(s, i);
      TailStartIsLastLines(rest, n, start - (i + 1));
    }
  }

  lemma FirstAtMost(s: bytes, i: nat, start: nat)
    requires i < |s| && Newlines(s[..i]) == 0 && 0 < start <= |s| && s[start - 1] == NEWLINE
    ensures i < start
  {
    NoNewlineLeft(s[..i]);
    assert forall k | 0 <= k < i :: s[k] == s[..i][k];
  }

  lemma FewerLines(s: bytes, i: nat)
    requires i < |s| && s[i] == NEWLINE && Newlines(s[..i]) == 0
    ensures Lines(s) == Lines(s[i + 1..]) + 1
  {
    Rejoin(s, i);
    NewlinesSplit(s[..i], s[i..]);
    NewlinesFrom(s, i);
    if i + 1 < |s| {
      assert s[i + 1..][|s| - i - 2] == s[|s| - 1];
    }
  }

  // ---- The backward scan

  /** Counts newlines backwards through one chunk; stops behind the one that reaches the target. */
  method ScanChunk(chunk: bytes, before: nat, target: nat, ghost file: bytes, ghost from: nat)
    returns (seen: nat, found: Option<nat>)
    requires from + |chunk| <= |file| && chunk == file[from..from + |chunk|]
    requires before == Newlines(file[from + |chunk|..]) < target
    ensures found.None? ==> seen == Newlines(file[from..]) < target
    ensures found.Some? ==>
      && found.value < |chunk| && chunk[found.value] == NEWLINE && Newlines(file[from + found.value + 1..]) == target - 1
  {
    seen := before;
    var index: nat := |chunk|;
    while index > 0
      invariant index <= |chunk| && seen < target
      invariant seen == Newlines(file[from + index..])
    {
      index := index - 1;
      NewlinesFrom(file, from + index);
      assert chunk[index] == file[from + index];
      if chunk[index] == NEWLINE {
        seen := seen + 1;
        if seen == target {
          return seen, Some(index);
        }
      }
    }
    found := None;
  }

  /** The offset at which the last `lines` lines start; the file is read backwards in chunks. */
  method TailStartOffset(file: bytes, lines: nat, chunkSize: nat) returns (start: nat)
    requires file != [] && lines > 0 && chunkSize > 0
    ensures TailStart(file, lines, start)
  {
    var target := lines + if file[|file| - 1] == NEWLINE then 1 else 0;
    var pos: nat := |file|;
    var seen: nat := 0;
    assert file[|file|..] == [];
    while pos > 0
      invariant pos <= |file| && seen < target
      invariant seen == Newlines(file[pos..])
    {
      var from := if pos < chunkSize then 0 else pos - chunkSize;
      var found;
      seen, found := ScanChunk(file[from..pos], seen, target, file, from);
      if found.Some? {
        FoundStart(file, lines, from + found.value + 1);
        return from + found.value + 1;
      }
      pos := from;
    }
    assert file[0..] == file;
    start := 0;
  }

  lemma FoundStart(file: bytes, lines: nat, start: nat)
    requires lines > 0 && 0 < start <= |file| && file[start - 1] == NEWLINE
    requires Newlines(file[start..]) == lines - 1 + if file[|file| - 1] == NEWLINE then 1 else 0
    ensures TailStart(file, lines, start)
  {
    if start < |file| {
      assert file[start..][|file| - start - 1] == file[|file| - 1];
    }
    Rejoin(file, start);
    NewlinesSplit(file[..start], file[start..]);
  }

  /** There is only one such offset, whatever the chunk size. */
  lemma TailStartIsUnique(s: bytes, n: nat, a: nat, b: nat)
    requires n > 0 && TailStart(s, n, a) && TailStart(s, n, b)
    ensures a == b
  {
    TailStartIsLastLines(s, n, a);
    TailStartIsLastLines(s, n, b);
    assert |s[a..]| == |s[b..]|;
  }

  // ---- Splitting into capped lines

  /** The pieces between newlines. */
  function Split(s: bytes): (r: seq<bytes>)
    ensures r != []
  {
    if s == [] then [[]]
    else if s[0] == NEWLINE then [[]] + Split(s[1..])
    else
      var rest := Split(s[1..]);
      [[s[0]] + rest[0]] + rest[1..]
  }

  function JoinLines(lines: seq<bytes>): bytes {
    if lines == [] then [] else if |lines| == 1 then lines[0] else lines[0] + ([NEWLINE] + JoinLines(lines[1..]))
  }

  lemma {:induction false} SplitJoins(s: bytes)
    ensures JoinLines(Split(s)) == s && |Split(s)| == Newlines(s) + 1
    ensures forall i | 0 <= i < |Split(s)| :: NEWLINE !in Split(s)[i]
    decreases |s|
  {
    if s != [] {
      SplitJoins(s[1..]);
      Uncons(s);
      var rest := Split(s[1..]);
      if s[0] == NEWLINE {
        Cons([], rest);
        assert [] + ([NEWLINE] + JoinLines(rest)) == [NEWLINE] + JoinLines(rest);
      } else {
        Uncons(rest);
        Cons([s[0]] + rest[0], rest[1..]);
        if |rest| > 1 {
          Associates([s[0]], rest[0], [NEWLINE] + JoinLines(rest[1..]));
        }
      }
    }
  }

  function NonEmpty(lines: seq<bytes>): seq<bytes> {
    if lines == [] then [] else (if lines[0] != [] then [lines[0]] else []) + NonEmpty(lines[1..])
  }

  function Front(line: bytes, max: nat): bytes {
    if |line| <= max then line else line[..max]
  }

  predicate AnyLonger(lines: seq<bytes>, max: nat) {
    exists i :: 0 <= i < |lines| && |lines[i]| > max
  }

  function Texts(lines: seq<bytes>, max: nat): (r: seq<bytes>)
    ensures |r| == |lines| && forall i | 0 <= i < |lines| :: r[i] == Lossy(Front(lines[i], max))
  {
    seq(|lines|, i requires 0 <= i < |lines| => Lossy(Front(lines[i], max)))
  }

  /** The lines as decoded texts, and whether one was cut. */
  function SplitAndCap(raw: bytes, max: nat): (seq<bytes>, bool) {
    (Texts(NonEmpty(Split(raw)), max), AnyLonger(NonEmpty(Split(raw)), max))
  }

  /** A line as it is shown: decoded, after the cut at the cap. */
  function Shown(max: nat): bytes -> bytes {
    (line: bytes) => Lossy(if |line| <= max then line else line[..max])
  }

  predicate HasBytes(piece: bytes) {
    |piece| > 0
  }

  function Same(piece: bytes): bytes {
    piece
  }

  lemma {:induction false} NonEmptyAre(pieces: seq<bytes>)
    ensures IsImage(pieces, HasBytes, Same, NonEmpty(pieces))
    decreases |pieces|
  {
    if pieces != [] {
      NonEmptyAre(pieces[1..]);
      ImageCons(pieces, HasBytes, Same, NonEmpty(pieces), NonEmpty(pieces[1..]));
    }
  }

  /** The lines shown are the non-empty pieces between newlines, all of them and in their order, each decoded after
      the cut at the cap; the flag is up exactly when some piece is longer than the cap. */
  lemma ShownExactly(raw: bytes, max: nat)
    ensures IsImage(Split(raw), HasBytes, Shown(max), SplitAndCap(raw, max).0)
    ensures SplitAndCap(raw, max).1 <==> exists k :: 0 <= k < |Split(raw)| && |Split(raw)[k]| > max
  {
    NonEmptyAre(Split(raw));
    var lines := NonEmpty(Split(raw));
    assert SplitAndCap(raw, max).0 == Texts(lines, max);
    TextsAreShown(Split(raw), lines, max);
    assert IsImage(Split(raw), HasBytes, Shown(max), Texts(lines, max));
    LongestIsKept(Split(raw), max);
  }

  lemma TextsAreShown(pieces: seq<bytes>, lines: seq<bytes>, max: nat)
    requires IsImage(pieces, HasBytes, Same, lines)
    ensures IsImage(pieces, HasBytes, Shown(max), Texts(lines, max))
  {
    ImageMap(pieces, HasBytes, Same, lines, Shown(max), Shown(max), Texts(lines, max));
  }

  lemma {:induction false} LongestIsKept(pieces: seq<bytes>, max: nat)
    ensures AnyLonger(NonEmpty(pieces), max) <==> exists k :: 0 <= k < |pieces| && |pieces[k]| > max
    decreases |pieces|
  {
    if pieces != [] {
      LongestIsKept(pieces[1..], max);
      LongerFirst(pieces, max);
      if pieces[0] == [] {
        assert [] + NonEmpty(pieces[1..]) == NonEmpty(pieces[1..]);
      } else {
        Cons(pieces[0], NonEmpty(pieces[1..]));
        LongerFirst(NonEmpty(pieces), max);
      }
    }
  }

  lemma LongerFirst(lines: seq<bytes>, max: nat)
    ensures (exists k :: 0 <= k < |lines| && |lines[k]| > max) <==>
      lines != [] && (|lines[0]| > max || exists k :: 0 <= k < |lines[1..]| && |lines[1..][k]| > max)
  {
    if k :| 0 <= k < |lines| && |lines[k]| > max {
      if k > 0 { assert lines[1..][k - 1] == lines[k]; }
    }
    if lines != [] {
      if k :| 0 <= k < |lines[1..]| && |lines[1..][k]| > max {
        assert lines[k + 1] == lines[1..][k];
      }
    }
  }

  /** A line over the cap that is shown whole: the cap falls into a replacement character at its end. */
  predicate Unharmed(line: bytes, max: nat) {
    |line| <= max || (|line| >= 3 && line[|line| - 3..] == REPLACEMENT && |line| - 3 < max)
  }

  lemma {:induction false} NoNewlineIsOnePiece(s: bytes)
    requires Newlines(s) == 0
    ensures Split(s) == [s]
    decreases |s|
  {
    if s != [] {
      NoNewlineIsOnePiece(s[1..]);
      Uncons(s);
    }
  }

  lemma {:induction false} FirstPiece(s: bytes, i: nat)
    requires i < |s| && s[i] == NEWLINE && Newlines(s[..i]) == 0
    ensures Split(s) == [s[..i]] + Split(s[i + 1..])
    decreases i
  {
    if i == 0 {
      assert s[..0] == [];
    } else {
      assert s[..i][1..] == s[1..][..i - 1];
      FirstPiece(s[1..], i - 1);
      DropDrop(s, 1, i);
      assert [s[0]] + s[1..][..i - 1] == s[..i];
      Cons(s[1..][..i - 1], Split(s[i + 1..]));
    }
  }

  /** The lines of a valid text are valid. */
  lemma {:induction false} LinesAreUtf8(s: bytes)
    requires ValidUtf8(s)
    ensures forall k | 0 <= k < |Split(s)| :: ValidUtf8(Split(s)[k])
    decreases |s|
  {
    if Newlines(s) == 0 {
      NoNewlineIsOnePiece(s);
    } else {
      var i := FirstNewline(s);
      FirstPiece(s, i);
      Rejoin(s, i);
      CutAtAscii(s[..i], s[i..]);
      Uncons(s[i..]);
      DropDrop(s, i, 1);
      AsciiFirst(NEWLINE, s[i + 1..]);
      LinesAreUtf8(s[i + 1..]);
    }
  }

  lemma {:induction false} NonEmptyAreOf(lines: seq<bytes>)
    ensures forall k | 0 <= k < |NonEmpty(lines)| :: NonEmpty(lines)[k] in lines && NonEmpty(lines)[k] != []
    decreases |lines|
  {
    if lines != [] {
      NonEmptyAreOf(lines[1..]);
    }
  }

  lemma ShownLinesAreUtf8(raw: bytes)
    requires ValidUtf8(raw)
    ensures forall k | 0 <= k < |NonEmpty(Split(raw))| :: ValidUtf8(NonEmpty(Split(raw))[k])
  {
    LinesAreUtf8(raw);
    NonEmptyAreOf(Split(raw));
  }

  /** How a valid line is shown: whole, or as its longest whole-character prefix within the cap and one
      replacement character if a character was cut; at most two bytes over the cap. */
  lemma LineShown(line: bytes, max: nat) returns (j: nat)
    requires ValidUtf8(line)
    ensures |line| <= max ==> j == |line| && Lossy(Front(line, max)) == line
    ensures |line| > max ==>
      && LastBoundary(line, max, j) && |Lossy(Front(line, max))| <= max + 2
      && Lossy(Front(line, max)) == line[..j] + (if j < max then REPLACEMENT else [])
    ensures Lossy(Front(line, max)) == line <==> Unharmed(line, max)
  {
    if |line| <= max {
      LossyExact(line);
      j := |line|;
    } else {
      j := LossyOfCut(line, max);
      CutUnseen(line, max);
    }
  }

  /** Without the flag every line is shown whole; with it all lines are only if each one over the cap ends in
      a replacement character that the cap falls into. */
  lemma CappedIsFlagged(raw: bytes, max: nat)
    requires ValidUtf8(raw)
    ensures !SplitAndCap(raw, max).1 ==> SplitAndCap(raw, max).0 == NonEmpty(Split(raw))
    ensures SplitAndCap(raw, max).0 == NonEmpty(Split(raw))
       <==> forall k | 0 <= k < |NonEmpty(Split(raw))| :: Unharmed(NonEmpty(Split(raw))[k], max)
  {
    var all := NonEmpty(Split(raw));
    var shown := Texts(all, max);
    ShownLinesAreUtf8(raw);
    forall k | 0 <= k < |all|
      ensures shown[k] == all[k] <==> Unharmed(all[k], max)
    {
      var j := LineShown(all[k], max);
    }
  }

  /** Lines are the pieces between newlines, without the empty one behind a final newline. */
  lemma LinesArePieces(s: bytes)
    ensures Lines(s) == |Split(s)| - if s == [] || s[|s| - 1] == NEWLINE then 1 else 0
  {
    SplitJoins(s);
  }

  /** The last lines, written out: what is left from some line's start on, as many lines as exist but at most `n`. */
  lemma {:induction false} LastLinesExactly(s: bytes, n: nat) returns (start: nat)
    ensures start <= |s| && LastLines(s, n) == s[start..]
    ensures n > 0 ==> TailStart(s, n, start)
    ensures n == 0 ==> start == |s|
    decreases |s|
  {
    if n == 0 {
      NoLines(s);
      start := |s|;
    } else if s == [] || Lines(s) <= n {
      start := 0;
      assert s[0..] == s;
    } else {
      SomeNewline(s);
      var i := FirstNewline(s);
      var rest := s[i + 1..];
      var more := LastLinesExactly(rest, n);
      FewerLines(s, i);
      start := i + 1 + more;
      DropDrop(s, i + 1, more);
    }
  }

  lemma SomeNewline(s: bytes)
    requires Lines(s) > 1
    ensures Newlines(s) > 0
  {
  }

  // ---- The tail of a file

  datatype Reason = Rows | Bytes | LineBytes

  datatype TailOutput = TailOutput(lines: seq<bytes>, truncatedAt: seq<Reason>, size: nat)

  datatype TailError = NotUtf8

  /** The bytes of the last lines that are kept: the first `maxTotal` of them. */
  function Kept(file: bytes, lines: nat, maxTotal: nat): bytes {
    Front(LastLines(file, lines), maxTotal)
  }

  lemma FrontOfFront(s: bytes, max: nat)
    ensures Front(Front(s, max + 1), max) == Front(s, max)
    ensures |Front(s, max + 1)| > max <==> |s| > max
  {
  }

  method ReadTailBytes(file: bytes, lines: nat, maxTotal: nat) returns (raw: bytes)
    ensures raw == Front(LastLines(file, lines), maxTotal + 1)
  {
    if lines == 0 {
      NoLines(file);
      return [];
    }
    if |file| == 0 {
      return [];
    }
    var start := TailStartOffset(file, lines, READ_CHUNK_BYTES);
    TailStartIsLastLines(file, lines, start);
    raw := Front(file[start..], maxTotal + 1);
  }

  lemma {:induction false} NoLines(s: bytes)
    ensures LastLines(s, 0) == []
    decreases |s|
  {
    if s != [] {
      if Newlines(s) == 0 {
        NoNewlineLeft(s);
        AfterOnlyLine(s);
      }
      NoLines(AfterFirstLine(s));
    }
  }

  lemma {:induction false} AfterOnlyLine(s: bytes)
    requires Newlines(s) == 0
    ensures AfterFirstLine(s) == []
    decreases |s|
  {
    if s != [] {
      AfterOnlyLine(s[1..]);
    }
  }

  /** The lines of the kept bytes; `Bytes` is flagged exactly when the last lines exceed the cap, and a cut
      inside a character is an error. */
  method Tail(file: bytes, lines: nat, maxTotal: nat, maxLine: nat) returns (r: Outcome<TailOutput, TailError>)
    ensures var last := LastLines(file, if lines < 10_000 then lines else 10_000);
      var kept := if |last| <= maxTotal then last else last[..maxTotal];
      if !ValidUtf8(kept) then r == Err(NotUtf8)
      else
        && r.Ok? && r.value.lines == SplitAndCap(kept, maxLine).0 && r.value.size == |kept|
        && r.value.truncatedAt == (if |last| > maxTotal then [Bytes] else [])
                                  + (if SplitAndCap(kept, maxLine).1 then [LineBytes] else [])
  {
    var n := if lines < HARD_CAP_LINES then lines else HARD_CAP_LINES;
    var raw := ReadTailBytes(file, n, maxTotal);
    FrontOfFront(LastLines(file, n), maxTotal);
    var truncatedAt := [];
    if |raw| > maxTotal {
      truncatedAt := [Bytes];
      raw := raw[..maxTotal];
    }
    if !ValidUtf8(raw) {
      return Err(NotUtf8);
    }
    var split := SplitAndCap(raw, maxLine);
    if split.1 {
      truncatedAt := truncatedAt + [LineBytes];
    }
    r := Ok(TailOutput(split.0, truncatedAt, |raw|));
  }

  lemma {:induction false} LastLinesFollowNewline(s: bytes, n: nat) returns (front: bytes)
    ensures s == front + LastLines(s, n)
    ensures front != [] ==> front[|front| - 1] == NEWLINE || LastLines(s, n) == []
    decreases |s|
  {
    if s == [] || Lines(s) <= n {
      front := [];
      assert [] + s == s;
    } else if Newlines(s) == 0 {
      AfterOnlyLine(s);
      front := s;
      assert s + [] == s;
    } else {
      var i := FirstNewline(s);
      var more := LastLinesFollowNewline(s[i + 1..], n);
      front := s[..i + 1] + more;
      Rejoin(s, i + 1);
      Associates(s[..i + 1], more, LastLines(s, n));
    }
  }

  /** A valid log's last lines are valid text. */
  lemma LastLinesKeepUtf8(s: bytes, n: nat)
    requires ValidUtf8(s)
    ensures ValidUtf8(LastLines(s, n))
  {
    var front := LastLinesFollowNewline(s, n);
    var last := LastLines(s, n);
    if front == [] {
      assert [] + last == last;
    } else if last != [] {
      var a := front[..|front| - 1];
      assert front == a + [NEWLINE];
      Associates(a, [NEWLINE], last);
      CutAtAscii(a, [NEWLINE] + last);
      Cons(NEWLINE, last);
    }
  }

  /** For a valid log the tail fails exactly when the last lines exceed the cap and the first byte behind
      the cap continues a character. */
  lemma TailFailsOnlyInsideCharacter(s: bytes, n: nat, maxTotal: nat)
    requires ValidUtf8(s)
    ensures !ValidUtf8(Kept(s, n, maxTotal)) <==>
      var last := LastLines(s, n);
      0 < maxTotal < |last| && Continuation(last[maxTotal])
  {
    LastLinesKeepUtf8(s, n);
    if maxTotal < |LastLines(s, n)| {
      BoundaryExact(LastLines(s, n), maxTotal);
    }
  }

  /** Such logs exist: a valid two-byte character under a cap of one byte cannot be tailed. */
  lemma CutCharacterFails()
    ensures ValidUtf8([0xc3, 0xa9]) && !ValidUtf8(Kept([0xc3, 0xa9], 1, 1))
  {
    var s: bytes := [0xc3, 0xa9];
    assert CharLength(s) == 2 && s[2..] == [];
    assert s[1..] == [0xa9] && s[1..][1..] == [];
    assert Newlines(s) == 0 && LastLines(s, 1) == s;
    assert s[..1] == [0xc3] && CharLength(s[..1]) == 0;
  }
}
