/** The newline-delimited frame accumulator and the read loop that fills it
    (crates/gaze-lens-protocol/src/bounds.rs, crates/gaze-lens-server/src/service.rs). */
module Frames {
  import opened Bounds
  import opened Sequences
  import opened Wrappers

  const NEWLINE: byte := 10

  /** What a buffer holds, as a value. */
  datatype Frame = Frame(bytes: bytes, max: nat, finished: bool, failed: bool)

  /** A frame ends with its only newline. */
  predicate IsFrame(s: bytes) {
    s != [] && s[|s| - 1] == NEWLINE && NEWLINE !in s[..|s| - 1]
  }

  function Pushed(f: Frame, chunk: bytes): (Frame, Result<bool>) {
    if f.finished || f.failed then (f.(failed := true), Err(InvalidRequest))
    else if |f.bytes| + |chunk| > f.max then (f.(failed := true), Err(CapExceeded))
    else if NEWLINE in chunk && !IsFrame(chunk) then (f.(failed := true), Err(InvalidRequest))
    else (f.(bytes := f.bytes + chunk, finished := NEWLINE in chunk), Ok(NEWLINE in chunk))
  }

  function Finished(f: Frame): Result<bytes> {
    if f.finished && !f.failed then Ok(f.bytes) else Err(InvalidRequest)
  }

  class FrameBuffer {
    var bytes: bytes
    const max: nat
    var finished: bool
    var failed: bool

    /** `new` with its check already made: see `Create`. */
    constructor (max: nat)
      ensures State() == Frame([], max, false, false)
    {
      bytes, this.max, finished, failed := [], max, false, false;
    }

    function State(): Frame
      reads this
    {
      Frame(bytes, max, finished, failed)
    }

    method Push(chunk: bytes) returns (r: Result<bool>)
      modifies this
      ensures (State(), r) == Pushed(old(State()), chunk)
      ensures r.Ok? <==>
        && !old(finished) && !old(failed) && |old(bytes)| + |chunk| <= max
        && forall k | 0 <= k < |chunk| && chunk[k] == 10 :: k == |chunk| - 1
      ensures r.Ok? ==> bytes == old(bytes) + chunk && !failed && finished == r.value == (10 in chunk)
      ensures r.Err? ==> bytes == old(bytes) && failed && finished == old(finished)
      ensures r.Err? ==>
        r.error == if !old(finished) && !old(failed) && |old(bytes)| + |chunk| > max then CapExceeded else InvalidRequest
    {
      if finished || failed {
        failed := true;
        return Err(InvalidRequest);
      }
      failed := true;
      FrameMeans(chunk);
      var size := |bytes| + |chunk|;
      var _ :- Cap(size, max);
      var i := Position(chunk);
      if i < |chunk| {
        assert chunk[i] == NEWLINE;
        assert IsFrame(chunk) <==> i + 1 == |chunk| by {
          NewlineAt(chunk, i);
        }
        var _ :- Require(i + 1 == |chunk|);
        finished := true;
      }
      bytes := bytes + chunk;
      failed := false;
      return Ok(finished);
    }

    method Finish() returns (r: Result<bytes>)
      ensures r == Finished(State())
    {
      var _ :- Require(finished && !failed);
      return Ok(bytes);
    }
  }

  method Create(max: nat) returns (r: Result<FrameBuffer>)
    ensures r.Ok? <==> 0 < max <= FRAME_BYTES
    ensures r.Ok? ==> fresh(r.value) && r.value.State() == Frame([], max, false, false)
    ensures r.Err? ==> r.error == InvalidRequest
  {
    var _ :- Require(max > 0 && max <= FRAME_BYTES);
    var buffer := new FrameBuffer(max);
    return Ok(buffer);
  }

  /** The index of the first newline, or the length. */
  method Position(chunk: bytes) returns (i: nat)
    ensures i <= |chunk| && NEWLINE !in chunk[..i] && (i < |chunk| ==> chunk[i] == NEWLINE)
    ensures i < |chunk| <==> NEWLINE in chunk
  {
    i := 0;
    while i < |chunk| && chunk[i] != NEWLINE
      invariant i <= |chunk| && forall k | 0 <= k < i :: chunk[k] != NEWLINE
    {
      i := i + 1;
    }
  }

  lemma NewlineAt(s: bytes, i: nat)
    requires i < |s| && s[i] == NEWLINE && NEWLINE !in s[..i]
    ensures IsFrame(s) <==> i + 1 == |s|
  {
    assert i + 1 < |s| ==> s[..|s| - 1][i] == s[i];
  }

  lemma FrameMeans(s: bytes)
    ensures (NEWLINE in s ==> IsFrame(s)) <==> forall k | 0 <= k < |s| && s[k] == 10 :: k == |s| - 1
  {
    if IsFrame(s) {
      assert forall k | 0 <= k < |s| - 1 :: s[k] == s[..|s| - 1][k];
    }
  }

  // ---- Every way of cutting a stream into chunks

  function Run(f: Frame, chunks: seq<bytes>): Frame
    decreases |chunks|
  {
    if chunks == [] then f else Run(Pushed(f, chunks[0]).0, chunks[1..])
  }

  function Concat(chunks: seq<bytes>): bytes {
    if chunks == [] then [] else chunks[0] + Concat(chunks[1..])
  }

  /** After an error, or anything pushed after completion, the buffer never finishes. */
  lemma {:induction false} FailureLatches(f: Frame, chunks: seq<bytes>)
    requires f.failed
    ensures Run(f, chunks) == f
    decreases chunks
  {
    if chunks != [] {
      FailureLatches(f, chunks[1..]);
    }
  }

  lemma CompletionIsFinal(f: Frame, chunks: seq<bytes>)
    requires f.finished && chunks != []
    ensures Finished(Run(f, chunks)).Err?
  {
    FailureLatches(f.(failed := true), chunks[1..]);
  }

  lemma InEither(a: bytes, b: bytes, x: byte)
    ensures x in a + b <==> x in a || x in b
  {
    if x in b {
      var i :| 0 <= i < |b| && b[i] == x;
      assert (a + b)[|a| + i] == x;
    }
    if x in a {
      var i :| 0 <= i < |a| && a[i] == x;
      assert (a + b)[i] == x;
    }
  }

  /** Text without a newline in front of a stream does not change whether it is a frame. */
  lemma FrameTail(a: bytes, s: bytes)
    ensures NEWLINE !in a && s != [] ==> (IsFrame(a + s) <==> IsFrame(s))
    ensures NEWLINE in a && s != [] ==> !IsFrame(a + s)
  {
    if s != [] {
      var t := a + s;
      assert t[..|t| - 1] == a + s[..|s| - 1];
      InEither(a, s[..|s| - 1], NEWLINE);
      assert t[|t| - 1] == s[|s| - 1];
    }
  }

  lemma {:induction false} RunExact(f: Frame, chunks: seq<bytes>)
    requires !f.finished && !f.failed && |f.bytes| <= f.max
    ensures var s := Concat(chunks);
      Finished(Run(f, chunks))
      == if |f.bytes| + |s| <= f.max && IsFrame(s) && chunks[|chunks| - 1] != [] then Ok(f.bytes + s)
         else Err(InvalidRequest)
    decreases chunks
  {
    var s := Concat(chunks);
    if chunks != [] {
      var chunk, rest := chunks[0], chunks[1..];
      var tail := Concat(rest);
      var (g, r) := Pushed(f, chunk);
      FrameTail(chunk, tail);
      assert tail == [] ==> s == chunk;
      if r.Err? {
        FailureLatches(g, rest);
      } else if g.finished {
        if rest == [] {
          assert f.bytes + s == g.bytes;
        } else {
          CompletionIsFinal(g, rest);
          if tail == [] {
            TrailingEmpty(rest);
          }
        }
      } else {
        RunExact(g, rest);
        Associates(f.bytes, chunk, tail);
      }
    }
  }

  lemma {:induction false} TrailingEmpty(chunks: seq<bytes>)
    requires chunks != [] && Concat(chunks) == []
    ensures chunks[|chunks| - 1] == []
    decreases chunks
  {
    if |chunks| > 1 {
      TrailingEmpty(chunks[1..]);
    }
  }

  /** A buffer finishes with the pushed stream exactly when the stream is one frame
      within the limit and nothing, not even an empty chunk, follows its completion. */
  lemma FrameExact(max: nat, chunks: seq<bytes>, frame: bytes)
    ensures Finished(Run(Frame([], max, false, false), chunks)) == Ok(frame)
      <==> frame == Concat(chunks) && |frame| <= max && IsFrame(frame) && chunks[|chunks| - 1] != []
  {
    RunExact(Frame([], max, false, false), chunks);
    assert [] + Concat(chunks) == Concat(chunks);
  }

  /** The outcome depends on the stream alone when no chunk is empty, as reads from a socket are. */
  lemma ChunkingIrrelevant(max: nat, a: seq<bytes>, b: seq<bytes>)
    requires Concat(a) == Concat(b) && [] !in a && [] !in b
    ensures Finished(Run(Frame([], max, false, false), a)) == Finished(Run(Frame([], max, false, false), b))
  {
    RunExact(Frame([], max, false, false), a);
    RunExact(Frame([], max, false, false), b);
  }

  // ---- The server's read loop

  /** The first `n` chunks are non-empty and are one frame within the limit. */
  ghost predicate Delivers(chunks: seq<bytes>, n: nat, max: nat) {
    && n <= |chunks| && [] !in chunks[..n]
    && |Concat(chunks[..n])| <= max && IsFrame(Concat(chunks[..n]))
  }

  lemma {:induction false} RunAppends(f: Frame, a: seq<bytes>, b: seq<bytes>)
    ensures Run(f, a + b) == Run(Run(f, a), b)
    decreases a
  {
    if a == [] {
      assert a + b == b;
    } else {
      assert (a + b)[1..] == a[1..] + b;
      RunAppends(Pushed(f, a[0]).0, a[1..], b);
    }
  }

  lemma RunNext(f: Frame, chunks: seq<bytes>, i: nat)
    requires i < |chunks|
    ensures Run(f, chunks[..i + 1]) == Pushed(Run(f, chunks[..i]), chunks[i]).0
  {
    assert chunks[..i + 1] == chunks[..i] + [chunks[i]];
    RunAppends(f, chunks[..i], [chunks[i]]);
    assert [chunks[i]][1..] == [];
  }

  lemma DeliversExact(chunks: seq<bytes>, n: nat, max: nat)
    requires n <= |chunks|
    ensures Delivers(chunks, n, max)
      <==> [] !in chunks[..n] && Finished(Run(Frame([], max, false, false), chunks[..n])).Ok?
    ensures Delivers(chunks, n, max)
      ==> Finished(Run(Frame([], max, false, false), chunks[..n])) == Ok(Concat(chunks[..n]))
  {
    var p := chunks[..n];
    RunExact(Frame([], max, false, false), p);
    assert [] + Concat(p) == Concat(p);
    if p != [] {
      assert p[|p| - 1] in p;
    }
  }

  /** Once the buffer has failed or finished, no longer prefix delivers. */
  lemma NothingLater(chunks: seq<bytes>, i: nat, n: nat, max: nat)
    requires i < n <= |chunks|
    requires var g := Run(Frame([], max, false, false), chunks[..i]); g.failed || g.finished
    ensures !Delivers(chunks, n, max)
  {
    var f := Frame([], max, false, false);
    var tail := chunks[i..n];
    assert chunks[..n] == chunks[..i] + tail;
    RunAppends(f, chunks[..i], tail);
    DeliversExact(chunks, n, max);
    if Run(f, chunks[..i]).failed {
      FailureLatches(Run(f, chunks[..i]), tail);
    } else {
      CompletionIsFinal(Run(f, chunks[..i]), tail);
    }
  }

  lemma EmptyChunkEnds(chunks: seq<bytes>, i: nat, n: nat, max: nat)
    requires i < n <= |chunks| && chunks[i] == []
    ensures !Delivers(chunks, n, max)
  {
    assert chunks[..n][i] == [];
  }

  /** `chunks` are the reads the peer's bytes arrive in; an empty read is its end of file.
      The loop succeeds exactly when some prefix of the reads is one frame, and yields that frame. */
  method ReadFrame(max: nat, chunks: seq<bytes>) returns (r: Result<bytes>)
    ensures r.Ok? ==> 0 < max <= FRAME_BYTES && exists n: nat | Delivers(chunks, n, max) :: r.value == Concat(chunks[..n])
    ensures 0 < max <= FRAME_BYTES ==> forall n: nat | Delivers(chunks, n, max) :: r == Ok(Concat(chunks[..n]))
  {
    ghost var f := Frame([], max, false, false);
    var buffer :- Create(max);
    for i := 0 to |chunks|
      invariant fresh(buffer) && buffer.State() == Run(f, chunks[..i]) && !buffer.finished && !buffer.failed
      invariant [] !in chunks[..i]
      invariant forall n: nat | n <= i :: !Delivers(chunks, n, max)
    {
      if chunks[i] == [] {
        forall n | i < n <= |chunks| ensures !Delivers(chunks, n, max) {
          EmptyChunkEnds(chunks, i, n, max);
        }
        return Err(InvalidRequest);
      }
      RunNext(f, chunks, i);
      DeliversExact(chunks, i + 1, max);
      var done := buffer.Push(chunks[i]);
      if done.Err? || done.value {
        forall n | i + 1 < n <= |chunks| ensures !Delivers(chunks, n, max) {
          NothingLater(chunks, i + 1, n, max);
        }
      }
      if done.Err? {
        return Err(done.error);
      }
      if done.value {
        r := buffer.Finish();
        NonEmptyPrefix(chunks, i, max);
        return r;
      }
    }
    return Err(InvalidRequest);
  }

  /** A buffer that was still open after `i` reads and is complete after a non-empty one more delivers. */
  lemma NonEmptyPrefix(chunks: seq<bytes>, i: nat, max: nat)
    requires i < |chunks|
    requires var g := Run(Frame([], max, false, false), chunks[..i + 1]); g.finished && !g.failed
    requires [] !in chunks[..i + 1]
    ensures Delivers(chunks, i + 1, max)
    ensures Finished(Run(Frame([], max, false, false), chunks[..i + 1])) == Ok(Concat(chunks[..i + 1]))
  {
    DeliversExact(chunks, i + 1, max);
  }
}
