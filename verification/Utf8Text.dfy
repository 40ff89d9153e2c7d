/** Well-formed UTF-8 (RFC 3629 section 4), the check `std::str::from_utf8` makes. */
module Utf8Text {
  import opened Bounds
  import opened Sequences

  predicate Continuation(b: byte) {
    128 <= b < 192
  }

  /** The length of the well-formed character at the front of `s`, or 0. */
  function CharLength(s: bytes): (n: nat)
    ensures n <= |s| && n <= 4
    ensures forall i {:trigger s[i]} | 1 <= i < n :: s[i] >= 128
    ensures n > 1 ==> s[0] >= 128
    ensures s != [] && s[0] < 128 ==> n == 1
  {
    if s == [] then 0
    else if s[0] < 0x80 then 1
    else if |s| < 2 || !Continuation(s[1]) then 0
    else if 0xc2 <= s[0] <= 0xdf then 2
    else if |s| < 3 || !Continuation(s[2]) then 0
    else if s[0] == 0xe0 then (if s[1] >= 0xa0 then 3 else 0)
    else if 0xe1 <= s[0] <= 0xec || 0xee <= s[0] <= 0xef then 3
    else if s[0] == 0xed then (if s[1] < 0xa0 then 3 else 0)
    else if |s| < 4 || !Continuation(s[3]) then 0
    else if s[0] == 0xf0 then (if s[1] >= 0x90 then 4 else 0)
    else if 0xf1 <= s[0] <= 0xf3 then 4
    else if s[0] == 0xf4 then (if s[1] < 0x90 then 4 else 0)
    else 0
  }

  predicate ValidUtf8(s: bytes) {
    s == [] || (CharLength(s) > 0 && ValidUtf8(s[CharLength(s)..]))
  }

  /** The first character depends on its own bytes only. */
  lemma CharLengthPrefix(s: bytes, t: bytes, n: nat)
    requires n <= |s| && n <= |t| && s[..n] == t[..n] && n > 0
    ensures CharLength(s) == n <==> CharLength(t) == n
  {
    assert forall i | 0 <= i < n :: s[i] == s[..n][i] == t[..n][i] == t[i];
  }

  /** An ASCII byte never lies inside a character, so a text may be cut in front of one. */
  lemma {:induction false} CutAtAscii(a: bytes, s: bytes)
    requires s != [] && s[0] < 128
    ensures ValidUtf8(a + s) <==> ValidUtf8(a) && ValidUtf8(s)
    decreases |a|
  {
    if a == [] {
      assert a + s == s;
    } else {
      var t := a + s;
      var n := CharLength(t);
      assert t[|a|] == s[0];
      if n > 0 {
        assert t[..n] == a[..n];
        CharLengthPrefix(a, t, n);
        assert t[n..] == a[n..] + s;
        CutAtAscii(a[n..], s);
      } else {
        var k := CharLength(a);
        if k > 0 {
          assert t[..k] == a[..k];
          CharLengthPrefix(a, t, k);
        }
      }
    }
  }

  lemma AsciiFirst(b: byte, s: bytes)
    requires b < 128
    ensures ValidUtf8([b] + s) <==> ValidUtf8(s)
  {
    assert ([b] + s)[1..] == s;
  }

  /** The part of a text between two ASCII bytes, both included, is itself well formed. */
  lemma SliceAtAscii(before: bytes, open: byte, inner: bytes, close: byte, after: bytes)
    requires open < 128 && close < 128
    requires ValidUtf8(before + ([open] + (inner + ([close] + after))))
    ensures ValidUtf8([open] + (inner + [close]))
  {
    CutAtAscii(before, [open] + (inner + ([close] + after)));
    AsciiFirst(open, inner + ([close] + after));
    CutAtAscii(inner, [close] + after);
    SingleAscii(close);
    CutAtAscii(inner, [close]);
    AsciiFirst(open, inner + [close]);
  }

  lemma SingleAscii(b: byte)
    requires b < 128
    ensures ValidUtf8([b])
  {
    assert [b][1..] == [];
  }

  // ---- Cutting at any place

  predicate Boundary(s: bytes, i: nat)
    requires i <= |s|
  {
    i == 0 || i == |s| || !Continuation(s[i])
  }

  /** Inside the first character no position is a boundary. */
  lemma InsideIsNoBoundary(s: bytes, i: nat)
    requires 0 < i < CharLength(s)
    ensures Continuation(s[i])
  {
  }

  /** A valid text may be cut at the boundaries and nowhere else. */
  lemma {:induction false} BoundaryExact(s: bytes, i: nat)
    requires ValidUtf8(s) && i <= |s|
    ensures ValidUtf8(s[..i]) <==> Boundary(s, i)
    decreases |s|
  {
    if 0 < i {
      var n := CharLength(s);
      if i < n {
        InsideIsNoBoundary(s, i);
        FrontOfCharacter(s, i);
      } else {
        var rest := s[n..];
        BoundaryExact(rest, i - n);
        CharLengthPrefix(s, s[..i], n);
        assert s[..i][n..] == rest[..i - n];
        if i == n < |s| {
          FirstIsNoContinuation(rest);
        }
      }
    }
  }

  /** A valid text starts a character in any four bytes in a row. */
  lemma {:induction false} BoundaryIsNear(s: bytes, i: nat) returns (j: nat)
    requires ValidUtf8(s) && i <= |s|
    ensures j <= i && i - j < 4 && Boundary(s, j)
    decreases |s|
  {
    if i == 0 || i == |s| {
      j := i;
    } else {
      var n := CharLength(s);
      if i < n {
        j := 0;
      } else {
        j := BoundaryIsNear(s[n..], i - n);
        j := j + n;
        if j == n && n < |s| {
          FirstIsNoContinuation(s[n..]);
        }
      }
    }
  }

  lemma FirstIsNoContinuation(s: bytes)
    requires ValidUtf8(s) && s != []
    ensures !Continuation(s[0])
  {
  }

  /** Part of a character is no character, and all of it is one malformed piece. */
  lemma FrontOfCharacter(s: bytes, i: nat)
    requires 0 < i < CharLength(s)
    ensures CharLength(s[..i]) == 0 && BadLength(s[..i]) == i
  {
    assert forall k | 0 <= k < i :: s[..i][k] == s[k];
  }

  // ---- Lossy decoding

  /** The bytes allowed behind a first byte. */
  predicate SecondFits(first: byte, second: byte) {
    && Continuation(second)
    && (if first == 0xe0 then second >= 0xa0
        else if first == 0xed then second < 0xa0
        else if first == 0xf0 then second >= 0x90
        else if first == 0xf4 then second < 0x90
        else 0xe1 <= first <= 0xf3)
  }

  /** How many bytes of a malformed text one replacement character stands for: the longest beginning of a
      character, or one byte. */
  function BadLength(s: bytes): (n: nat)
    requires s != []
    ensures 0 < n <= |s|
  {
    if |s| < 2 || !SecondFits(s[0], s[1]) then 1
    else if |s| < 3 || s[0] < 0xf0 || !Continuation(s[2]) then 2
    else 3
  }

  /** More bytes can make the text one well-formed character. */
  ghost predicate Begins(part: bytes) {
    exists more: bytes :: more != [] && CharLength(part + more) == |part| + |more|
  }

  /** Two bytes begin a longer character exactly when the second fits the first. */
  lemma TwoBegin(part: bytes)
    requires |part| == 2
    ensures Begins(part) <==> SecondFits(part[0], part[1])
  {
    if SecondFits(part[0], part[1]) {
      var more: bytes := if part[0] < 0xf0 then [0x80] else [0x80, 0x80];
      var s := part + more;
      assert s[0] == part[0] && s[1] == part[1];
      assert CharLength(s) == |s|;
    }
    if more: bytes :| more != [] && CharLength(part + more) == |part| + |more| {
      var s := part + more;
      assert s[0] == part[0] && s[1] == part[1];
    }
  }

  /** Three bytes begin a character of four exactly when the first two do and the third continues it. */
  lemma ThreeBegin(part: bytes)
    requires |part| == 3
    ensures Begins(part) <==> part[0] >= 0xf0 && SecondFits(part[0], part[1]) && Continuation(part[2])
  {
    if part[0] >= 0xf0 && SecondFits(part[0], part[1]) && Continuation(part[2]) {
      var s := part + [0x80];
      assert s[0] == part[0] && s[1] == part[1] && s[2] == part[2];
      assert CharLength(s) == |s|;
    }
    if more: bytes :| more != [] && CharLength(part + more) == |part| + |more| {
      var s := part + more;
      assert s[0] == part[0] && s[1] == part[1] && s[2] == part[2];
    }
  }

  /** A malformed text's first piece is the longest part that begins a character, or one byte. */
  lemma BadLengthExactly(s: bytes)
    requires s != [] && CharLength(s) == 0
    ensures BadLength(s) > 1 ==> Begins(s[..BadLength(s)])
    ensures BadLength(s) < |s| ==> !Begins(s[..BadLength(s) + 1])
  {
    if |s| >= 2 {
      TwoBegin(s[..2]);
      if |s| >= 3 {
        ThreeBegin(s[..3]);
        if |s| >= 4 && BadLength(s) == 3 {
          NoFourBegin(s[..4]);
        }
      }
    }
  }

  lemma NoFourBegin(part: bytes)
    requires |part| == 4
    ensures !Begins(part)
  {
  }

  const REPLACEMENT: bytes := [0xef, 0xbf, 0xbd]

  /** `String::from_utf8_lossy`. */
  function Lossy(s: bytes): bytes {
    if s == [] then []
    else if CharLength(s) > 0 then s[..CharLength(s)] + Lossy(s[CharLength(s)..])
    else REPLACEMENT + Lossy(s[BadLength(s)..])
  }

  /** Characters may be put in front of a text. */
  lemma FirstCharacter(a: bytes, s: bytes)
    requires a != [] && CharLength(a) == |a|
    ensures ValidUtf8(a + s) <==> ValidUtf8(s)
  {
    assert (a + s)[..|a|] == a[..|a|];
    CharLengthPrefix(a, a + s, |a|);
    assert (a + s)[|a|..] == s;
  }

  lemma ReplacementIsCharacter(s: bytes)
    ensures CharLength(REPLACEMENT) == 3
    ensures ValidUtf8(REPLACEMENT + s) <==> ValidUtf8(s)
    ensures CharLength(REPLACEMENT + s) == 3
  {
    FirstCharacter(REPLACEMENT, s);
    assert (REPLACEMENT + s)[..3] == REPLACEMENT[..3];
    CharLengthPrefix(REPLACEMENT, REPLACEMENT + s, 3);
  }

  lemma GoodStep(s: bytes, n: nat, r: bytes)
    requires 0 < n == CharLength(s)
    ensures ValidUtf8(s[..n] + r) <==> ValidUtf8(r)
    ensures s[..n] + r == s <==> r == s[n..]
  {
    assert s[..n][..n] == s[..n];
    CharLengthPrefix(s, s[..n], n);
    FirstCharacter(s[..n], r);
    Halves(s[..n], r);
    Rejoin(s, n);
  }

  /** Lossy decoding gives valid text and changes exactly the texts that are not. */
  lemma {:induction false} LossyExact(s: bytes)
    ensures ValidUtf8(Lossy(s)) && (Lossy(s) == s <==> ValidUtf8(s))
    decreases |s|
  {
    if s != [] {
      var n := CharLength(s);
      if n > 0 {
        var rest := s[n..];
        LossyExact(rest);
        GoodStep(s, n, Lossy(rest));
      } else {
        var rest := s[BadLength(s)..];
        LossyExact(rest);
        ReplacementIsCharacter(Lossy(rest));
      }
    }
  }

  /** Where the last character of a cut text starts if the cut falls inside it, and the cut otherwise. */
  ghost predicate LastBoundary(s: bytes, i: nat, j: nat)
    requires i <= |s|
  {
    j <= i && i - j < 4 && Boundary(s, j) && forall k | j < k <= i :: !Boundary(s, k)
  }

  lemma LossyOfPart(s: bytes, i: nat)
    requires 0 < i < CharLength(s)
    ensures Lossy(s[..i]) == REPLACEMENT
  {
    FrontOfCharacter(s, i);
    assert s[..i][i..] == [];
    assert REPLACEMENT + [] == REPLACEMENT;
  }

  lemma LossyOfMore(s: bytes, n: nat, i: nat)
    requires 0 < n == CharLength(s) <= i <= |s|
    ensures Lossy(s[..i]) == s[..n] + Lossy(s[n..][..i - n])
  {
    var t := s[..i];
    assert t[..n] == s[..n] && t[n..] == s[n..][..i - n];
    CharLengthPrefix(s, t, n);
  }

  /** A valid text cut anywhere and decoded is its longest whole-character prefix, and one replacement
      character if a character was cut. */
  lemma {:induction false} LossyOfCut(s: bytes, i: nat) returns (j: nat)
    requires ValidUtf8(s) && i <= |s|
    ensures LastBoundary(s, i, j)
    ensures Lossy(s[..i]) == s[..j] + if j < i then REPLACEMENT else []
    decreases |s|
  {
    if i < CharLength(s) || i == 0 {
      j := 0;
      CutInFirst(s, i);
    } else {
      var n := CharLength(s);
      RestIsValid(s);
      var more := LossyOfCut(s[n..], i - n);
      j := n + more;
      CutLater(s, n, i, more, j);
    }
  }

  lemma RestIsValid(s: bytes)
    requires ValidUtf8(s) && s != []
    ensures CharLength(s) > 0 && ValidUtf8(s[CharLength(s)..])
  {
  }

  lemma CutLater(s: bytes, n: nat, i: nat, more: nat, j: nat)
    requires ValidUtf8(s) && 0 < n == CharLength(s) <= i <= |s| && j == n + more
    requires LastBoundary(s[n..], i - n, more)
    requires Lossy(s[n..][..i - n]) == s[n..][..more] + if more < i - n then REPLACEMENT else []
    ensures LastBoundary(s, i, j) && Lossy(s[..i]) == s[..j] + if j < i then REPLACEMENT else []
  {
    Shifted(s, n, i, more);
    LossyShifted(s, n, i, more, if more < i - n then REPLACEMENT else []);
  }

  lemma CutInFirst(s: bytes, i: nat)
    requires i <= |s| && (i < CharLength(s) || i == 0)
    ensures LastBoundary(s, i, 0) && Lossy(s[..i]) == s[..0] + if 0 < i then REPLACEMENT else []
  {
    if i > 0 {
      LossyOfPart(s, i);
      InsideIsNoBoundaryUpTo(s, i);
      assert [] + REPLACEMENT == REPLACEMENT;
    }
  }

  lemma InsideIsNoBoundaryUpTo(s: bytes, i: nat)
    requires 0 < i < CharLength(s)
    ensures LastBoundary(s, i, 0)
  {
    forall k | 0 < k <= i
      ensures !Boundary(s, k)
    {
      InsideIsNoBoundary(s, k);
    }
  }

  lemma LossyShifted(s: bytes, n: nat, i: nat, more: nat, end: bytes)
    requires 0 < n == CharLength(s) <= i <= |s| && more <= i - n && Lossy(s[n..][..i - n]) == s[n..][..more] + end
    ensures Lossy(s[..i]) == s[..n + more] + end
  {
    LossyOfMore(s, n, i);
    Associates(s[..n], s[n..][..more], end);
    assert s[..n] + s[n..][..more] == s[..n + more];
  }

  lemma Shifted(s: bytes, n: nat, i: nat, more: nat)
    requires ValidUtf8(s) && n == CharLength(s) <= i <= |s| && LastBoundary(s[n..], i - n, more)
    ensures LastBoundary(s, i, n + more)
  {
    if n < |s| {
      FirstIsNoContinuation(s[n..]);
    }
    forall k | n + more < k <= i
      ensures !Boundary(s, k)
    {
      assert !Boundary(s[n..], k - n);
    }
  }

  lemma EndsInReplacement(s: bytes, i: nat, j: nat)
    requires |s| >= 3 && s[|s| - 3..] == REPLACEMENT && |s| - 3 < i < |s| && LastBoundary(s, i, j)
    ensures j == |s| - 3
  {
    assert forall k: nat | k < 3 :: s[|s| - 3 + k] == s[|s| - 3..][k] == REPLACEMENT[k];
    assert Boundary(s, |s| - 3) && !Boundary(s, |s| - 2) && !Boundary(s, |s| - 1);
  }

  /** Decoding a cut text gives back the whole text exactly when the cut falls into a replacement character
      that ends it. */
  lemma CutUnseen(s: bytes, i: nat)
    requires ValidUtf8(s) && i < |s|
    ensures Lossy(s[..i]) == s <==> |s| >= 3 && s[|s| - 3..] == REPLACEMENT && |s| - 3 < i
    ensures |Lossy(s[..i])| <= i + 2
  {
    var j := LossyOfCut(s, i);
    Rejoin(s, j);
    if |s| >= 3 && s[|s| - 3..] == REPLACEMENT && |s| - 3 < i {
      EndsInReplacement(s, i, j);
    } else if Lossy(s[..i]) == s {
      Halves(s[..j], if j < i then REPLACEMENT else []);
      assert false;
    }
  }
}
