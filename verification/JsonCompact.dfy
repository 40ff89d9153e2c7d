/** The whitespace remover applied to admitted source JSON
    (crates/gaze-lens-protocol/src/value.rs). */
module JsonCompact {
  import opened Bounds
  import opened Sequences
  import opened JsonGrammar
  import opened JsonScan
  import opened Utf8Text

  /** The output for `s`, inside or outside a string, possibly just after a backslash. */
  function Compacted(s: bytes, quoted: bool, escaped: bool): (r: bytes)
    ensures |r| <= |s|
  {
    if s == [] then []
    else if quoted then
      [s[0]] + Compacted(s[1..], escaped || s[0] == BACKSLASH || s[0] != QUOTE, !escaped && s[0] == BACKSLASH)
    else if IsBlank(s[0]) then Compacted(s[1..], false, escaped)
    else [s[0]] + Compacted(s[1..], s[0] == QUOTE, escaped)
  }

  method CompactJson(s: bytes) returns (out: bytes)
    ensures out == Compacted(s, false, false)
  {
    out := [];
    var quoted, escaped := false, false;
    for i := 0 to |s|
      invariant out + Compacted(s[i..], quoted, escaped) == Compacted(s, false, false)
    {
      var c := s[i];
      DropDrop(s, i, 1);
      ghost var before, q, e := out, quoted, escaped;
      if quoted {
        out := out + [c];
        if escaped {
          escaped := false;
        } else if c == BACKSLASH {
          escaped := true;
        } else if c == QUOTE {
          quoted := false;
        }
      } else if !IsBlank(c) {
        out := out + [c];
        quoted := c == QUOTE;
      }
      Associates(before, [c], Compacted(s[i + 1..], quoted, escaped));
    }
    assert out + [] == out;
  }

  // ---- What compaction does to a tree

  function Strip(t: Json): Json
    decreases t, 0
  {
    match t
    case Empty(keyed, _) => Empty(keyed, [])
    case Full(keyed, elems) => Full(keyed, StripElems(elems))
    case _ => t
  }

  function StripElems(es: Elems): Elems
    decreases es, 1
  {
    match es
    case Last(head) => Last(StripElem(head))
    case More(head, tail) => More(StripElem(head), StripElems(tail))
  }

  function StripElem(e: Elem): Elem
    decreases e, 1
  {
    Elem(if e.name.NoName? then NoName else Name([], e.name.key, []), [], Strip(e.value), [])
  }

  lemma {:induction false} CompactBlank(lead: bytes, s: bytes)
    requires Blank(lead)
    ensures Compacted(lead + s, false, false) == Compacted(s, false, false)
    decreases lead
  {
    if lead == [] {
      assert lead + s == s;
    } else {
      assert (lead + s)[1..] == lead[1..] + s;
      CompactBlank(lead[1..], s);
    }
  }

  lemma {:induction false} CompactToken(token: bytes, s: bytes)
    requires Undelimited(token)
    ensures Compacted(token + s, false, false) == token + Compacted(s, false, false)
    decreases token
  {
    if token == [] {
      assert token + s == s && token + Compacted(s, false, false) == Compacted(s, false, false);
    } else {
      assert (token + s)[1..] == token[1..] + s;
      CompactToken(token[1..], s);
      Associates([token[0]], token[1..], Compacted(s, false, false));
      Uncons(token);
    }
  }

  lemma CompactByte(b: byte, s: bytes)
    requires b != QUOTE && !IsBlank(b)
    ensures Compacted([b] + s, false, false) == [b] + Compacted(s, false, false)
  {
    Cons(b, s);
  }

  /** Bytes that are neither quotes nor backslashes are copied inside a string. */
  lemma {:induction false} CompactPlain(bs: bytes, s: bytes)
    requires QUOTE !in bs && BACKSLASH !in bs
    ensures Compacted(bs + s, true, false) == bs + Compacted(s, true, false)
    decreases bs
  {
    if bs == [] {
      assert bs + s == s && bs + Compacted(s, true, false) == Compacted(s, true, false);
    } else {
      assert (bs + s)[1..] == bs[1..] + s;
      CompactPlain(bs[1..], s);
      Associates([bs[0]], bs[1..], Compacted(s, true, false));
      Uncons(bs);
    }
  }

  /** A backslash and the byte after it are copied. */
  lemma CompactEscape(e: byte, s: bytes)
    ensures Compacted([BACKSLASH, e] + s, true, false) == [BACKSLASH, e] + Compacted(s, true, false)
  {
    var t := [BACKSLASH, e] + s;
    assert t[1..] == [e] + s && t[1..][1..] == s;
    assert Compacted(t[1..], true, true) == [e] + Compacted(s, true, false);
    Associates([BACKSLASH], [e], Compacted(s, true, false));
    assert [BACKSLASH] + [e] == [BACKSLASH, e];
  }

  lemma CompactQuad(q: Quad, s: bytes)
    requires WfQuad(q)
    ensures Compacted([BACKSLASH, 117] + (QuadBytes(q) + s), true, false)
         == [BACKSLASH, 117] + (QuadBytes(q) + Compacted(s, true, false))
  {
    CompactEscape(117, QuadBytes(q) + s);
    CompactPlain(QuadBytes(q), s);
  }

  lemma CompactChar(c: Char, s: bytes)
    requires WfChar(c)
    ensures Compacted(CharBytes(c) + s, true, false) == CharBytes(c) + Compacted(s, true, false)
  {
    match c
    case Raw(b) => CompactPlain([b], s);
    case Short(e) => CompactEscape(e, s);
    case Unicode(q) =>
      CompactQuad(q, s);
      UnicodeText(q, s);
      UnicodeText(q, Compacted(s, true, false));
    case Pair(high, low) => CompactPair(high, low, s);
  }

  lemma CompactPair(high: Quad, low: Quad, s: bytes)
    requires WfQuad(high) && WfQuad(low)
    ensures Compacted(CharBytes(Pair(high, low)) + s, true, false) == CharBytes(Pair(high, low)) + Compacted(s, true, false)
  {
    var u: bytes := [BACKSLASH, 117];
    PairText(high, low, s);
    CompactQuad(high, u + (QuadBytes(low) + s));
    CompactQuad(low, s);
    PairText(high, low, Compacted(s, true, false));
  }

  lemma {:induction false} CompactChars(cs: seq<Char>, rest: bytes)
    requires WfChars(cs)
    ensures Compacted(EmitChars(cs, rest), true, false) == EmitChars(cs, Compacted(rest, false, false))
    decreases |cs|
  {
    if cs == [] {
      Cons(QUOTE, rest);
    } else {
      CompactChars(cs[1..], rest);
      CompactChar(cs[0], EmitChars(cs[1..], rest));
    }
  }

  lemma CompactString(cs: seq<Char>, rest: bytes)
    requires WfChars(cs)
    ensures Compacted(EmitString(cs, rest), false, false) == EmitString(cs, Compacted(rest, false, false))
  {
    CompactChars(cs, rest);
    Cons(QUOTE, EmitChars(cs, rest));
  }

  /** Compacting the text of a tree yields the text of the tree without its blanks. */
  lemma {:induction false} CompactTree(t: Json, rest: bytes)
    requires Rfc(t)
    ensures Compacted(Emit(t, rest), false, false) == Emit(Strip(t), Compacted(rest, false, false))
    decreases t, 0
  {
    match t
    case Scalar(token) =>
      TokenShape(token);
      CompactToken(token, rest);
    case Text(chars) =>
      CompactString(chars, rest);
    case Empty(keyed, pad) =>
      var r := Compacted(rest, false, false);
      CompactByte(Close(keyed), rest);
      CompactBlank(pad, [Close(keyed)] + rest);
      CompactByte(Open(keyed), pad + ([Close(keyed)] + rest));
      assert [] + ([Close(keyed)] + r) == [Close(keyed)] + r;
    case Full(keyed, elems) =>
      CompactElems(elems, keyed, rest);
      CompactByte(Open(keyed), EmitElems(elems, keyed, rest));
  }

  lemma {:induction false} CompactElems(es: Elems, keyed: bool, rest: bytes)
    requires RfcElems(es, keyed)
    ensures Compacted(EmitElems(es, keyed, rest), false, false)
         == EmitElems(StripElems(es), keyed, Compacted(rest, false, false))
    decreases es, 1
  {
    if es.Last? {
      CompactByte(Close(keyed), rest);
      CompactElem(es.head, keyed, [Close(keyed)] + rest);
    } else {
      CompactElems(es.tail, keyed, rest);
      CompactByte(COMMA, EmitElems(es.tail, keyed, rest));
      CompactElem(es.head, keyed, [COMMA] + EmitElems(es.tail, keyed, rest));
    }
  }

  lemma {:induction false} CompactElem(e: Elem, keyed: bool, rest: bytes)
    requires WfName(e.name, keyed) && Blank(e.gap) && Rfc(e.value) && Blank(e.trail)
    ensures Compacted(EmitElem(e, rest), false, false) == EmitElem(StripElem(e), Compacted(rest, false, false))
    decreases e, 1
  {
    var r := Compacted(rest, false, false);
    CompactBlank(e.trail, rest);
    assert [] + r == r;
    CompactTree(e.value, e.trail + rest);
    var v := Emit(e.value, e.trail + rest);
    CompactBlank(e.gap, v);
    CompactName(e.name, keyed, e.gap + v);
    assert [] + Emit(Strip(e.value), r) == Emit(Strip(e.value), r);
  }

  lemma CompactName(n: Name, keyed: bool, rest: bytes)
    requires WfName(n, keyed)
    ensures Compacted(EmitName(n, rest), false, false)
         == EmitName(if n.NoName? then NoName else Name([], n.key, []), Compacted(rest, false, false))
  {
    if keyed {
      var r := Compacted(rest, false, false);
      var t := [COLON] + rest;
      CompactByte(COLON, rest);
      CompactBlank(n.after, t);
      CompactString(n.key, n.after + t);
      CompactBlank(n.before, EmitString(n.key, n.after + t));
      assert [] + ([COLON] + r) == [COLON] + r;
      assert [] + EmitString(n.key, [COLON] + r) == EmitString(n.key, [COLON] + r);
    }
  }

  // ---- Tokens

  /** The lexemes of a text, punctuation included, in order. */
  function Tokens(t: Json): seq<bytes>
    decreases t, 0
  {
    match t
    case Scalar(token) => [token]
    case Text(chars) => [EmitString(chars, [])]
    case Empty(keyed, _) => [[Open(keyed)], [Close(keyed)]]
    case Full(keyed, elems) => [[Open(keyed)]] + TokensOf(elems, keyed)
  }

  function TokensOf(es: Elems, keyed: bool): seq<bytes>
    decreases es, 1
  {
    (if es.head.name.NoName? then [] else [EmitString(es.head.name.key, []), [COLON]])
    + Tokens(es.head.value)
    + (if es.Last? then [[Close(keyed)]] else [[COMMA]] + TokensOf(es.tail, keyed))
  }

  function Join(ts: seq<bytes>): bytes {
    if ts == [] then [] else ts[0] + Join(ts[1..])
  }

  lemma {:induction false} JoinAppends(a: seq<bytes>, b: seq<bytes>)
    ensures Join(a + b) == Join(a) + Join(b)
    decreases a
  {
    if a == [] {
      assert a + b == b && Join(a) + Join(b) == Join(b);
    } else {
      assert (a + b)[1..] == a[1..] + b;
      JoinAppends(a[1..], b);
      Associates(a[0], Join(a[1..]), Join(b));
    }
  }

  lemma JoinCons(t: bytes, ts: seq<bytes>)
    ensures Join([t] + ts) == t + Join(ts)
  {
    Cons(t, ts);
  }

  /** Stripping changes no token, and a stripped tree's text is its tokens and nothing else. */
  lemma {:induction false} StripKeepsTokens(t: Json, rest: bytes)
    ensures Tokens(Strip(t)) == Tokens(t)
    ensures Emit(Strip(t), rest) == Join(Tokens(t)) + rest
    decreases t, 0
  {
    match t
    case Scalar(token) =>
      JoinCons(token, []);
      assert token + [] == token;
    case Text(chars) =>
      var x := EmitString(chars, []);
      JoinCons(x, []);
      assert x + [] == x;
      EmitCharsSplits(chars, [], rest);
      Associates([QUOTE], EmitChars(chars, []), rest);
    case Empty(keyed, pad) =>
      assert Tokens(t)[1..] == [[Close(keyed)]];
      assert Join([[Close(keyed)]]) == [Close(keyed)] + [];
      assert Join(Tokens(t)) + rest == [Open(keyed)] + ([] + ([Close(keyed)] + rest));
    case Full(keyed, elems) =>
      StripKeepsTokensOf(elems, keyed, rest);
      JoinCons([Open(keyed)], TokensOf(elems, keyed));
      Associates([Open(keyed)], Join(TokensOf(elems, keyed)), rest);
  }

  lemma {:induction false} StripKeepsTokensOf(es: Elems, keyed: bool, rest: bytes)
    ensures TokensOf(StripElems(es), keyed) == TokensOf(es, keyed)
    ensures EmitElems(StripElems(es), keyed, rest) == Join(TokensOf(es, keyed)) + rest
    decreases es, 1
  {
    var e := es.head;
    var name := if e.name.NoName? then [] else [EmitString(e.name.key, []), [COLON]];
    var end := if es.Last? then [[Close(keyed)]] else [[COMMA]] + TokensOf(es.tail, keyed);
    var after := if es.Last? then [Close(keyed)] + rest else [COMMA] + EmitElems(StripElems(es.tail), keyed, rest);
    if es.More? {
      StripKeepsTokensOf(es.tail, keyed, rest);
      JoinCons([COMMA], TokensOf(es.tail, keyed));
      Associates([COMMA], Join(TokensOf(es.tail, keyed)), rest);
    } else {
      JoinCons([Close(keyed)], []);
      assert [Close(keyed)] + [] == [Close(keyed)];
    }
    assert after == Join(end) + rest;
    StripKeepsTokens(e.value, after);
    JoinAppends(name + Tokens(e.value), end);
    JoinAppends(name, Tokens(e.value));
    StripName(e.name, Join(Tokens(e.value)) + after);
    assert [] + after == after && [] + Emit(Strip(e.value), after) == Emit(Strip(e.value), after);
    Regroup(Join(name), Join(Tokens(e.value)), Join(end), rest);
  }

  lemma Regroup(a: bytes, b: bytes, c: bytes, d: bytes)
    ensures ((a + b) + c) + d == a + (b + (c + d))
  {
    Associates(a + b, c, d);
    Associates(a, b, c + d);
  }

  lemma StripName(n: Name, rest: bytes)
    ensures EmitName(if n.NoName? then NoName else Name([], n.key, []), rest)
         == Join(if n.NoName? then [] else [EmitString(n.key, []), [COLON]]) + rest
  {
    if n.NoName? {
      assert Join([]) + rest == rest;
    } else {
      var x := EmitString(n.key, []);
      var colon := [COLON] + rest;
      JoinCons(x, [[COLON]]);
      JoinCons([COLON], []);
      assert [x, [COLON]] == [x] + [[COLON]] && [COLON] + [] == [COLON];
      EmitCharsSplits(n.key, [], colon);
      Associates([QUOTE], EmitChars(n.key, []), colon);
      Associates(x, [COLON], rest);
      assert [] + colon == colon && [] + EmitString(n.key, colon) == EmitString(n.key, colon);
    }
  }

  // ---- Stripping keeps everything the scanner asks for

  lemma {:induction false} StripKeepsLimits(t: Json, max: nat)
    requires Rfc(t)
    ensures Rfc(Strip(t)) && Height(Strip(t)) == Height(t) && Nodes(Strip(t)) == Nodes(t)
    ensures DistinctKeys(Strip(t)) == DistinctKeys(t) && Within(Strip(t), max) == Within(t, max)
    decreases t, 0
  {
    if t.Full? {
      StripKeepsLimitsOf(t.elems, t.keyed, max);
    }
  }

  lemma {:induction false} StripKeepsLimitsOf(es: Elems, keyed: bool, max: nat)
    requires RfcElems(es, keyed)
    ensures var r := StripElems(es);
      && RfcElems(r, keyed) && HeightOf(r) == HeightOf(es) && NodesOf(r) == NodesOf(es)
      && Fields(r, keyed) == Fields(es, keyed)
      && DistinctKeysOf(r, keyed) == DistinctKeysOf(es, keyed) && WithinElems(r, max) == WithinElems(es, max)
    decreases es, 1
  {
    StripKeepsLimits(es.head.value, max);
    if es.More? {
      StripKeepsLimitsOf(es.tail, keyed, max);
    }
  }

  // ---- UTF-8 survives

  /** A run of non-ASCII bytes is copied whole, in or out of a string. */
  lemma {:induction false} CompactHigh(bs: bytes, s: bytes, quoted: bool, escaped: bool)
    requires bs != [] && forall i | 0 <= i < |bs| :: bs[i] >= 128
    ensures Compacted(bs + s, quoted, escaped) == bs + Compacted(s, quoted, !quoted && escaped)
    decreases bs
  {
    var t := bs + s;
    var tail := bs[1..];
    assert t[1..] == tail + s;
    Uncons(bs);
    if tail == [] {
      assert tail + s == s;
    } else {
      CompactHigh(tail, s, quoted, !quoted && escaped);
      Associates([bs[0]], tail, Compacted(s, quoted, !quoted && escaped));
    }
  }

  lemma {:induction false} CompactKeepsUtf8(s: bytes, quoted: bool, escaped: bool)
    requires ValidUtf8(s)
    ensures ValidUtf8(Compacted(s, quoted, escaped))
    decreases |s|
  {
    if s != [] {
      var n := CharLength(s);
      if s[0] < 128 {
        var q := if quoted then escaped || s[0] == BACKSLASH || s[0] != QUOTE else s[0] == QUOTE;
        var e := if quoted then !escaped && s[0] == BACKSLASH else escaped;
        CompactKeepsUtf8(s[1..], q, e);
        AsciiFirst(s[0], Compacted(s[1..], q, e));
      } else {
        var rest := Compacted(s[n..], quoted, !quoted && escaped);
        CompactKeepsUtf8(s[n..], quoted, !quoted && escaped);
        Rejoin(s, n);
        CompactHigh(s[..n], s[n..], quoted, escaped);
        var out := s[..n] + rest;
        Halves(s[..n], rest);
        CharLengthPrefix(s, out, n);
      }
    }
  }

  // ---- Main result

  /** Source JSON as `source_json` admits it. */
  ghost predicate SourceJson(s: bytes) {
    |s| <= RESULT_BYTES && ValidUtf8(s) && PlainJson(s, SCALAR_BYTES)
  }

  /** The text of the tree without its blanks is what compacting leaves. */
  lemma CompactDocument(s: bytes, lead: bytes, t: Json, trail: bytes)
    requires IsDocument(s, lead, t, trail) && Rfc(t)
    ensures IsDocument(Compacted(s, false, false), [], Strip(t), [])
  {
    CompactBlank(lead, Emit(t, trail));
    CompactTree(t, trail);
    CompactBlank(trail, []);
    assert trail + [] == trail;
    assert [] + Emit(Strip(t), []) == Emit(Strip(t), []);
  }

  lemma StrippedIsSource(c: bytes, t: Json)
    requires IsDocument(c, [], Strip(t), []) && |c| <= RESULT_BYTES && ValidUtf8(c)
    requires Rfc(t) && Height(t) <= MAX_DEPTH && Nodes(t) <= MAX_NODES && DistinctKeys(t) && Within(t, SCALAR_BYTES)
    ensures SourceJson(c)
  {
    StripKeepsLimits(t, SCALAR_BYTES);
  }

  lemma CompactTwice(c: bytes, t: Json)
    requires IsDocument(c, [], Strip(t), []) && Rfc(Strip(t))
    ensures Compacted(c, false, false) == c
  {
    CompactDocument(c, [], Strip(t), []);
    StripTwice(t);
  }

  lemma StrippedIsJoined(c: bytes, t: Json)
    requires IsDocument(c, [], Strip(t), [])
    ensures c == Join(Tokens(t)) && Tokens(Strip(t)) == Tokens(t)
  {
    StripKeepsTokens(t, []);
    assert Join(Tokens(t)) + [] == Join(Tokens(t)) && [] + Emit(Strip(t), []) == Emit(Strip(t), []);
  }

  /** Compacting admitted JSON gives admitted JSON: a tree `u` with the tokens of the original one, whose text is
      those tokens with nothing between them; doing it twice changes nothing more. */
  lemma CompactExact(s: bytes) returns (lead: bytes, t: Json, trail: bytes, u: Json)
    requires SourceJson(s)
    ensures IsDocument(s, lead, t, trail) && Rfc(t)
    ensures var c := Compacted(s, false, false);
      && IsDocument(c, [], u, []) && Rfc(u) && Tokens(u) == Tokens(t)
      && SourceJson(c) && c == Join(Tokens(t)) && Compacted(c, false, false) == c
  {
    lead, t, trail :| IsDocument(s, lead, t, trail) && Rfc(t)
      && Height(t) <= MAX_DEPTH && Nodes(t) <= MAX_NODES && DistinctKeys(t) && Within(t, SCALAR_BYTES);
    u := Strip(t);
    var c := Compacted(s, false, false);
    CompactDocument(s, lead, t, trail);
    StrippedIsJoined(c, t);
    CompactKeepsUtf8(s, false, false);
    StripKeepsLimits(t, SCALAR_BYTES);
    StrippedIsSource(c, t);
    CompactTwice(c, t);
  }

  lemma {:induction false} StripTwice(t: Json)
    ensures Strip(Strip(t)) == Strip(t)
    decreases t, 0
  {
    if t.Full? {
      StripTwiceElems(t.elems);
    }
  }

  lemma {:induction false} StripTwiceElems(es: Elems)
    ensures StripElems(StripElems(es)) == StripElems(es)
    decreases es, 1
  {
    StripTwice(es.head.value);
    if es.More? {
      StripTwiceElems(es.tail);
    }
  }
}
