/** What the admission scanner computes, as functions on the bytes still to be
    read (crates/gaze-lens-protocol/src/bounds.rs), and the proof that it accepts
    exactly the texts of legal syntax trees. */
module JsonScan {
  import opened Bounds
  import opened JsonGrammar
  import opened Sequences
  import opened Wrappers

  // ---- Blanks

  function SkipBlanks(s: bytes): (r: bytes)
    ensures |r| <= |s|
  {
    if s != [] && IsBlank(s[0]) then SkipBlanks(s[1..]) else s
  }

  lemma {:induction false} SkipBlanksSplits(s: bytes) returns (lead: bytes)
    ensures Blank(lead) && s == lead + SkipBlanks(s)
    ensures SkipBlanks(s) != [] ==> !IsBlank(SkipBlanks(s)[0])
    ensures SkipBlanks(SkipBlanks(s)) == SkipBlanks(s)
    decreases s
  {
    if s != [] && IsBlank(s[0]) {
      var l := SkipBlanksSplits(s[1..]);
      lead := [s[0]] + l;
      Uncons(s);
      Associates([s[0]], l, SkipBlanks(s[1..]));
    } else {
      lead := [];
    }
  }

  lemma {:induction false} SkipBlanksSkips(lead: bytes, s: bytes)
    requires Blank(lead) && (s != [] ==> !IsBlank(s[0]))
    ensures SkipBlanks(lead + s) == s
    decreases lead
  {
    if lead == [] {
      assert lead + s == s;
    } else {
      assert (lead + s)[1..] == lead[1..] + s;
      SkipBlanksSkips(lead[1..], s);
    }
  }

  predicate StartsWith(s: bytes, b: byte) {
    s != [] && s[0] == b
  }

  // ---- Numbers

  function DigitRun(s: bytes): (n: nat)
    ensures n <= |s|
  {
    if s != [] && IsDigit(s[0]) then 1 + DigitRun(s[1..]) else 0
  }

  lemma {:induction false} DigitRunDigits(s: bytes)
    ensures Digits(s[..DigitRun(s)])
    decreases s
  {
    if s != [] && IsDigit(s[0]) {
      DigitRunDigits(s[1..]);
      assert s[..DigitRun(s)] == [s[0]] + s[1..][..DigitRun(s[1..])];
    }
  }

  predicate IsNumber(s: bytes) {
    var u := if StartsWith(s, MINUS) then s[1..] else s;
    var n := DigitRun(u);
    n > 0 && AfterWhole(u[if u[0] == ZERO then 1 else n..])
  }

  predicate AfterWhole(s: bytes) {
    if StartsWith(s, DOT) then
      var n := DigitRun(s[1..]);
      n > 0 && AfterFraction(s[1 + n..])
    else AfterFraction(s)
  }

  predicate AfterFraction(s: bytes) {
    if s != [] && (s[0] == 101 || s[0] == 69) then
      var d := if |s| > 1 && (s[1] == 43 || s[1] == MINUS) then s[2..] else s[1..];
      d != [] && DigitRun(d) == |d|
    else s == []
  }

  lemma {:induction false} DigitRunIs(ds: bytes, rest: bytes)
    requires Digits(ds) && (rest != [] ==> !IsDigit(rest[0]))
    ensures DigitRun(ds + rest) == |ds|
    decreases ds
  {
    if ds == [] {
      assert ds + rest == rest;
    } else {
      assert (ds + rest)[1..] == ds[1..] + rest;
      DigitRunIs(ds[1..], rest);
    }
  }

  lemma ExponentRecognised(e: Exponent)
    requires WfExponent(e)
    ensures AfterFraction(EmitExponent(e))
  {
    if e.Exponent? {
      var s := EmitExponent(e);
      DigitRunIs(e.digits, []);
      assert e.digits + [] == e.digits;
      assert e.sign == [] ==> s[1..] == e.digits && s[1] == e.digits[0];
      assert e.sign != [] ==> s[2..] == e.digits && s[1] == e.sign[0];
    }
  }

  lemma ExponentRead(s: bytes) returns (e: Exponent)
    requires AfterFraction(s)
    ensures WfExponent(e) && EmitExponent(e) == s
  {
    if s == [] {
      e := NoExponent;
    } else {
      var n := if |s| > 1 && (s[1] == 43 || s[1] == MINUS) then 2 else 1;
      var d := s[n..];
      DigitRunDigits(d);
      assert d[..|d|] == d;
      e := Exponent(s[0], s[1..n], d);
      assert s[1..] == s[1..n] + d;
      Uncons(s);
    }
  }

  /** The recogniser accepts exactly the numbers of section 6. */
  lemma NumberExact(s: bytes)
    ensures IsNumber(s) <==> IsJsonNumber(s)
  {
    if IsNumber(s) {
      var n := NumberRead(s);
    }
    if IsJsonNumber(s) {
      var n: Number :| WfNumber(n) && EmitNumber(n) == s;
      NumberRecognised(n);
    }
  }

  lemma NumberRecognised(n: Number)
    requires WfNumber(n)
    ensures IsNumber(EmitNumber(n))
  {
    var u := EmitUnsigned(n);
    var f := EmitFraction(n.frac, EmitExponent(n.exp));
    FractionRecognised(n.frac, n.exp);
    DigitRunIs(n.whole, f);
    Halves(n.whole, f);
    Cons(MINUS, u);
    assert u[0] == n.whole[0];
  }

  lemma FractionRecognised(frac: bytes, e: Exponent)
    requires Digits(frac) && WfExponent(e)
    ensures AfterWhole(EmitFraction(frac, EmitExponent(e)))
    ensures var f := EmitFraction(frac, EmitExponent(e)); f != [] ==> !IsDigit(f[0])
  {
    var x := EmitExponent(e);
    var f := EmitFraction(frac, x);
    ExponentRecognised(e);
    if frac != [] {
      Cons(DOT, frac + x);
      DigitRunIs(frac, x);
      Halves(frac, x);
      DropDrop(f, 1, |frac|);
    }
  }

  lemma NumberRead(s: bytes) returns (n: Number)
    requires IsNumber(s)
    ensures WfNumber(n) && EmitNumber(n) == s
  {
    if StartsWith(s, MINUS) {
      n := UnsignedRead(s[1..], true);
      Uncons(s);
    } else {
      n := UnsignedRead(s, false);
    }
  }

  lemma UnsignedRead(u: bytes, minus: bool) returns (n: Number)
    requires DigitRun(u) > 0 && AfterWhole(u[if u[0] == ZERO then 1 else DigitRun(u)..])
    ensures WfNumber(n) && EmitUnsigned(n) == u && n.minus == minus
  {
    var w := if u[0] == ZERO then 1 else DigitRun(u);
    DigitRunDigits(u);
    assert u[..DigitRun(u)][..w] == u[..w];
    var frac, e := FractionRead(u[w..]);
    n := Number(minus, u[..w], frac, e);
    Rejoin(u, w);
  }

  lemma FractionRead(s: bytes) returns (frac: bytes, e: Exponent)
    requires AfterWhole(s)
    ensures Digits(frac) && WfExponent(e) && s == EmitFraction(frac, EmitExponent(e))
  {
    if StartsWith(s, DOT) {
      frac, e := DottedRead(s);
    } else {
      frac := [];
      e := ExponentRead(s);
    }
  }

  lemma DottedRead(s: bytes) returns (frac: bytes, e: Exponent)
    requires StartsWith(s, DOT) && AfterWhole(s)
    ensures Digits(frac) && WfExponent(e) && s == EmitFraction(frac, EmitExponent(e))
  {
    var t := s[1..];
    var k := DigitRun(t);
    frac := t[..k];
    DigitRunDigits(t);
    DropDrop(s, 1, k);
    e := ExponentRead(t[k..]);
    Rejoin(t, k);
    Uncons(s);
  }

  // ---- Scalar tokens: the longest run without a delimiter

  predicate IsDelimiter(b: byte) {
    IsBlank(b) || b == COMMA || b == CLOSE_LIST || b == CLOSE_OBJECT
  }

  function TokenLength(s: bytes): (n: nat)
    ensures n <= |s|
  {
    if s != [] && !IsDelimiter(s[0]) then 1 + TokenLength(s[1..]) else 0
  }

  predicate IsToken(s: bytes) {
    s == NULL || s == TRUE || s == FALSE || IsNumber(s)
  }

  lemma TokenExact(s: bytes)
    ensures IsToken(s) <==> IsScalarToken(s)
  {
    NumberExact(s);
  }

  predicate Undelimited(s: bytes) {
    forall i {:trigger s[i]} | 0 <= i < |s| :: !IsDelimiter(s[i]) && s[i] != QUOTE
  }

  lemma UndelimitedJoins(a: bytes, b: bytes)
    requires Undelimited(a) && Undelimited(b)
    ensures Undelimited(a + b)
  {
  }

  lemma NumberUndelimited(n: Number)
    requires WfNumber(n)
    ensures Undelimited(EmitNumber(n))
  {
    if n.exp.Exponent? {
      UndelimitedJoins(n.exp.sign, n.exp.digits);
      UndelimitedJoins([n.exp.letter], n.exp.sign + n.exp.digits);
    }
    var x := EmitExponent(n.exp);
    if n.frac != [] {
      UndelimitedJoins(n.frac, x);
      UndelimitedJoins([DOT], n.frac + x);
    }
    UndelimitedJoins(n.whole, EmitFraction(n.frac, x));
    UndelimitedJoins([MINUS], EmitUnsigned(n));
  }

  /** A well-formed token has no delimiter in it and does not start like a string or a container. */
  lemma TokenShape(s: bytes)
    requires IsScalarToken(s)
    ensures s != [] && s[0] != QUOTE && s[0] != OPEN_LIST && s[0] != OPEN_OBJECT && !IsBlank(s[0])
    ensures Undelimited(s)
  {
    if IsJsonNumber(s) {
      var n: Number :| WfNumber(n) && EmitNumber(n) == s;
      NumberUndelimited(n);
      assert s[0] == if n.minus then MINUS else n.whole[0];
    }
  }

  lemma {:induction false} TokenRead(token: bytes, rest: bytes)
    requires Undelimited(token)
    requires rest != [] ==> IsDelimiter(rest[0])
    ensures TokenLength(token + rest) == |token|
    decreases token
  {
    if token == [] {
      assert token + rest == rest;
    } else {
      assert (token + rest)[1..] == token[1..] + rest;
      TokenRead(token[1..], rest);
    }
  }

  // ---- Strings

  datatype QuadRead = QuadRead(q: Quad, rest: bytes)

  function ScanQuad(s: bytes): (r: Result<QuadRead>)
    ensures r.Ok? ==> WfQuad(r.value.q) && s == QuadBytes(r.value.q) + r.value.rest
  {
    if |s| >= 4 && IsHex(s[0]) && IsHex(s[1]) && IsHex(s[2]) && IsHex(s[3]) then
      Ok(QuadRead(Quad(s[0], s[1], s[2], s[3]), s[4..]))
    else Err(InvalidRequest)
  }

  datatype CharRead = CharRead(c: Char, rest: bytes)

  /** One unit of a string's contents; `s` does not start with a quote. */
  function ScanChar(s: bytes): (r: Result<CharRead>)
    requires s != [] && s[0] != QUOTE
    ensures r.Ok? ==> WfChar(r.value.c) && s == CharBytes(r.value.c) + r.value.rest
  {
    if s[0] <= 31 then Err(InvalidRequest)
    else if s[0] != BACKSLASH then Ok(CharRead(Raw(s[0]), s[1..]))
    else if |s| < 2 then Err(InvalidRequest)
    else if IsShort(s[1]) then Ok(CharRead(Short(s[1]), s[2..]))
    else if s[1] != 117 then Err(InvalidRequest)
    else ScanUnicode(s[2..])
  }

  lemma EscapeText(t: bytes)
    requires |t| >= 2
    ensures t == [t[0], t[1]] + t[2..]
  {
  }

  /** A `\u` escape after the `u`: one code unit, or a high one followed by an escaped low one. */
  function ScanUnicode(s: bytes): (r: Result<CharRead>)
    ensures r.Ok? ==> WfChar(r.value.c) && (r.value.c.Unicode? || r.value.c.Pair?)
    ensures r.Ok? ==> [BACKSLASH, 117] + s == CharBytes(r.value.c) + r.value.rest
  {
    var first :- ScanQuad(s);
    var cp := QuadValue(first.q);
    if IsHigh(cp) then ScanLowHalf(first.q, first.rest)
    else if IsLow(cp) then Err(InvalidRequest)
    else
      UnicodeText(first.q, first.rest);
      Ok(CharRead(Unicode(first.q), first.rest))
  }

  /** The escaped low surrogate that has to follow a high one. */
  function ScanLowHalf(high: Quad, t: bytes): (r: Result<CharRead>)
    requires WfQuad(high) && IsHigh(QuadValue(high))
    ensures r.Ok? ==> WfChar(r.value.c) && r.value.c.Pair?
    ensures r.Ok? ==> [BACKSLASH, 117] + (QuadBytes(high) + t) == CharBytes(r.value.c) + r.value.rest
  {
    if |t| < 2 || t[0] != BACKSLASH || t[1] != 117 then Err(InvalidRequest)
    else
      var second :- ScanQuad(t[2..]);
      if IsLow(QuadValue(second.q)) then
        PairText(high, second.q, second.rest);
        EscapeText(t);
        Ok(CharRead(Pair(high, second.q), second.rest))
      else Err(InvalidRequest)
  }

  lemma ScanCharReads(c: Char, rest: bytes)
    requires WfChar(c)
    ensures ScanChar(CharBytes(c) + rest) == Ok(CharRead(c, rest))
  {
    var s := CharBytes(c) + rest;
    match c
    case Raw(_) =>
      assert s[1..] == rest;
    case Short(_) =>
      assert s[2..] == rest;
    case Unicode(q) =>
      assert s[2..] == QuadBytes(q) + rest;
      ScanQuadReads(q, rest);
    case Pair(high, low) =>
      PairReads(high, low, rest);
  }

  lemma PairReads(high: Quad, low: Quad, rest: bytes)
    requires WfChar(Pair(high, low))
    ensures ScanChar(CharBytes(Pair(high, low)) + rest) == Ok(CharRead(Pair(high, low), rest))
  {
    var s := CharBytes(Pair(high, low)) + rest;
    var l := QuadBytes(low) + rest;
    var t := [BACKSLASH, 117] + l;
    assert s == [BACKSLASH, 117] + (QuadBytes(high) + t);
    assert s[2..] == QuadBytes(high) + t;
    assert t[2..] == l;
    ScanQuadReads(high, t);
    ScanQuadReads(low, rest);
  }

  lemma ScanQuadReads(q: Quad, rest: bytes)
    requires WfQuad(q)
    ensures ScanQuad(QuadBytes(q) + rest) == Ok(QuadRead(q, rest))
  {
    assert (QuadBytes(q) + rest)[4..] == rest;
  }

  predicate LowerHex(s: bytes) {
    forall i | 0 <= i < |s| :: IsDigit(s[i]) || 97 <= s[i] <= 102
  }

  /** An opaque binding: 32 lower-case hexadecimal digits. */
  predicate Opaque(s: bytes) {
    |s| == 32 && LowerHex(s)
  }

  datatype StringRead = StringRead(decoded: bytes, rest: bytes)

  /** The rest of a string whose contents so far decode to `acc`. */
  function ScanChars(s: bytes, acc: bytes, max: nat, opaq: bool): (r: Result<StringRead>)
    ensures r.Ok? ==> |r.value.rest| < |s|
    decreases |s|
  {
    if s == [] then Err(InvalidRequest)
    else if s[0] == QUOTE then
      if opaq && |acc| != 32 then Err(InvalidRequest) else Ok(StringRead(acc, s[1..]))
    else
      var one :- ScanChar(s);
      var d := DecodeChar(one.c);
      if |acc| + |d| > max then Err(CapExceeded)
      else if opaq && !LowerHex(d) then Err(InvalidRequest)
      else ScanChars(one.rest, acc + d, max, opaq)
  }

  function ScanString(s: bytes, max: nat, opaq: bool): (r: Result<StringRead>)
    ensures r.Ok? ==> |r.value.rest| < |s|
  {
    if StartsWith(s, QUOTE) then ScanChars(s[1..], [], max, opaq) else Err(InvalidRequest)
  }

  lemma LowerHexJoins(a: bytes, b: bytes)
    ensures LowerHex(a + b) <==> LowerHex(a) && LowerHex(b)
  {
    if LowerHex(a + b) {
      assert forall i | 0 <= i < |a| :: (a + b)[i] == a[i];
      assert forall i | 0 <= i < |b| :: (a + b)[|a| + i] == b[i];
    }
  }

  lemma CharsCons(c: Char, cs: seq<Char>, rest: bytes)
    requires WfChar(c) && WfChars(cs)
    ensures WfChars([c] + cs)
    ensures Decoded([c] + cs) == DecodeChar(c) + Decoded(cs)
    ensures EmitChars([c] + cs, rest) == CharBytes(c) + EmitChars(cs, rest)
  {
    assert ([c] + cs)[1..] == cs;
  }

  lemma {:induction false} ScanCharsSound(s: bytes, acc: bytes, max: nat, opaq: bool) returns (cs: seq<Char>)
    requires |acc| <= max && (opaq ==> LowerHex(acc))
    requires ScanChars(s, acc, max, opaq).Ok?
    ensures var r := ScanChars(s, acc, max, opaq).value;
      && WfChars(cs) && s == EmitChars(cs, r.rest) && r.decoded == acc + Decoded(cs)
      && |r.decoded| <= max && (opaq ==> Opaque(r.decoded))
    decreases |s|
  {
    if s[0] == QUOTE {
      cs := [];
      assert acc + Decoded(cs) == acc;
      Uncons(s);
    } else {
      var one := ScanChar(s).value;
      var d := DecodeChar(one.c);
      LowerHexJoins(acc, d);
      var tail := ScanCharsSound(one.rest, acc + d, max, opaq);
      cs := [one.c] + tail;
      CharsCons(one.c, tail, ScanChars(s, acc, max, opaq).value.rest);
      Associates(acc, d, Decoded(tail));
    }
  }

  lemma {:induction false} ScanCharsComplete(cs: seq<Char>, rest: bytes, acc: bytes, max: nat, opaq: bool)
    requires WfChars(cs)
    requires |acc + Decoded(cs)| <= max && (opaq ==> Opaque(acc + Decoded(cs)))
    ensures ScanChars(EmitChars(cs, rest), acc, max, opaq) == Ok(StringRead(acc + Decoded(cs), rest))
    decreases |cs|
  {
    if cs == [] {
      assert acc + Decoded(cs) == acc;
    } else {
      var d := DecodeChar(cs[0]);
      var tail := cs[1..];
      var more := EmitChars(tail, rest);
      ScanCharReads(cs[0], more);
      assert EmitChars(cs, rest)[0] == CharBytes(cs[0])[0];
      Associates(acc, d, Decoded(tail));
      LowerHexJoins(acc + d, Decoded(tail));
      LowerHexJoins(acc, d);
      ScanCharsComplete(tail, rest, acc + d, max, opaq);
    }
  }

  lemma ScanStringSound(s: bytes, max: nat, opaq: bool) returns (cs: seq<Char>)
    requires ScanString(s, max, opaq).Ok?
    ensures var r := ScanString(s, max, opaq).value;
      && WfChars(cs) && s == EmitString(cs, r.rest) && r.decoded == Decoded(cs)
      && |Decoded(cs)| <= max && (opaq ==> Opaque(Decoded(cs)))
  {
    cs := ScanCharsSound(s[1..], [], max, opaq);
    assert [] + Decoded(cs) == Decoded(cs);
    Uncons(s);
  }

  lemma ScanStringComplete(cs: seq<Char>, rest: bytes, max: nat, opaq: bool)
    requires WfChars(cs) && |Decoded(cs)| <= max && (opaq ==> Opaque(Decoded(cs)))
    ensures ScanString(EmitString(cs, rest), max, opaq) == Ok(StringRead(Decoded(cs), rest))
  {
    assert [] + Decoded(cs) == Decoded(cs);
    Cons(QUOTE, EmitChars(cs, rest));
    ScanCharsComplete(cs, rest, [], max, opaq);
  }

  // ---- Values

  /** `frame` adds the wire-frame rules; `scalarMax` is the cap on ordinary strings. */
  datatype Mode = Mode(frame: bool, scalarMax: nat)

  /** What is left to read and how many nodes have been counted. */
  datatype Place = Place(rest: bytes, nodes: nat)

  const BINDING: bytes := [98, 105, 110, 100, 105, 110, 103]
  const BASE64: bytes := [98, 97, 115, 101, 54, 52]
  const ARGS: bytes := [97, 114, 103, 115]
  const RESULT: bytes := [114, 101, 115, 117, 108, 116]

  function ValueCap(field: bytes, bindingField: bool, m: Mode): nat {
    if bindingField then 32 else if m.frame && field == BASE64 then 2 * SCALAR_BYTES else m.scalarMax
  }

  predicate SizeAllowed(field: bytes, size: nat, depth: nat, m: Mode) {
    m.frame && depth == 1 ==>
      && (field == ARGS ==> size <= REQUEST_BYTES)
      && (field == RESULT ==> size <= RESULT_BYTES)
  }

  function ScanValue(s: bytes, nodes: nat, depth: nat, binding: bool, max: nat, m: Mode): (r: Result<Place>)
    ensures r.Ok? ==> |r.value.rest| < |s|
    decreases |s|, 1
  {
    if depth > MAX_DEPTH || nodes + 1 > MAX_NODES then Err(CapExceeded)
    else ScanAt(SkipBlanks(s), nodes + 1, depth, binding, max, m)
  }

  /** A value, from its first byte; its own node is already counted. */
  function ScanAt(v: bytes, nodes: nat, depth: nat, binding: bool, max: nat, m: Mode): (r: Result<Place>)
    ensures r.Ok? ==> |r.value.rest| < |v|
    decreases |v|, 0
  {
    if v == [] then Err(InvalidRequest)
    else if v[0] == QUOTE then
      var str :- ScanString(v, max, binding);
      Ok(Place(str.rest, nodes))
    else if v[0] == OPEN_OBJECT || v[0] == OPEN_LIST then
      ScanContents(v[1..], v[0] == OPEN_OBJECT, nodes, depth, binding, m)
    else ScanToken(v, nodes)
  }

  /** An array or object after its opening bracket. */
  function ScanContents(s: bytes, keyed: bool, nodes: nat, depth: nat, binding: bool, m: Mode): (r: Result<Place>)
    ensures r.Ok? ==> |r.value.rest| < |s|
    decreases |s|, 5
  {
    var inner := SkipBlanks(s);
    if StartsWith(inner, Close(keyed)) then Ok(Place(inner[1..], nodes))
    else ScanElems(inner, nodes, depth, binding, keyed, {}, m)
  }

  function ScanToken(v: bytes, nodes: nat): (r: Result<Place>)
    ensures r.Ok? ==> |r.value.rest| < |v|
  {
    var n := TokenLength(v);
    if !IsToken(v[..n]) then Err(InvalidRequest)
    else if n > SCALAR_BYTES then Err(CapExceeded)
    else Ok(Place(v[n..], nodes))
  }

  datatype NameRead = NameRead(field: bytes, rest: bytes, nodes: nat)

  function ScanName(s: bytes, nodes: nat, keyed: bool, seen: set<bytes>): (r: Result<NameRead>)
    ensures r.Ok? ==> |r.value.rest| <= |s|
  {
    if !keyed then Ok(NameRead([], s, nodes))
    else if nodes + 1 > MAX_NODES then Err(CapExceeded)
    else
      var key :- ScanString(SkipBlanks(s), SCALAR_BYTES, false);
      if key.decoded in seen then Err(InvalidRequest)
      else
        var after := SkipBlanks(key.rest);
        if StartsWith(after, COLON) then Ok(NameRead(key.decoded, after[1..], nodes + 1)) else Err(InvalidRequest)
  }

  /** Whether the value belongs to a binding: it is the top-level `binding` member of a frame, or a member of that object. */
  predicate InBinding(field: bytes, depth: nat, binding: bool, keyed: bool, m: Mode) {
    (binding && keyed) || (m.frame && depth == 1 && field == BINDING)
  }

  /** A binding is an object whose members are strings. */
  predicate StartAllowed(field: bytes, v: bytes, depth: nat, binding: bool, keyed: bool, m: Mode) {
    && (binding && keyed ==> StartsWith(v, QUOTE))
    && (m.frame && depth == 1 && field == BINDING ==> StartsWith(v, OPEN_OBJECT))
  }

  datatype ElemRead = ElemRead(field: bytes, rest: bytes, nodes: nat)

  /** The value of the element named `field`, and the blanks after it; `v` starts at the value. */
  function ScanField(field: bytes, v: bytes, nodes: nat, depth: nat, binding: bool, keyed: bool, m: Mode): (r: Result<ElemRead>)
    ensures r.Ok? ==> |r.value.rest| < |v|
    decreases |v|, 2
  {
    if !StartAllowed(field, v, depth, binding, keyed, m) then Err(InvalidRequest)
    else
      var value :- ScanValue(v, nodes, depth + 1, InBinding(field, depth, binding, keyed, m), ValueCap(field, binding && keyed, m), m);
      FieldEnd(field, |v| - |value.rest|, value, depth, m)
  }

  function FieldEnd(field: bytes, size: nat, value: Place, depth: nat, m: Mode): (r: Result<ElemRead>)
    ensures r.Ok? ==> |r.value.rest| <= |value.rest|
  {
    if SizeAllowed(field, size, depth, m) then Ok(ElemRead(field, SkipBlanks(value.rest), value.nodes))
    else Err(CapExceeded)
  }

  function ScanElem(s: bytes, nodes: nat, depth: nat, binding: bool, keyed: bool, seen: set<bytes>, m: Mode): (r: Result<ElemRead>)
    ensures r.Ok? ==> |r.value.rest| < |s|
    decreases |s|, 3
  {
    var name :- ScanName(s, nodes, keyed, seen);
    ScanField(name.field, SkipBlanks(name.rest), name.nodes, depth, binding, keyed, m)
  }

  function ScanElems(s: bytes, nodes: nat, depth: nat, binding: bool, keyed: bool, seen: set<bytes>, m: Mode): (r: Result<Place>)
    ensures r.Ok? ==> |r.value.rest| < |s|
    decreases |s|, 4
  {
    var elem :- ScanElem(s, nodes, depth, binding, keyed, seen, m);
    if StartsWith(elem.rest, COMMA) then
      ScanElems(elem.rest[1..], elem.nodes, depth, binding, keyed, Noted(seen, elem.field, keyed), m)
    else if StartsWith(elem.rest, Close(keyed)) then Ok(Place(elem.rest[1..], elem.nodes))
    else Err(InvalidRequest)
  }

  function Noted(seen: set<bytes>, field: bytes, keyed: bool): set<bytes> {
    if keyed then seen + {field} else seen
  }

  /** A whole document: one value, then only blanks. */
  function ScanDocument(s: bytes, m: Mode): Result<()> {
    var value :- ScanValue(s, 0, 1, false, m.scalarMax, m);
    Require(SkipBlanks(value.rest) == [])
  }

  // ---- The trees that are admitted

  ghost predicate Legal(t: Json, depth: nat, binding: bool, max: nat, m: Mode)
    decreases t, 0
  {
    depth <= MAX_DEPTH
    && match t
       case Scalar(token) => IsScalarToken(token) && |token| <= SCALAR_BYTES
       case Text(chars) => WfChars(chars) && |Decoded(chars)| <= max && (binding ==> Opaque(Decoded(chars)))
       case Empty(_, pad) => Blank(pad)
       case Full(keyed, elems) => LegalElems(elems, keyed, depth, binding, m)
  }

  ghost predicate LegalElems(es: Elems, keyed: bool, depth: nat, binding: bool, m: Mode)
    decreases es, 1
  {
    && LegalElem(es.head, keyed, depth, binding, m)
    && (es.More? ==> LegalElems(es.tail, keyed, depth, binding, m))
    && (es.More? && keyed ==> Field(es.head.name) !in Fields(es.tail, keyed))
  }

  ghost predicate LegalElem(e: Elem, keyed: bool, depth: nat, binding: bool, m: Mode)
    decreases e, 1
  {
    && WfName(e.name, keyed) && |Field(e.name)| <= SCALAR_BYTES
    && Blank(e.gap) && Blank(e.trail)
    && LegalField(Field(e.name), e.value, keyed, depth, binding, m)
  }

  ghost predicate LegalField(field: bytes, value: Json, keyed: bool, depth: nat, binding: bool, m: Mode)
    decreases value, 1
  {
    && (binding && keyed ==> value.Text?)
    && (m.frame && depth == 1 && field == BINDING ==> (value.Empty? || value.Full?) && value.keyed)
    && Legal(value, depth + 1, InBinding(field, depth, binding, keyed, m), ValueCap(field, binding && keyed, m), m)
    && SizeAllowed(field, |Bytes(value)|, depth, m)
  }

  /** Emitting a value before `rest` only puts the value's own bytes in front of it. */
  lemma {:induction false} EmitSplits(t: Json, rest: bytes)
    ensures Emit(t, rest) == Bytes(t) + rest
    decreases t, 0
  {
    match t
    case Scalar(token) =>
    case Text(chars) => EmitCharsSplits(chars, [], rest);
    case Empty(keyed, pad) =>
    case Full(keyed, elems) => EmitElemsSplits(elems, keyed, [], rest);
  }

  lemma EmitLength(t: Json, rest: bytes)
    ensures |Emit(t, rest)| == |Bytes(t)| + |rest|
  {
    EmitSplits(t, rest);
  }

  lemma {:induction false} EmitCharsSplits(cs: seq<Char>, a: bytes, b: bytes)
    ensures EmitChars(cs, a + b) == EmitChars(cs, a) + b
    ensures EmitChars(cs, [] + b) == EmitChars(cs, b)
    decreases |cs|
  {
    assert [] + b == b;
    if cs != [] {
      EmitCharsSplits(cs[1..], a, b);
      Associates(CharBytes(cs[0]), EmitChars(cs[1..], a), b);
    } else {
      Associates([QUOTE], a, b);
    }
  }

  lemma {:induction false} EmitElemsSplits(es: Elems, keyed: bool, a: bytes, b: bytes)
    ensures EmitElems(es, keyed, a + b) == EmitElems(es, keyed, a) + b
    ensures EmitElems(es, keyed, [] + b) == EmitElems(es, keyed, b)
    decreases es, 1
  {
    assert [] + b == b;
    var x := if es.Last? then [Close(keyed)] + a else [COMMA] + EmitElems(es.tail, keyed, a);
    if es.More? {
      EmitElemsSplits(es.tail, keyed, a, b);
      assert [COMMA] + (EmitElems(es.tail, keyed, a) + b) == x + b;
    } else {
      assert [Close(keyed)] + (a + b) == x + b;
    }
    EmitElemSplits(es.head, x, b);
  }

  lemma {:induction false} EmitElemSplits(e: Elem, a: bytes, b: bytes)
    ensures EmitElem(e, a + b) == EmitElem(e, a) + b
    decreases e, 1
  {
    var v := e.trail + a;
    assert e.trail + (a + b) == v + b;
    EmitSplits(e.value, v);
    EmitSplits(e.value, v + b);
    assert Bytes(e.value) + (v + b) == (Bytes(e.value) + v) + b;
    var g := e.gap + Emit(e.value, v);
    assert e.gap + (Emit(e.value, v) + b) == g + b;
    if e.name.Name? {
      var n := e.name;
      var k := n.after + ([COLON] + g);
      assert n.after + ([COLON] + (g + b)) == k + b;
      EmitCharsSplits(n.key, k, b);
      assert EmitString(n.key, k + b) == EmitString(n.key, k) + b;
      assert n.before + (EmitString(n.key, k) + b) == (n.before + EmitString(n.key, k)) + b;
    }
  }

  // ---- Soundness: whatever is accepted is the text of a legal tree

  lemma NameSound(s: bytes, nodes: nat, keyed: bool, seen: set<bytes>) returns (name: Name)
    requires ScanName(s, nodes, keyed, seen).Ok?
    ensures var r := ScanName(s, nodes, keyed, seen).value;
      && WfName(name, keyed) && Field(name) == r.field && |r.field| <= SCALAR_BYTES
      && s == EmitName(name, r.rest)
      && r.nodes == nodes + (if keyed then 1 else 0) && (nodes <= MAX_NODES ==> r.nodes <= MAX_NODES)
      && (keyed ==> r.field !in seen)
  {
    if keyed {
      var k := SkipBlanks(s);
      var before := SkipBlanksSplits(s);
      var key := ScanString(k, SCALAR_BYTES, false).value;
      var cs := ScanStringSound(k, SCALAR_BYTES, false);
      var after := SkipBlanksSplits(key.rest);
      var t := SkipBlanks(key.rest);
      Uncons(t);
      name := Name(before, cs, after);
    } else {
      name := NoName;
    }
  }

  /** The first byte tells the kind of a legal value, and is never blank. */
  lemma EmitStart(t: Json, rest: bytes, depth: nat, binding: bool, max: nat, m: Mode)
    requires Legal(t, depth, binding, max, m)
    ensures var s := Emit(t, rest);
      && s != [] && !IsBlank(s[0])
      && (s[0] == QUOTE <==> t.Text?)
      && (s[0] == OPEN_OBJECT <==> (t.Empty? || t.Full?) && t.keyed)
      && (s[0] == OPEN_LIST <==> (t.Empty? || t.Full?) && !t.keyed)
  {
    if t.Scalar? {
      TokenShape(t.token);
    }
  }

  lemma {:induction false} ScanValueSound(s: bytes, nodes: nat, depth: nat, binding: bool, max: nat, m: Mode)
    returns (lead: bytes, t: Json)
    requires ScanValue(s, nodes, depth, binding, max, m).Ok?
    ensures var p := ScanValue(s, nodes, depth, binding, max, m).value;
      && Blank(lead) && s == lead + Emit(t, p.rest) && Legal(t, depth, binding, max, m)
      && p.nodes == nodes + Nodes(t) && p.nodes <= MAX_NODES
    decreases |s|, 1
  {
    lead := SkipBlanksSplits(s);
    t := ScanAtSound(SkipBlanks(s), nodes + 1, depth, binding, max, m);
  }

  lemma {:induction false} ScanAtSound(v: bytes, nodes: nat, depth: nat, binding: bool, max: nat, m: Mode)
    returns (t: Json)
    requires depth <= MAX_DEPTH && nodes <= MAX_NODES
    requires ScanAt(v, nodes, depth, binding, max, m).Ok?
    ensures var p := ScanAt(v, nodes, depth, binding, max, m).value;
      && v == Emit(t, p.rest) && Legal(t, depth, binding, max, m)
      && p.nodes == nodes + Nodes(t) - 1 && p.nodes <= MAX_NODES
    decreases |v|, 0
  {
    if v[0] == QUOTE {
      var cs := ScanStringSound(v, max, binding);
      t := Text(cs);
    } else if v[0] == OPEN_OBJECT || v[0] == OPEN_LIST {
      Uncons(v);
      t := ScanContentsSound(v[1..], v[0] == OPEN_OBJECT, nodes, depth, binding, m);
    } else {
      t := ScanTokenSound(v, nodes);
    }
  }

  lemma {:induction false} ScanContentsSound(s: bytes, keyed: bool, nodes: nat, depth: nat, binding: bool, m: Mode)
    returns (t: Json)
    requires depth <= MAX_DEPTH && nodes <= MAX_NODES
    requires ScanContents(s, keyed, nodes, depth, binding, m).Ok?
    ensures var p := ScanContents(s, keyed, nodes, depth, binding, m).value;
      && [Open(keyed)] + s == Emit(t, p.rest) && Legal(t, depth, binding, 0, m) && (t.Empty? || t.Full?)
      && p.nodes == nodes + Nodes(t) - 1 && p.nodes <= MAX_NODES
    decreases |s|, 5
  {
    var inner := SkipBlanks(s);
    if StartsWith(inner, Close(keyed)) {
      var pad := SkipBlanksSplits(s);
      t := Empty(keyed, pad);
      Uncons(inner);
    } else {
      ScanElemsSkips(s, nodes, depth, binding, keyed, {}, m);
      var es := ScanElemsSound(s, nodes, depth, binding, keyed, {}, m);
      t := Full(keyed, es);
    }
  }

  lemma NoLead(lead: bytes, x: bytes)
    requires Blank(lead) && x != [] && !IsBlank((lead + x)[0])
    ensures lead == [] && lead + x == x
  {
  }

  lemma ScanTokenSound(v: bytes, nodes: nat) returns (t: Json)
    requires ScanToken(v, nodes).Ok?
    ensures t.Scalar? && IsScalarToken(t.token) && |t.token| <= SCALAR_BYTES
    ensures v == Emit(t, ScanToken(v, nodes).value.rest) && ScanToken(v, nodes).value.nodes == nodes
  {
    var n := TokenLength(v);
    var token := v[..n];
    t := Scalar(token);
    assert IsScalarToken(token) by {
      TokenExact(token);
    }
    Rejoin(v, n);
  }

  /** Skipping blanks before the first element, as the scanner does after the bracket, changes nothing. */
  lemma ScanElemsSkips(s: bytes, nodes: nat, depth: nat, binding: bool, keyed: bool, seen: set<bytes>, m: Mode)
    ensures ScanElems(SkipBlanks(s), nodes, depth, binding, keyed, seen, m)
         == ScanElems(s, nodes, depth, binding, keyed, seen, m)
  {
    var _ := SkipBlanksSplits(s);
    assert ScanElem(SkipBlanks(s), nodes, depth, binding, keyed, seen, m)
        == ScanElem(s, nodes, depth, binding, keyed, seen, m) by {
      ScanElemSkips(s, nodes, depth, binding, keyed, seen, m);
    }
  }

  lemma ScanElemSkips(s: bytes, nodes: nat, depth: nat, binding: bool, keyed: bool, seen: set<bytes>, m: Mode)
    ensures ScanElem(SkipBlanks(s), nodes, depth, binding, keyed, seen, m)
         == ScanElem(s, nodes, depth, binding, keyed, seen, m)
  {
    var _ := SkipBlanksSplits(s);
    if keyed {
      assert ScanName(SkipBlanks(s), nodes, keyed, seen) == ScanName(s, nodes, keyed, seen);
    }
  }

  lemma {:induction false} ScanFieldSound(field: bytes, v: bytes, nodes: nat, depth: nat, binding: bool, keyed: bool, m: Mode)
    returns (t: Json, trail: bytes)
    requires ScanField(field, v, nodes, depth, binding, keyed, m).Ok?
    requires v != [] ==> !IsBlank(v[0])
    ensures var r := ScanField(field, v, nodes, depth, binding, keyed, m).value;
      && Blank(trail) && v == Emit(t, trail + r.rest) && LegalField(field, t, keyed, depth, binding, m)
      && r.field == field && r.nodes == nodes + Nodes(t) && r.nodes <= MAX_NODES
    decreases |v|, 2
  {
    var inBinding := InBinding(field, depth, binding, keyed, m);
    var max := ValueCap(field, binding && keyed, m);
    var value := ScanValue(v, nodes, depth + 1, inBinding, max, m).value;
    var lead, tree := ScanValueSound(v, nodes, depth + 1, inBinding, max, m);
    t := tree;
    assert lead == [] && v == Emit(t, value.rest) && (v[0] == QUOTE <==> t.Text?)
        && (v[0] == OPEN_OBJECT <==> (t.Empty? || t.Full?) && t.keyed) by {
      EmitStart(t, value.rest, depth + 1, inBinding, max, m);
      NoLead(lead, Emit(t, value.rest));
    }
    EmitLength(t, value.rest);
    trail := SkipBlanksSplits(value.rest);
  }

  lemma {:induction false} ScanElemSound(s: bytes, nodes: nat, depth: nat, binding: bool, keyed: bool, seen: set<bytes>, m: Mode)
    returns (e: Elem)
    requires nodes <= MAX_NODES
    requires ScanElem(s, nodes, depth, binding, keyed, seen, m).Ok?
    ensures var r := ScanElem(s, nodes, depth, binding, keyed, seen, m).value;
      && s == EmitElem(e, r.rest) && LegalElem(e, keyed, depth, binding, m) && r.field == Field(e.name)
      && r.nodes == nodes + (if keyed then 1 else 0) + Nodes(e.value) && r.nodes <= MAX_NODES
      && (keyed ==> Field(e.name) !in seen)
    decreases |s|, 3
  {
    var name := ScanName(s, nodes, keyed, seen).value;
    var n := NameSound(s, nodes, keyed, seen);
    var gap := SkipBlanksSplits(name.rest);
    var t, trail := ScanFieldSound(name.field, SkipBlanks(name.rest), name.nodes, depth, binding, keyed, m);
    e := Elem(n, gap, t, trail);
  }

  lemma {:induction false} ScanElemsSound(s: bytes, nodes: nat, depth: nat, binding: bool, keyed: bool, seen: set<bytes>, m: Mode)
    returns (es: Elems)
    requires nodes <= MAX_NODES
    requires ScanElems(s, nodes, depth, binding, keyed, seen, m).Ok?
    ensures var p := ScanElems(s, nodes, depth, binding, keyed, seen, m).value;
      && s == EmitElems(es, keyed, p.rest) && LegalElems(es, keyed, depth, binding, m)
      && p.nodes == nodes + NodesOf(es) && p.nodes <= MAX_NODES
      && Fields(es, keyed) !! seen
    decreases |s|, 4
  {
    var r := ScanElem(s, nodes, depth, binding, keyed, seen, m).value;
    var e := ScanElemSound(s, nodes, depth, binding, keyed, seen, m);
    Uncons(r.rest);
    if StartsWith(r.rest, COMMA) {
      var tail := ScanElemsSound(r.rest[1..], r.nodes, depth, binding, keyed, Noted(seen, r.field, keyed), m);
      es := More(e, tail);
    } else {
      es := Last(e);
    }
  }

  // ---- Completeness: every legal tree's text is accepted

  lemma NameComplete(name: Name, rest: bytes, nodes: nat, keyed: bool, seen: set<bytes>)
    requires WfName(name, keyed) && |Field(name)| <= SCALAR_BYTES && (keyed ==> Field(name) !in seen)
    requires nodes + (if keyed then 1 else 0) <= MAX_NODES
    ensures ScanName(EmitName(name, rest), nodes, keyed, seen)
         == Ok(NameRead(Field(name), rest, nodes + (if keyed then 1 else 0)))
  {
    if keyed {
      var t := [COLON] + rest;
      SkipBlanksSkips(name.before, EmitString(name.key, name.after + t));
      ScanStringComplete(name.key, name.after + t, SCALAR_BYTES, false);
      SkipBlanksSkips(name.after, t);
    }
  }

  lemma {:induction false} ScanValueComplete(lead: bytes, t: Json, rest: bytes, nodes: nat, depth: nat, binding: bool, max: nat, m: Mode)
    requires Blank(lead) && Legal(t, depth, binding, max, m) && nodes + Nodes(t) <= MAX_NODES
    requires rest != [] ==> IsDelimiter(rest[0])
    ensures ScanValue(lead + Emit(t, rest), nodes, depth, binding, max, m) == Ok(Place(rest, nodes + Nodes(t)))
    decreases t, 1
  {
    EmitStart(t, rest, depth, binding, max, m);
    SkipBlanksSkips(lead, Emit(t, rest));
    ScanAtComplete(t, rest, nodes + 1, depth, binding, max, m);
  }

  lemma {:induction false} ScanAtComplete(t: Json, rest: bytes, nodes: nat, depth: nat, binding: bool, max: nat, m: Mode)
    requires Legal(t, depth, binding, max, m) && nodes + Nodes(t) - 1 <= MAX_NODES
    requires rest != [] ==> IsDelimiter(rest[0])
    ensures ScanAt(Emit(t, rest), nodes, depth, binding, max, m) == Ok(Place(rest, nodes + Nodes(t) - 1))
    decreases t, 0
  {
    var v := Emit(t, rest);
    EmitStart(t, rest, depth, binding, max, m);
    match t
    case Scalar(token) =>
      ScanTokenComplete(token, rest, nodes);
    case Text(chars) =>
      ScanStringComplete(chars, rest, max, binding);
    case Empty(keyed, pad) =>
      Cons(Open(keyed), pad + ([Close(keyed)] + rest));
      ScanPaddingComplete(keyed, pad, rest, nodes, depth, binding, m);
    case Full(keyed, elems) =>
      Cons(Open(keyed), EmitElems(elems, keyed, rest));
      ScanFullComplete(elems, rest, nodes, depth, binding, keyed, m);
  }

  lemma {:induction false} ScanFullComplete(es: Elems, rest: bytes, nodes: nat, depth: nat, binding: bool, keyed: bool, m: Mode)
    requires LegalElems(es, keyed, depth, binding, m) && nodes + NodesOf(es) <= MAX_NODES
    ensures ScanContents(EmitElems(es, keyed, rest), keyed, nodes, depth, binding, m) == Ok(Place(rest, nodes + NodesOf(es)))
    decreases es, 2
  {
    FirstIsNotClose(es, keyed, rest, depth, binding, m);
    ScanElemsSkips(EmitElems(es, keyed, rest), nodes, depth, binding, keyed, {}, m);
    ScanElemsComplete(es, rest, nodes, depth, binding, keyed, {}, m);
  }

  lemma ScanPaddingComplete(keyed: bool, pad: bytes, rest: bytes, nodes: nat, depth: nat, binding: bool, m: Mode)
    requires Blank(pad)
    ensures ScanContents(pad + ([Close(keyed)] + rest), keyed, nodes, depth, binding, m) == Ok(Place(rest, nodes))
  {
    SkipBlanksSkips(pad, [Close(keyed)] + rest);
    assert ([Close(keyed)] + rest)[1..] == rest;
  }

  lemma ScanTokenComplete(token: bytes, rest: bytes, nodes: nat)
    requires IsScalarToken(token) && |token| <= SCALAR_BYTES && (rest != [] ==> IsDelimiter(rest[0]))
    ensures ScanToken(token + rest, nodes) == Ok(Place(rest, nodes))
  {
    TokenShape(token);
    TokenExact(token);
    TokenRead(token, rest);
    Halves(token, rest);
  }

  /** A non-empty container's contents do not start, after blanks, with the closing bracket. */
  lemma FirstIsNotClose(es: Elems, keyed: bool, rest: bytes, depth: nat, binding: bool, m: Mode)
    requires LegalElems(es, keyed, depth, binding, m)
    ensures !StartsWith(SkipBlanks(EmitElems(es, keyed, rest)), Close(keyed))
  {
    var e := es.head;
    var after := if es.Last? then [Close(keyed)] + rest else [COMMA] + EmitElems(es.tail, keyed, rest);
    var v := Emit(e.value, e.trail + after);
    if keyed {
      SkipBlanksSkips(e.name.before, EmitString(e.name.key, e.name.after + ([COLON] + (e.gap + v))));
    } else {
      NotClosing(e.value, e.trail + after, Field(e.name), keyed, depth, binding, m);
      SkipBlanksSkips(e.gap, v);
    }
  }

  lemma NotClosing(t: Json, rest: bytes, field: bytes, keyed: bool, depth: nat, binding: bool, m: Mode)
    requires LegalField(field, t, keyed, depth, binding, m)
    ensures Emit(t, rest) != [] && Emit(t, rest)[0] != CLOSE_LIST && !IsBlank(Emit(t, rest)[0])
  {
    var inBinding := InBinding(field, depth, binding, keyed, m);
    assert Legal(t, depth + 1, inBinding, ValueCap(field, binding && keyed, m), m);
    if t.Scalar? {
      TokenShape(t.token);
    }
  }

  lemma {:induction false} ScanFieldComplete(field: bytes, t: Json, trail: bytes, after: bytes, nodes: nat, depth: nat, binding: bool, keyed: bool, m: Mode)
    requires LegalField(field, t, keyed, depth, binding, m) && nodes + Nodes(t) <= MAX_NODES
    requires Blank(trail) && after != [] && !IsBlank(after[0]) && IsDelimiter(after[0])
    ensures ScanField(field, Emit(t, trail + after), nodes, depth, binding, keyed, m)
         == Ok(ElemRead(field, after, nodes + Nodes(t)))
    decreases t, 6
  {
    var rest := trail + after;
    BlanksDelimit(trail, after);
    ScanFieldTo(field, t, rest, nodes, depth, binding, keyed, m);
    SkipBlanksSkips(trail, after);
  }

  lemma BlanksDelimit(trail: bytes, after: bytes)
    requires Blank(trail) && after != [] && IsDelimiter(after[0])
    ensures trail + after != [] && IsDelimiter((trail + after)[0])
  {
    assert (trail + after)[0] == if trail == [] then after[0] else trail[0];
  }

  lemma {:induction false} ScanFieldTo(field: bytes, t: Json, rest: bytes, nodes: nat, depth: nat, binding: bool, keyed: bool, m: Mode)
    requires LegalField(field, t, keyed, depth, binding, m) && nodes + Nodes(t) <= MAX_NODES
    requires rest != [] && IsDelimiter(rest[0])
    ensures ScanField(field, Emit(t, rest), nodes, depth, binding, keyed, m)
         == Ok(ElemRead(field, SkipBlanks(rest), nodes + Nodes(t)))
    decreases t, 5
  {
    var size := FieldEnds(field, t, rest, Place(rest, nodes + Nodes(t)), keyed, depth, binding, m);
    FieldReadsLegal(field, t, rest, size, nodes, depth, binding, keyed, m);
  }

  lemma {:induction false} FieldReadsLegal(field: bytes, t: Json, rest: bytes, size: nat, nodes: nat, depth: nat, binding: bool, keyed: bool, m: Mode)
    requires LegalField(field, t, keyed, depth, binding, m) && nodes + Nodes(t) <= MAX_NODES
    requires rest != [] && IsDelimiter(rest[0]) && size + |rest| == |Emit(t, rest)|
    ensures ScanField(field, Emit(t, rest), nodes, depth, binding, keyed, m)
         == FieldEnd(field, size, Place(rest, nodes + Nodes(t)), depth, m)
    decreases t, 4
  {
    StartIsAllowed(field, t, rest, keyed, depth, binding, m);
    FieldIsLegal(field, t, keyed, depth, binding, m);
    FieldReads(field, t, rest, size, nodes, depth, binding, keyed, m,
               InBinding(field, depth, binding, keyed, m), ValueCap(field, binding && keyed, m));
  }

  lemma FieldIsLegal(field: bytes, t: Json, keyed: bool, depth: nat, binding: bool, m: Mode)
    requires LegalField(field, t, keyed, depth, binding, m)
    ensures Legal(t, depth + 1, InBinding(field, depth, binding, keyed, m), ValueCap(field, binding && keyed, m), m)
  {
  }

  lemma StartIsAllowed(field: bytes, t: Json, rest: bytes, keyed: bool, depth: nat, binding: bool, m: Mode)
    requires LegalField(field, t, keyed, depth, binding, m)
    ensures StartAllowed(field, Emit(t, rest), depth, binding, keyed, m)
  {
    EmitStart(t, rest, depth + 1, InBinding(field, depth, binding, keyed, m), ValueCap(field, binding && keyed, m), m);
  }

  lemma {:induction false} FieldReads(field: bytes, t: Json, rest: bytes, size: nat, nodes: nat, depth: nat, binding: bool, keyed: bool,
                                      m: Mode, inBinding: bool, max: nat)
    requires inBinding == InBinding(field, depth, binding, keyed, m) && max == ValueCap(field, binding && keyed, m)
    requires Legal(t, depth + 1, inBinding, max, m) && nodes + Nodes(t) <= MAX_NODES
    requires rest != [] && IsDelimiter(rest[0]) && size + |rest| == |Emit(t, rest)|
    requires StartAllowed(field, Emit(t, rest), depth, binding, keyed, m)
    ensures ScanField(field, Emit(t, rest), nodes, depth, binding, keyed, m)
         == FieldEnd(field, size, Place(rest, nodes + Nodes(t)), depth, m)
    decreases t, 3
  {
    FieldValueComplete(t, rest, nodes, depth + 1, inBinding, max, m);
    ScanFieldReads(field, Emit(t, rest), Place(rest, nodes + Nodes(t)), size, nodes, depth, binding, keyed, m, inBinding, max);
  }

  lemma FieldEnds(field: bytes, t: Json, rest: bytes, value: Place, keyed: bool, depth: nat, binding: bool, m: Mode) returns (size: nat)
    requires LegalField(field, t, keyed, depth, binding, m)
    ensures size + |rest| == |Emit(t, rest)|
    ensures FieldEnd(field, size, value, depth, m) == Ok(ElemRead(field, SkipBlanks(value.rest), value.nodes))
  {
    EmitLength(t, rest);
    size := |Emit(t, rest)| - |rest|;
  }

  lemma ScanFieldReads(field: bytes, v: bytes, value: Place, size: nat, nodes: nat, depth: nat, binding: bool, keyed: bool, m: Mode,
                       inBinding: bool, max: nat)
    requires inBinding == InBinding(field, depth, binding, keyed, m) && max == ValueCap(field, binding && keyed, m)
    requires StartAllowed(field, v, depth, binding, keyed, m) && size + |value.rest| == |v|
    requires ScanValue(v, nodes, depth + 1, inBinding, max, m) == Ok(value)
    ensures ScanField(field, v, nodes, depth, binding, keyed, m) == FieldEnd(field, size, value, depth, m)
  {
  }

  lemma {:induction false} FieldValueComplete(t: Json, rest: bytes, nodes: nat, depth: nat, binding: bool, max: nat, m: Mode)
    requires Legal(t, depth, binding, max, m) && nodes + Nodes(t) <= MAX_NODES
    requires rest != [] && IsDelimiter(rest[0])
    ensures ScanValue(Emit(t, rest), nodes, depth, binding, max, m) == Ok(Place(rest, nodes + Nodes(t)))
    decreases t, 2
  {
    ScanValueComplete([], t, rest, nodes, depth, binding, max, m);
    assert [] + Emit(t, rest) == Emit(t, rest);
  }

  lemma {:induction false} ScanElemComplete(e: Elem, after: bytes, nodes: nat, depth: nat, binding: bool, keyed: bool, seen: set<bytes>, m: Mode)
    requires LegalElem(e, keyed, depth, binding, m) && (keyed ==> Field(e.name) !in seen)
    requires nodes + (if keyed then 1 else 0) + Nodes(e.value) <= MAX_NODES
    requires after != [] && !IsBlank(after[0]) && IsDelimiter(after[0])
    ensures ScanElem(EmitElem(e, after), nodes, depth, binding, keyed, seen, m)
         == Ok(ElemRead(Field(e.name), after, nodes + (if keyed then 1 else 0) + Nodes(e.value)))
    decreases e, 1
  {
    var v := Emit(e.value, e.trail + after);
    NameComplete(e.name, e.gap + v, nodes, keyed, seen);
    NotClosing(e.value, e.trail + after, Field(e.name), keyed, depth, binding, m);
    SkipBlanksSkips(e.gap, v);
    ScanFieldComplete(Field(e.name), e.value, e.trail, after, nodes + (if keyed then 1 else 0), depth, binding, keyed, m);
  }

  lemma {:induction false} ScanElemsComplete(es: Elems, rest: bytes, nodes: nat, depth: nat, binding: bool, keyed: bool, seen: set<bytes>, m: Mode)
    requires LegalElems(es, keyed, depth, binding, m) && nodes + NodesOf(es) <= MAX_NODES
    requires Fields(es, keyed) !! seen
    ensures ScanElems(EmitElems(es, keyed, rest), nodes, depth, binding, keyed, seen, m)
         == Ok(Place(rest, nodes + NodesOf(es)))
    decreases es, 1
  {
    var e := es.head;
    var next := nodes + (if keyed then 1 else 0) + Nodes(e.value);
    FieldIsNew(es, keyed, seen);
    if es.More? {
      var after := EmitElems(es.tail, keyed, rest);
      ScanElemComplete(e, [COMMA] + after, nodes, depth, binding, keyed, seen, m);
      ElemsGoOn(EmitElems(es, keyed, rest), after, Field(e.name), next, nodes, depth, binding, keyed, seen, m);
      TailIsNew(es, keyed, depth, binding, seen, m);
      ScanElemsComplete(es.tail, rest, next, depth, binding, keyed, Noted(seen, Field(e.name), keyed), m);
    } else {
      ScanElemComplete(e, [Close(keyed)] + rest, nodes, depth, binding, keyed, seen, m);
      ElemsEnd(EmitElems(es, keyed, rest), rest, Field(e.name), next, nodes, depth, binding, keyed, seen, m);
    }
  }

  lemma ElemsGoOn(s: bytes, after: bytes, field: bytes, next: nat, nodes: nat, depth: nat, binding: bool, keyed: bool, seen: set<bytes>, m: Mode)
    requires ScanElem(s, nodes, depth, binding, keyed, seen, m) == Ok(ElemRead(field, [COMMA] + after, next))
    ensures ScanElems(s, nodes, depth, binding, keyed, seen, m)
         == ScanElems(after, next, depth, binding, keyed, Noted(seen, field, keyed), m)
  {
    Cons(COMMA, after);
  }

  lemma ElemsEnd(s: bytes, rest: bytes, field: bytes, next: nat, nodes: nat, depth: nat, binding: bool, keyed: bool, seen: set<bytes>, m: Mode)
    requires ScanElem(s, nodes, depth, binding, keyed, seen, m) == Ok(ElemRead(field, [Close(keyed)] + rest, next))
    ensures ScanElems(s, nodes, depth, binding, keyed, seen, m) == Ok(Place(rest, next))
  {
    Cons(Close(keyed), rest);
  }

  lemma FieldIsNew(es: Elems, keyed: bool, seen: set<bytes>)
    requires Fields(es, keyed) !! seen
    ensures keyed ==> Field(es.head.name) !in seen
  {
    assert keyed ==> Field(es.head.name) in Fields(es, keyed);
  }

  lemma TailIsNew(es: Elems, keyed: bool, depth: nat, binding: bool, seen: set<bytes>, m: Mode)
    requires es.More? && LegalElems(es, keyed, depth, binding, m) && Fields(es, keyed) !! seen
    ensures Fields(es.tail, keyed) !! Noted(seen, Field(es.head.name), keyed)
  {
  }

  // ---- The main results

  /** `s` is a document: a legal tree within the node limit, with blanks around it. */
  ghost predicate IsDocument(s: bytes, lead: bytes, t: Json, trail: bytes) {
    Blank(lead) && Blank(trail) && s == lead + Emit(t, trail)
  }

  ghost predicate Admitted(s: bytes, m: Mode) {
    exists lead: bytes, t: Json, trail: bytes ::
      IsDocument(s, lead, t, trail) && Legal(t, 1, false, m.scalarMax, m) && Nodes(t) <= MAX_NODES
  }

  /** In every mode, the scanner accepts exactly the admitted texts. */
  lemma ScanExact(s: bytes, m: Mode)
    ensures ScanDocument(s, m).Ok? <==> Admitted(s, m)
  {
    if ScanDocument(s, m).Ok? {
      var p := ScanValue(s, 0, 1, false, m.scalarMax, m).value;
      var lead, t := ScanValueSound(s, 0, 1, false, m.scalarMax, m);
      var trail := SkipBlanksSplits(p.rest);
      assert p.rest == trail + [] == trail;
      assert IsDocument(s, lead, t, trail);
    }
    if Admitted(s, m) {
      var lead, t, trail :| IsDocument(s, lead, t, trail) && Legal(t, 1, false, m.scalarMax, m) && Nodes(t) <= MAX_NODES;
      ScanValueComplete(lead, t, trail, 0, 1, false, m.scalarMax, m);
      SkipBlanksSkips(trail, []);
      assert trail + [] == trail;
    }
  }

  /** Outside frames the limits are four independent conditions on a plain RFC 8259 tree. */
  lemma {:induction false} PlainLegal(t: Json, depth: nat, max: nat)
    requires depth <= MAX_DEPTH + 1
    ensures Legal(t, depth, false, max, Mode(false, max))
       <==> Rfc(t) && depth + Height(t) - 1 <= MAX_DEPTH && DistinctKeys(t) && Within(t, max)
    decreases t, 0
  {
    if t.Full? && depth <= MAX_DEPTH {
      PlainLegalElems(t.elems, t.keyed, depth, max);
    }
  }

  lemma {:induction false} PlainLegalElems(es: Elems, keyed: bool, depth: nat, max: nat)
    requires depth <= MAX_DEPTH
    ensures LegalElems(es, keyed, depth, false, Mode(false, max))
       <==> RfcElems(es, keyed) && depth + HeightOf(es) <= MAX_DEPTH && DistinctKeysOf(es, keyed) && WithinElems(es, max)
    decreases es, 1
  {
    var e := es.head;
    PlainLegal(e.value, depth + 1, max);
    assert LegalField(Field(e.name), e.value, keyed, depth, false, Mode(false, max))
      <==> Legal(e.value, depth + 1, false, max, Mode(false, max));
    if es.More? {
      PlainLegalElems(es.tail, keyed, depth, max);
    }
  }

  /** Plain JSON: an RFC 8259 text with distinct decoded keys, nested at most 32
      deep, of at most 16384 values and keys, every string and token within its cap. */
  ghost predicate PlainJson(s: bytes, max: nat) {
    exists lead: bytes, t: Json, trail: bytes ::
      && IsDocument(s, lead, t, trail) && Rfc(t)
      && Height(t) <= MAX_DEPTH && Nodes(t) <= MAX_NODES && DistinctKeys(t) && Within(t, max)
  }

  lemma PlainScanExact(s: bytes, max: nat)
    ensures ScanDocument(s, Mode(false, max)).Ok? <==> PlainJson(s, max)
  {
    var m := Mode(false, max);
    ScanExact(s, m);
    if Admitted(s, m) {
      var lead, t, trail :| IsDocument(s, lead, t, trail) && Legal(t, 1, false, m.scalarMax, m) && Nodes(t) <= MAX_NODES;
      PlainLegal(t, 1, max);
    }
    if PlainJson(s, max) {
      var lead, t, trail :| IsDocument(s, lead, t, trail) && Rfc(t)
        && Height(t) <= MAX_DEPTH && Nodes(t) <= MAX_NODES && DistinctKeys(t) && Within(t, max);
      PlainLegal(t, 1, max);
    }
  }
}
