/** The admission scanner itself: a cursor over the input that is advanced in
    place (crates/gaze-lens-protocol/src/bounds.rs), proved to compute `JsonScan`. */
module JsonScanner {
  import opened Bounds
  import opened JsonGrammar
  import opened JsonScan
  import opened Sequences
  import opened Utf8Text
  import opened Wrappers

  /** `char::from_u32`: everything but surrogates and values past U+10FFFF. */
  predicate IsScalarValue(cp: nat) {
    cp < 0x11_0000 && !IsHigh(cp) && !IsLow(cp)
  }

  /** `char::len_utf8`. */
  function LenUtf8(cp: nat): nat {
    if cp < 0x80 then 1 else if cp < 0x800 then 2 else if cp < 0x1_0000 then 3 else 4
  }

  /** `serde_json::from_str::<String>` on a key the scanner has admitted. */
  function SerdeString(key: bytes): Result<bytes> {
    var r :- ScanString(key, |key|, false);
    if r.rest == [] then Ok(r.decoded) else Err(InvalidRequest)
  }

  /** How many bytes a unit decodes to, and that byte if it is an ASCII one that may be a hex digit. */
  datatype Width = Width(len: nat, ascii: byte)

  ghost predicate Measures(w: Width, c: Char) {
    WfChar(c) && w.len == |DecodeChar(c)| && (LowerHex([w.ascii]) <==> LowerHex(DecodeChar(c)))
  }

  lemma MeasuresCode(c: Char)
    requires WfChar(c) && (c.Unicode? || c.Pair?)
    ensures var cp := CodePoint(c); Measures(Width(LenUtf8(cp), if cp < 128 then cp as byte else 0), c)
  {
    var cp := CodePoint(c);
    SingleHex(if cp < 128 then cp as byte else 0);
    assert cp >= 128 ==> Utf8(cp)[0] >= 128;
  }

  lemma SingleHex(b: byte)
    ensures LowerHex([b]) <==> IsDigit(b) || 97 <= b <= 102
  {
    assert [b][0] == b;
  }

  function HexPrefix(s: bytes, n: nat): nat
    requires n <= |s| && forall i {:trigger s[i]} | 0 <= i < n :: IsHex(s[i])
  {
    if n == 0 then 0 else HexPrefix(s, n - 1) * 16 + HexValue(s[n - 1])
  }

  lemma HexPrefixIsQuad(s: bytes)
    requires |s| >= 4 && IsHex(s[0]) && IsHex(s[1]) && IsHex(s[2]) && IsHex(s[3])
    ensures HexPrefix(s, 4) == QuadValue(Quad(s[0], s[1], s[2], s[3]))
  {
    assert HexPrefix(s, 1) == HexValue(s[0]);
    assert HexPrefix(s, 2) == HexPrefix(s, 1) * 16 + HexValue(s[1]);
    assert HexPrefix(s, 3) == HexPrefix(s, 2) * 16 + HexValue(s[2]);
  }

  // ---- Object keys: the borrowed slice is the decoded key

  lemma {:induction false} UnescapedIsRaw(cs: seq<Char>, rest: bytes)
    requires WfChars(cs)
    requires BACKSLASH !in EmitChars(cs, [])
    ensures EmitChars(cs, rest) == Decoded(cs) + ([QUOTE] + rest)
    decreases |cs|
  {
    if cs != [] {
      var tail := EmitChars(cs[1..], []);
      NotInEither(CharBytes(cs[0]), tail);
      assert cs[0].Raw?;
      UnescapedIsRaw(cs[1..], rest);
      Associates([cs[0].b], Decoded(cs[1..]), [QUOTE] + rest);
    }
  }

  lemma NotInEither(a: bytes, b: bytes)
    requires BACKSLASH !in a + b
    ensures BACKSLASH !in a && BACKSLASH !in b && (a != [] ==> a[0] != BACKSLASH)
  {
    assert forall i | 0 <= i < |a| :: a[i] == (a + b)[i];
    assert forall i | 0 <= i < |b| :: b[i] == (a + b)[|a| + i];
  }

  lemma {:induction false} DecodedIsNotLonger(cs: seq<Char>)
    requires WfChars(cs)
    ensures |Decoded(cs)| < |EmitChars(cs, [])|
    decreases |cs|
  {
    if cs != [] {
      DecodedIsNotLonger(cs[1..]);
    }
  }

  /** The text of an admitted key, cut out of the input. */
  lemma Wrapped(q: byte, s: bytes)
    ensures var t := [q] + (s + [q]); t[1..|t| - 1] == s
  {
  }

  /** The bytes of a scanned key are the text of the string scanned. */
  lemma KeyIsEmitted(s: bytes, key: bytes) returns (cs: seq<Char>)
    requires ScanString(s, SCALAR_BYTES, false).Ok?
    requires s == key + ScanString(s, SCALAR_BYTES, false).value.rest
    ensures WfChars(cs) && key == EmitString(cs, []) && key == [QUOTE] + EmitChars(cs, [])
    ensures Decoded(cs) == ScanString(s, SCALAR_BYTES, false).value.decoded
  {
    var r := ScanString(s, SCALAR_BYTES, false).value;
    cs := ScanStringSound(s, SCALAR_BYTES, false);
    EmitCharsSplits(cs, [], r.rest);
    Associates([QUOTE], EmitChars(cs, []), r.rest);
    assert EmitString(cs, []) + r.rest == key + r.rest;
    SameFront(EmitString(cs, []), key, r.rest);
  }

  lemma KeyText(s: bytes, key: bytes)
    requires ScanString(s, SCALAR_BYTES, false).Ok?
    requires s == key + ScanString(s, SCALAR_BYTES, false).value.rest
    ensures SerdeString(key) == Ok(ScanString(s, SCALAR_BYTES, false).value.decoded)
    ensures |key| >= 2 && key[0] == QUOTE && key[|key| - 1] == QUOTE
    ensures BACKSLASH !in key ==> key[1..|key| - 1] == ScanString(s, SCALAR_BYTES, false).value.decoded
  {
    var cs := KeyIsEmitted(s, key);
    DecodedIsNotLonger(cs);
    ScanStringComplete(cs, [], |key|, false);
    LastIsQuote(cs);
    if BACKSLASH !in key {
      RawKey(key, cs);
    }
  }

  lemma RawKey(key: bytes, cs: seq<Char>)
    requires WfChars(cs) && key == [QUOTE] + EmitChars(cs, []) && BACKSLASH !in key
    ensures |key| >= 2 && key[1..|key| - 1] == Decoded(cs)
  {
    NotInEither([QUOTE], EmitChars(cs, []));
    UnescapedIsRaw(cs, []);
    Wrapped(QUOTE, Decoded(cs));
  }

  lemma {:induction false} LastIsQuote(cs: seq<Char>)
    ensures EmitChars(cs, []) != [] && EmitChars(cs, [])[|EmitChars(cs, [])| - 1] == QUOTE
    decreases |cs|
  {
    if cs != [] {
      LastIsQuote(cs[1..]);
    }
  }

  lemma InnerSplits(s: bytes, start: nat, end: nat)
    requires start + 2 <= end <= |s|
    ensures s[start..end] == [s[start]] + (s[start + 1..end - 1] + [s[end - 1]])
  {
  }

  lemma OuterSplits(s: bytes, start: nat, end: nat)
    requires start + 2 <= end <= |s|
    ensures s == s[..start] + ([s[start]] + (s[start + 1..end - 1] + ([s[end - 1]] + s[end..])))
  {
    Rejoin(s, start);
    Pick(s, start);
    Part(s, start + 1, end - 1);
    Pick(s, end - 1);
  }

  lemma TokenGoesOn(s: bytes, i: nat)
    requires i < |s| && !IsDelimiter(s[i])
    ensures s[i..][1..] == s[i + 1..] && TokenLength(s[i..]) == 1 + TokenLength(s[i + 1..])
  {
    DropDrop(s, i, 1);
  }

  /** A field from its value on. */
  function ReadField(field: bytes, v: bytes, nodes: nat, depth: nat, inBinding: bool, max: nat, m: Mode): Result<ElemRead> {
    var value :- ScanValue(v, nodes, depth + 1, inBinding, max, m);
    FieldEnd(field, |v| - |value.rest|, value, depth, m)
  }

  lemma FieldIsRead(field: bytes, v: bytes, nodes: nat, depth: nat, binding: bool, keyed: bool, m: Mode)
    requires StartAllowed(field, v, depth, binding, keyed, m)
    ensures ScanField(field, v, nodes, depth, binding, keyed, m)
         == ReadField(field, v, nodes, depth, InBinding(field, depth, binding, keyed, m), ValueCap(field, binding && keyed, m), m)
  {
  }

  /** The second UTF-8 check on a key cannot fail: the key lies between two quotes of a valid text. */
  lemma KeyIsUtf8(text: bytes, start: nat, end: nat)
    requires ValidUtf8(text) && start + 2 <= end <= |text| && text[start] == QUOTE && text[end - 1] == QUOTE
    ensures ValidUtf8(text[start..end])
  {
    OuterSplits(text, start, end);
    InnerSplits(text, start, end);
    SliceAtAscii(text[..start], QUOTE, text[start + 1..end - 1], QUOTE, text[end..]);
  }

  // ---- The scanner

  class Scanner {
    const text: bytes
    const mode: Mode
    var at: nat
    var nodes: nat
    ghost var rest: bytes  // what is still to be read

    constructor (text: bytes, mode: Mode)
      ensures this.text == text && this.mode == mode && at == 0 && nodes == 0 && rest == text
    {
      this.text, this.mode := text, mode;
      at, nodes, rest := 0, 0, text;
    }

    ghost predicate Valid()
      reads this
    {
      at <= |text| && rest == text[at..] && ValidUtf8(text)
    }

    predicate Sees(b: byte)
      reads this
    {
      at < |text| && text[at] == b
    }

    /** Consumes the byte under the cursor. */
    method Advance() returns (b: byte)
      requires Valid() && at < |text|
      modifies this`at, this`rest
      ensures Valid() && at == old(at) + 1 && b == old(rest)[0] == text[old(at)]
      ensures rest == old(rest)[1..] && old(rest) == [b] + rest
    {
      b := text[at];
      at, rest := at + 1, rest[1..];
      DropDrop(text, at - 1, 1);
      Uncons(text[at - 1..]);
    }

    method Space()
      requires Valid()
      modifies this`at, this`rest
      ensures Valid() && at >= old(at) && rest == SkipBlanks(old(rest))
    {
      while at < |text| && IsBlank(text[at])
        invariant Valid() && at >= old(at)
        invariant SkipBlanks(rest) == SkipBlanks(old(rest))
        decreases |text| - at
      {
        var _ := Advance();
      }
    }

    method Node() returns (r: Result<()>)
      modifies this`nodes
      ensures nodes == old(nodes) + 1 && r == Cap(nodes, MAX_NODES)
    {
      nodes := nodes + 1;
      r := Cap(nodes, MAX_NODES);
    }

    method HexQuad() returns (r: Result<nat>)
      requires Valid()
      modifies this`at, this`rest
      ensures Valid() && at >= old(at)
      ensures match ScanQuad(old(rest))
        case Ok(quad) => r == Ok(QuadValue(quad.q)) && rest == quad.rest
        case Err(e) => r == Err(e)
    {
      ghost var s := rest;
      var value: nat := 0;
      for i := 0 to 4
        invariant Valid() && at == old(at) + i && i <= |s| && rest == s[i..]
        invariant forall k {:trigger s[k]} | 0 <= k < i :: IsHex(s[k])
        invariant value == HexPrefix(s, i)
      {
        if at >= |text| {
          return Err(InvalidRequest);
        }
        DropDrop(s, i, 1);
        var b := Advance();
        if !IsHex(b) {
          return Err(InvalidRequest);
        }
        value := value * 16 + HexValue(b);
      }
      HexPrefixIsQuad(s);
      return Ok(value);
    }

    /** The code point of a `\u` escape, after the `u`. */
    method UnicodeEscape() returns (r: Result<nat>)
      requires Valid()
      modifies this`at, this`rest
      ensures Valid() && at >= old(at)
      ensures match ScanUnicode(old(rest))
        case Ok(one) => r == Ok(CodePoint(one.c)) && rest == one.rest
        case Err(e) => r == Err(e)
    {
      ghost var s := rest;
      var cp :- HexQuad();
      if IsHigh(cp) {
        ghost var first := ScanQuad(s).value;
        cp :- LowHalf(cp, first.q);
      }
      return if IsScalarValue(cp) then Ok(cp) else Err(InvalidRequest);
    }

    /** Moves past a backslash and `u`. */
    method PastEscapeMark() returns (marked: bool)
      requires Valid()
      modifies this`at, this`rest
      ensures Valid() && at >= old(at)
      ensures marked == (|old(rest)| >= 2 && old(rest)[0] == BACKSLASH && old(rest)[1] == 117)
      ensures marked ==> rest == old(rest)[2..]
    {
      if !Sees(BACKSLASH) {
        return false;
      }
      var _ := Advance();
      if !Sees(117) {
        return false;
      }
      var _ := Advance();
      DropDrop(old(rest), 1, 1);
      marked := true;
    }

    /** The second half of a surrogate pair, combined with the first. */
    method LowHalf(high: nat, ghost q: Quad) returns (r: Result<nat>)
      requires Valid() && WfQuad(q) && high == QuadValue(q) && IsHigh(high)
      modifies this`at, this`rest
      ensures Valid() && at >= old(at)
      ensures match ScanLowHalf(q, old(rest))
        case Ok(one) => r == Ok(CodePoint(one.c)) && rest == one.rest
        case Err(e) => r == Err(e)
    {
      var marked := PastEscapeMark();
      if !marked {
        return Err(InvalidRequest);
      }
      var low :- HexQuad();
      if !IsLow(low) {
        return Err(InvalidRequest);
      }
      return Ok(0x1_0000 + (high - 0xd800) * 1024 + low - 0xdc00);
    }

    /** One unit of a string's contents: the body of the loop in `String`. */
    method Unit(b: byte) returns (r: Result<Width>)
      requires Valid() && b != QUOTE
      modifies this`at, this`rest
      ensures Valid() && at >= old(at)
      ensures match ScanChar([b] + old(rest))
        case Ok(one) => r.Ok? && Measures(r.value, one.c) && rest == one.rest
        case Err(e) => r == Err(e)
    {
      ghost var s := [b] + rest;
      Cons(b, rest);
      if b <= 31 {
        return Err(InvalidRequest);
      }
      if b != BACKSLASH {
        return Ok(Width(1, b));
      }
      if at >= |text| {
        return Err(InvalidRequest);
      }
      var escape := Advance();
      DropDrop(s, 1, 1);
      assert s[1] == escape;
      if IsShort(escape) {
        SingleHex(0);
        SingleHex(ShortValue(escape));
        return Ok(Width(1, 0));
      }
      if escape != 117 {
        return Err(InvalidRequest);
      }
      DropDrop(s, 1, 1);
      var cp :- UnicodeEscape();
      MeasuresCode(ScanUnicode(s[2..]).value.c);
      return Ok(Width(LenUtf8(cp), if cp < 128 then cp as byte else 0));
    }

    /** Validates a string and counts its decoded bytes; yields the bytes it occupies, quotes included. */
    method String(max: nat, opaq: bool) returns (r: Result<bytes>)
      requires Valid()
      modifies this`at, this`rest
      ensures Valid() && at >= old(at)
      ensures match ScanString(old(rest), max, opaq)
        case Ok(str) => r == Ok(text[old(at)..at]) && rest == str.rest && at > old(at)
        case Err(e) => r == Err(e)
    {
      var start := at;
      ghost var expected := ScanString(rest, max, opaq);
      if !Sees(QUOTE) {
        return Err(InvalidRequest);
      }
      var _ := Advance();
      var decoded := 0;
      ghost var acc: bytes := [];
      while true
        invariant Valid() && at > start && decoded == |acc|
        invariant ScanChars(rest, acc, max, opaq) == expected
        decreases |text| - at
      {
        if at >= |text| {
          return Err(InvalidRequest);
        }
        ghost var s := rest;
        var b := Advance();
        if b == QUOTE {
          break;
        }
        var w :- Unit(b);
        ghost var d := DecodeChar(ScanChar(s).value.c);
        decoded := decoded + w.len;
        var _ :- Cap(decoded, max);
        if opaq && !LowerHex([w.ascii]) {
          return Err(InvalidRequest);
        }
        acc := acc + d;
      }
      if opaq && decoded != 32 {
        return Err(InvalidRequest);
      }
      return Ok(text[start..at]);
    }

    /** A member's key, its colon, and the duplicate check. */
    method Key(keys: set<bytes>) returns (r: Result<bytes>)
      requires Valid()
      modifies this
      ensures Valid() && at >= old(at)
      ensures match ScanName(old(rest), old(nodes), true, keys)
        case Ok(name) => r == Ok(name.field) && rest == name.rest && nodes == name.nodes && at > old(at)
        case Err(e) => r == Err(e)
    {
      var _ :- Node();
      Space();
      ghost var s := rest;
      var field :- KeyString();
      if field in keys {
        return Err(InvalidRequest);
      }
      var colon := PastColon();
      return if colon then Ok(field) else Err(InvalidRequest);
    }

    /** Moves past blanks and a colon. */
    method PastColon() returns (seen: bool)
      requires Valid()
      modifies this`at, this`rest
      ensures Valid() && at >= old(at)
      ensures seen == StartsWith(SkipBlanks(old(rest)), COLON)
      ensures seen ==> rest == SkipBlanks(old(rest))[1..] && at > old(at)
    {
      Space();
      seen := Sees(COLON);
      if seen {
        var _ := Advance();
      }
    }

    /** The key string, decoded only when it holds an escape. */
    method KeyString() returns (r: Result<bytes>)
      requires Valid()
      modifies this`at, this`rest
      ensures Valid() && at >= old(at)
      ensures match ScanString(old(rest), SCALAR_BYTES, false)
        case Ok(str) => r == Ok(str.decoded) && rest == str.rest && at > old(at)
        case Err(e) => r == Err(e)
    {
      ghost var s, start := rest, at;
      var key :- String(SCALAR_BYTES, false);
      KeyText(s, key);
      KeyIsUtf8(text, start, at);
      r := KeyValue(key, s);
    }

    /** What a key's bytes decode to; the second UTF-8 check never fails. */
    method KeyValue(key: bytes, ghost s: bytes) returns (r: Result<bytes>)
      requires ScanString(s, SCALAR_BYTES, false).Ok? && s == key + ScanString(s, SCALAR_BYTES, false).value.rest
      requires ValidUtf8(key)
      ensures r == Ok(ScanString(s, SCALAR_BYTES, false).value.decoded)
    {
      KeyText(s, key);
      if !ValidUtf8(key) {
        return Err(InvalidRequest);
      }
      if BACKSLASH in key {
        r := SerdeString(key);
      } else {
        r := Ok(key[1..|key| - 1]);
      }
    }

    /** A JSON value and the blanks before it. */
    method Value(depth: nat, binding: bool, max: nat) returns (r: Result<()>)
      requires Valid()
      modifies this
      ensures Valid() && at >= old(at)
      ensures match ScanValue(old(rest), old(nodes), depth, binding, max, mode)
        case Ok(p) => r.Ok? && rest == p.rest && nodes == p.nodes && at > old(at)
        case Err(e) => r == Err(e)
      decreases |text| - at, 2
    {
      var _ :- Cap(depth, MAX_DEPTH);
      var _ :- Node();
      Space();
      r := ValueHere(depth, binding, max);
    }

    /** A value from its first byte. */
    method ValueHere(depth: nat, binding: bool, max: nat) returns (r: Result<()>)
      requires Valid()
      modifies this
      ensures Valid() && at >= old(at)
      ensures match ScanAt(old(rest), old(nodes), depth, binding, max, mode)
        case Ok(p) => r.Ok? && rest == p.rest && nodes == p.nodes && at > old(at)
        case Err(e) => r == Err(e)
      decreases |text| - at, 1
    {
      if at >= |text| {
        return Err(InvalidRequest);
      }
      if text[at] == QUOTE {
        var _ :- String(max, binding);
        return Ok(());
      }
      if text[at] == OPEN_OBJECT || text[at] == OPEN_LIST {
        r := Container(depth, binding);
        return r;
      }
      r := Token();
    }

    method Token() returns (r: Result<()>)
      requires Valid()
      modifies this`at, this`rest
      ensures Valid() && at >= old(at)
      ensures match ScanToken(old(rest), old(nodes))
        case Ok(p) => r.Ok? && rest == p.rest && at > old(at)
        case Err(e) => r == Err(e)
    {
      var token := PastToken();
      if !(token == NULL || token == TRUE || token == FALSE) {
        var ok := RecogniseNumber(token);
        if !ok {
          return Err(InvalidRequest);
        }
      }
      r := Cap(|token|, SCALAR_BYTES);
    }

    /** Moves to the next delimiter and yields the bytes passed over. */
    method PastToken() returns (token: bytes)
      requires Valid()
      modifies this`at, this`rest
      ensures Valid() && at == old(at) + |token|
      ensures |token| == TokenLength(old(rest)) && token == old(rest)[..|token|] && rest == old(rest)[|token|..]
    {
      var start := at;
      ghost var s, n: nat := rest, 0;
      while at < |text| && !IsDelimiter(text[at])
        invariant Valid() && at == start + n && n <= |s| && rest == s[n..]
        invariant TokenLength(s) == n + TokenLength(rest)
        decreases |text| - at
      {
        TokenGoesOn(s, n);
        var _ := Advance();
        n := n + 1;
      }
      token := text[start..at];
    }

    /** An array or object, from its opening bracket. */
    method Container(depth: nat, binding: bool) returns (r: Result<()>)
      requires Valid() && (Sees(OPEN_OBJECT) || Sees(OPEN_LIST))
      modifies this
      ensures Valid() && at >= old(at)
      ensures match ScanContents(old(rest)[1..], old(Sees(OPEN_OBJECT)), old(nodes), depth, binding, mode)
        case Ok(p) => r.Ok? && rest == p.rest && nodes == p.nodes
        case Err(e) => r == Err(e)
      decreases |text| - at, 0
    {
      var keyed := text[at] == OPEN_OBJECT;
      var end := Close(keyed);
      var _ := Advance();
      Space();
      if Sees(end) {
        var _ := Advance();
        return Ok(());
      }
      r := Elements(depth, binding, keyed);
    }

    /** The elements of a non-empty container and its closing bracket. */
    method Elements(depth: nat, binding: bool, keyed: bool) returns (r: Result<()>)
      requires Valid()
      modifies this
      ensures Valid() && at >= old(at)
      ensures match ScanElems(old(rest), old(nodes), depth, binding, keyed, {}, mode)
        case Ok(p) => r.Ok? && rest == p.rest && nodes == p.nodes
        case Err(e) => r == Err(e)
      decreases |text| - at, 5
    {
      var keys: set<bytes> := {};
      ghost var expected := ScanElems(rest, nodes, depth, binding, keyed, keys, mode);
      while true
        invariant Valid() && at >= old(at)
        invariant ScanElems(rest, nodes, depth, binding, keyed, keys, mode) == expected
        decreases |text| - at
      {
        var field :- Element(depth, binding, keyed, keys);
        if keyed {
          keys := keys + {field};
        }
        if Sees(COMMA) {
          var _ := Advance();
        } else if Sees(Close(keyed)) {
          var _ := Advance();
          return Ok(());
        } else {
          return Err(InvalidRequest);
        }
      }
    }

    /** One element of a container and the blanks after it; yields its field name. */
    method Element(depth: nat, binding: bool, keyed: bool, keys: set<bytes>) returns (r: Result<bytes>)
      requires Valid()
      modifies this
      ensures Valid() && at >= old(at)
      ensures match ScanElem(old(rest), old(nodes), depth, binding, keyed, keys, mode)
        case Ok(e) => r == Ok(e.field) && rest == e.rest && nodes == e.nodes && at > old(at)
        case Err(e) => r == Err(e)
      decreases |text| - at, 4
    {
      var field: bytes := [];
      if keyed {
        field :- Key(keys);
      }
      Space();
      var _ :- FieldValue(field, depth, binding, keyed);
      return Ok(field);
    }

    /** The value of `field`, under the rules its name and place impose, and the blanks after it. */
    method FieldValue(field: bytes, depth: nat, binding: bool, keyed: bool) returns (r: Result<()>)
      requires Valid()
      modifies this
      ensures Valid() && at >= old(at)
      ensures match ScanField(field, old(rest), old(nodes), depth, binding, keyed, mode)
        case Ok(e) => r.Ok? && e.field == field && rest == e.rest && nodes == e.nodes && at > old(at)
        case Err(e) => r == Err(e)
      decreases |text| - at, 3, 1
    {
      var bindingField := binding && keyed;
      var childBinding := mode.frame && depth == 1 && field == BINDING;
      var _ :- FieldStart(bindingField, childBinding);
      FieldIsRead(field, rest, nodes, depth, binding, keyed, mode);
      r := FieldRest(field, depth, bindingField || childBinding, ValueCap(field, bindingField, mode));
    }

    /** The value of `field`, its size, and the blanks after it. */
    method FieldRest(field: bytes, depth: nat, inBinding: bool, max: nat) returns (r: Result<()>)
      requires Valid()
      modifies this
      ensures Valid() && at >= old(at)
      ensures match ReadField(field, old(rest), old(nodes), depth, inBinding, max, mode)
        case Ok(e) => r.Ok? && e.field == field && rest == e.rest && nodes == e.nodes && at > old(at)
        case Err(e) => r == Err(e)
      decreases |text| - at, 3, 0
    {
      var start := at;
      var _ :- Value(depth + 1, inBinding, max);
      r := FieldTail(field, at - start, depth);
    }

    /** The size of the value against its cap, and the blanks after it. */
    method FieldTail(field: bytes, size: nat, depth: nat) returns (r: Result<()>)
      requires Valid()
      modifies this`at, this`rest
      ensures Valid() && at >= old(at)
      ensures match FieldEnd(field, size, Place(old(rest), nodes), depth, mode)
        case Ok(e) => r.Ok? && rest == e.rest
        case Err(e) => r == Err(e)
    {
      var _ :- FieldSizeCap(field, size, depth);
      Space();
      return Ok(());
    }

    /** A field of the binding must be a string, and the binding an object. */
    method FieldStart(bindingField: bool, childBinding: bool) returns (r: Result<()>)
      requires Valid()
      ensures r == if (bindingField ==> StartsWith(rest, QUOTE)) && (childBinding ==> StartsWith(rest, OPEN_OBJECT)) then Ok(())
                   else Err(InvalidRequest)
    {
      if bindingField && !Sees(QUOTE) {
        return Err(InvalidRequest);
      }
      if childBinding && !Sees(OPEN_OBJECT) {
        return Err(InvalidRequest);
      }
      return Ok(());
    }

    method FieldSizeCap(field: bytes, size: nat, depth: nat) returns (r: Result<()>)
      ensures r == if SizeAllowed(field, size, depth, mode) then Ok(()) else Err(CapExceeded)
    {
      if mode.frame && depth == 1 {
        if field == ARGS {
          return Cap(size, REQUEST_BYTES);
        }
        if field == RESULT {
          return Cap(size, RESULT_BYTES);
        }
      }
      return Ok(());
    }
  }

  // ---- `number`

  /** Moves an index past a run of digits. */
  method PastDigits(s: bytes, i: nat) returns (j: nat)
    requires i <= |s|
    ensures i <= j <= |s| && j == i + DigitRun(s[i..])
  {
    j := i;
    while j < |s| && IsDigit(s[j])
      invariant i <= j <= |s|
      invariant i + DigitRun(s[i..]) == j + DigitRun(s[j..])
    {
      DropDrop(s, j, 1);
      j := j + 1;
    }
  }

  /** Past the optional fraction, if it has digits. */
  method PastFraction(s: bytes, i: nat) returns (ok: bool, j: nat)
    requires i <= |s|
    ensures j <= |s| && (AfterWhole(s[i..]) <==> ok && AfterFraction(s[j..]))
  {
    if i >= |s| || s[i] != DOT {
      return true, i;
    }
    var start := i + 1;
    DropDrop(s, i, 1);
    j := PastDigits(s, start);
    DropDrop(s, i, j - i);
    ok := j != start;
  }

  /** Past the optional exponent, if it has digits. */
  method PastExponent(s: bytes, i: nat) returns (ok: bool, j: nat)
    requires i <= |s|
    ensures j <= |s| && (AfterFraction(s[i..]) <==> ok && j == |s|)
  {
    if i >= |s| || (s[i] != 101 && s[i] != 69) {
      return true, i;
    }
    var start := if i + 1 < |s| && (s[i + 1] == 43 || s[i + 1] == MINUS) then i + 2 else i + 1;
    DropDrop(s, i, start - i);
    j := PastDigits(s, start);
    ok := j != start;
  }

  /** Past the sign and the whole part, if there is one. */
  method PastWhole(s: bytes) returns (ok: bool, i: nat)
    ensures i <= |s| && (IsNumber(s) <==> ok && AfterWhole(s[i..]))
  {
    var start := if s != [] && s[0] == MINUS then 1 else 0;
    if start < |s| && s[start] == ZERO {
      DropDrop(s, start, 1);
      return true, start + 1;
    }
    if start >= |s| || !IsDigit(s[start]) {
      return false, start;
    }
    i := PastDigits(s, start);
    DropDrop(s, start, i - start);
    ok := true;
  }

  method RecogniseNumber(s: bytes) returns (ok: bool)
    ensures ok <==> IsJsonNumber(s)
    ensures ok <==> IsNumber(s)
  {
    NumberExact(s);
    var whole, i := PastWhole(s);
    if !whole {
      return false;
    }
    var fraction, j := PastFraction(s, i);
    if !fraction {
      return false;
    }
    var exponent, k := PastExponent(s, j);
    ok := exponent && k == |s|;
  }

  // ---- Entry points

  /** Accepts exactly the well-formed UTF-8 texts within `max` bytes that are admitted in the mode. */
  method ScanJson(s: bytes, max: nat, frame: bool, scalarMax: nat) returns (r: Result<()>)
    ensures r.Ok? <==> |s| <= max && ValidUtf8(s) && Admitted(s, Mode(frame, scalarMax))
  {
    var mode := Mode(frame, scalarMax);
    ScanExact(s, mode);
    var _ :- Cap(|s|, max);
    if !ValidUtf8(s) {
      return Err(InvalidRequest);
    }
    var scan := new Scanner(s, mode);
    var _ :- scan.Value(1, false, scalarMax);
    scan.Space();
    return Require(scan.at == |s|);
  }

  /** `json` and `source_json`: plain JSON under a string cap. */
  method PlainScan(s: bytes, max: nat, scalarMax: nat) returns (r: Result<()>)
    ensures r.Ok? <==> |s| <= max && ValidUtf8(s) && PlainJson(s, scalarMax)
  {
    ScanExact(s, Mode(false, scalarMax));
    PlainScanExact(s, scalarMax);
    r := ScanJson(s, max, false, scalarMax);
  }
}
