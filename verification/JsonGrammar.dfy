/** JSON texts as RFC 8259 sections 2 to 7 define them, written as concrete
    syntax trees together with the bytes each tree stands for.

    Every `Emit` function takes the bytes that follow: `Emit(t, rest)` is the text
    of `t` followed by `rest`. A document is a text `lead + Emit(t, trail)` with
    blank `lead` and `trail`. */
module JsonGrammar {
  import opened Bounds
  import opened Sequences

  const QUOTE: byte := 34
  const COMMA: byte := 44
  const MINUS: byte := 45
  const DOT: byte := 46
  const ZERO: byte := 48
  const COLON: byte := 58
  const OPEN_LIST: byte := 91
  const BACKSLASH: byte := 92
  const CLOSE_LIST: byte := 93
  const OPEN_OBJECT: byte := 123
  const CLOSE_OBJECT: byte := 125

  predicate IsBlank(b: byte) {
    b == 32 || b == 9 || b == 13 || b == 10
  }

  predicate Blank(s: bytes) {
    forall i | 0 <= i < |s| :: IsBlank(s[i])
  }

  predicate IsDigit(b: byte) {
    48 <= b <= 57
  }

  predicate Digits(s: bytes) {
    forall i | 0 <= i < |s| :: IsDigit(s[i])
  }

  // ---- Numbers (section 6)

  datatype Exponent = NoExponent | Exponent(letter: byte, sign: bytes, digits: bytes)

  /** An empty `frac` stands for "no fraction part". */
  datatype Number = Number(minus: bool, whole: bytes, frac: bytes, exp: Exponent)

  predicate WfExponent(e: Exponent) {
    e.Exponent? ==>
      && (e.letter == 101 || e.letter == 69)
      && (e.sign == [] || e.sign == [43] || e.sign == [MINUS])
      && e.digits != [] && Digits(e.digits)
  }

  predicate WfNumber(n: Number) {
    && n.whole != [] && Digits(n.whole)
    && (|n.whole| == 1 || n.whole[0] != ZERO)
    && Digits(n.frac)
    && WfExponent(n.exp)
  }

  function EmitExponent(e: Exponent): bytes {
    if e.NoExponent? then [] else [e.letter] + (e.sign + e.digits)
  }

  function EmitFraction(frac: bytes, rest: bytes): bytes {
    if frac == [] then rest else [DOT] + (frac + rest)
  }

  function EmitUnsigned(n: Number): bytes {
    n.whole + EmitFraction(n.frac, EmitExponent(n.exp))
  }

  function EmitNumber(n: Number): bytes {
    if n.minus then [MINUS] + EmitUnsigned(n) else EmitUnsigned(n)
  }

  ghost predicate IsJsonNumber(s: bytes) {
    exists n: Number :: WfNumber(n) && EmitNumber(n) == s
  }

  // ---- Literals (section 3)

  const NULL: bytes := [110, 117, 108, 108]
  const TRUE: bytes := [116, 114, 117, 101]
  const FALSE: bytes := [102, 97, 108, 115, 101]

  ghost predicate IsScalarToken(s: bytes) {
    s == NULL || s == TRUE || s == FALSE || IsJsonNumber(s)
  }

  // ---- Strings (section 7)

  datatype Quad = Quad(a: byte, b: byte, c: byte, d: byte)

  /** One unit inside the quotes: a literal byte, a short escape, a `\u` escape
      outside the surrogate range, or a paired surrogate escape. */
  datatype Char = Raw(b: byte) | Short(e: byte) | Unicode(q: Quad) | Pair(high: Quad, low: Quad)

  predicate IsHex(b: byte) {
    48 <= b <= 57 || 97 <= b <= 102 || 65 <= b <= 70
  }

  function HexValue(b: byte): (v: nat)
    requires IsHex(b)
    ensures v < 16
  {
    (if b <= 57 then b - 48 else if b <= 70 then b - 55 else b - 87) as nat
  }

  predicate WfQuad(q: Quad) {
    IsHex(q.a) && IsHex(q.b) && IsHex(q.c) && IsHex(q.d)
  }

  function QuadValue(q: Quad): (v: nat)
    requires WfQuad(q)
    ensures v < 0x1_0000
  {
    ((HexValue(q.a) * 16 + HexValue(q.b)) * 16 + HexValue(q.c)) * 16 + HexValue(q.d)
  }

  predicate IsHigh(cp: nat) {
    0xd800 <= cp <= 0xdbff
  }

  predicate IsLow(cp: nat) {
    0xdc00 <= cp <= 0xdfff
  }

  predicate IsShort(e: byte) {
    e == QUOTE || e == BACKSLASH || e == 47 || e == 98 || e == 102 || e == 110 || e == 114 || e == 116
  }

  function ShortValue(e: byte): byte {
    if e == 98 then 8 else if e == 102 then 12 else if e == 110 then 10
    else if e == 114 then 13 else if e == 116 then 9 else e
  }

  predicate WfChar(c: Char) {
    match c
    case Raw(b) => b > 31 && b != QUOTE && b != BACKSLASH
    case Short(e) => IsShort(e)
    case Unicode(q) => WfQuad(q) && !IsHigh(QuadValue(q)) && !IsLow(QuadValue(q))
    case Pair(high, low) => WfQuad(high) && WfQuad(low) && IsHigh(QuadValue(high)) && IsLow(QuadValue(low))
  }

  function CodePoint(c: Char): (cp: nat)
    requires WfChar(c) && (c.Unicode? || c.Pair?)
    ensures cp < 0x11_0000
  {
    if c.Unicode? then QuadValue(c.q)
    else 0x1_0000 + (QuadValue(c.high) - 0xd800) * 1024 + (QuadValue(c.low) - 0xdc00)
  }

  /** The UTF-8 bytes of a code point (RFC 3629 section 3). */
  function Utf8(cp: nat): (s: bytes)
    requires cp < 0x11_0000
    ensures 1 <= |s| <= 4
    ensures cp < 128 ==> s == [cp as byte]
    ensures cp >= 128 ==> forall i | 0 <= i < |s| :: s[i] >= 128
  {
    if cp < 0x80 then [cp as byte]
    else if cp < 0x800 then [Tail(0xc0, cp / 64), Tail(0x80, cp % 64)]
    else if cp < 0x1_0000 then [Tail(0xe0, cp / 4096), Tail(0x80, cp / 64 % 64), Tail(0x80, cp % 64)]
    else [Tail(0xf0, cp / 262144), Tail(0x80, cp / 4096 % 64), Tail(0x80, cp / 64 % 64), Tail(0x80, cp % 64)]
  }

  /** `bits` under the marker of a lead or continuation byte. */
  function Tail(marker: nat, bits: nat): (b: byte)
    requires marker + bits < 256
    ensures b as int == marker + bits
  {
    (marker + bits) as byte
  }

  function DecodeChar(c: Char): (s: bytes)
    requires WfChar(c)
    ensures s != []
  {
    match c
    case Raw(b) => [b]
    case Short(e) => [ShortValue(e)]
    case _ => Utf8(CodePoint(c))
  }

  function QuadBytes(q: Quad): bytes {
    [q.a, q.b, q.c, q.d]
  }

  function CharBytes(c: Char): (s: bytes)
    ensures s != [] && (c.Raw? ==> s == [c.b]) && (!c.Raw? ==> s[0] == BACKSLASH)
  {
    match c
    case Raw(b) => [b]
    case Short(e) => [BACKSLASH, e]
    case Unicode(q) => [BACKSLASH, 117] + QuadBytes(q)
    case Pair(high, low) => [BACKSLASH, 117] + QuadBytes(high) + [BACKSLASH, 117] + QuadBytes(low)
  }

  lemma UnicodeText(q: Quad, rest: bytes)
    ensures [BACKSLASH, 117] + (QuadBytes(q) + rest) == CharBytes(Unicode(q)) + rest
  {
    Associates([BACKSLASH, 117], QuadBytes(q), rest);
  }

  lemma PairText(high: Quad, low: Quad, rest: bytes)
    ensures [BACKSLASH, 117] + (QuadBytes(high) + ([BACKSLASH, 117] + (QuadBytes(low) + rest))) == CharBytes(Pair(high, low)) + rest
  {
    var u: bytes := [BACKSLASH, 117];
    var a, b := QuadBytes(high), QuadBytes(low);
    Associates(u + a + u, b, rest);
    Associates(u + a, u, b + rest);
    Associates(u, a, u + (b + rest));
  }

  predicate WfChars(cs: seq<Char>) {
    forall i | 0 <= i < |cs| :: WfChar(cs[i])
  }

  /** The decoded contents, as UTF-8 bytes. */
  function Decoded(cs: seq<Char>): bytes
    requires WfChars(cs)
  {
    if cs == [] then [] else DecodeChar(cs[0]) + Decoded(cs[1..])
  }

  function EmitChars(cs: seq<Char>, rest: bytes): bytes {
    if cs == [] then [QUOTE] + rest else CharBytes(cs[0]) + EmitChars(cs[1..], rest)
  }

  function EmitString(cs: seq<Char>, rest: bytes): bytes {
    [QUOTE] + EmitChars(cs, rest)
  }

  // ---- Values, arrays and objects (sections 2 to 5)

  /** `Empty` is `[ ]` or `{ }` with its padding; `Full` has at least one element. */
  datatype Json =
    | Scalar(token: bytes)
    | Text(chars: seq<Char>)
    | Empty(keyed: bool, pad: bytes)
    | Full(keyed: bool, elems: Elems)

  datatype Elems = Last(head: Elem) | More(head: Elem, tail: Elems)

  /** `gap` precedes the value, `trail` follows it. */
  datatype Elem = Elem(name: Name, gap: bytes, value: Json, trail: bytes)

  /** Array elements have no name; object members have a key and the blanks around it. */
  datatype Name = NoName | Name(before: bytes, key: seq<Char>, after: bytes)

  function Open(keyed: bool): byte {
    if keyed then OPEN_OBJECT else OPEN_LIST
  }

  function Close(keyed: bool): byte {
    if keyed then CLOSE_OBJECT else CLOSE_LIST
  }

  function Emit(t: Json, rest: bytes): bytes
    decreases t, 0
  {
    match t
    case Scalar(token) => token + rest
    case Text(chars) => EmitString(chars, rest)
    case Empty(keyed, pad) => [Open(keyed)] + (pad + ([Close(keyed)] + rest))
    case Full(keyed, elems) => [Open(keyed)] + EmitElems(elems, keyed, rest)
  }

  function EmitElems(es: Elems, keyed: bool, rest: bytes): bytes
    decreases es, 1
  {
    match es
    case Last(head) => EmitElem(head, [Close(keyed)] + rest)
    case More(head, tail) => EmitElem(head, [COMMA] + EmitElems(tail, keyed, rest))
  }

  function EmitElem(e: Elem, rest: bytes): bytes
    decreases e, 1
  {
    EmitName(e.name, e.gap + Emit(e.value, e.trail + rest))
  }

  function EmitName(n: Name, rest: bytes): bytes {
    if n.NoName? then rest else n.before + EmitString(n.key, n.after + ([COLON] + rest))
  }

  /** The bytes of the value alone. */
  function Bytes(t: Json): bytes {
    Emit(t, [])
  }

  // ---- Measures

  /** One per value and one per object key. */
  function Nodes(t: Json): (n: nat)
    ensures n > 0
    decreases t, 0
  {
    if t.Full? then 1 + NodesOf(t.elems) else 1
  }

  function NodesOf(es: Elems): (n: nat)
    ensures n > 0
    decreases es, 1
  {
    (if es.head.name.NoName? then 0 else 1) + Nodes(es.head.value) + (if es.More? then NodesOf(es.tail) else 0)
  }

  function Height(t: Json): (h: nat)
    ensures h > 0
    decreases t, 0
  {
    if t.Full? then 1 + HeightOf(t.elems) else 1
  }

  function HeightOf(es: Elems): (h: nat)
    ensures h > 0
    decreases es, 1
  {
    var h := Height(es.head.value);
    if es.More? && HeightOf(es.tail) > h then HeightOf(es.tail) else h
  }

  // ---- Well-formedness: RFC 8259 with paired surrogates only

  ghost predicate Rfc(t: Json)
    decreases t, 0
  {
    match t
    case Scalar(token) => IsScalarToken(token)
    case Text(chars) => WfChars(chars)
    case Empty(_, pad) => Blank(pad)
    case Full(keyed, elems) => RfcElems(elems, keyed)
  }

  ghost predicate RfcElems(es: Elems, keyed: bool)
    decreases es, 1
  {
    && WfName(es.head.name, keyed)
    && Blank(es.head.gap) && Rfc(es.head.value) && Blank(es.head.trail)
    && (es.More? ==> RfcElems(es.tail, keyed))
  }

  predicate WfName(n: Name, keyed: bool) {
    if keyed then n.Name? && Blank(n.before) && WfChars(n.key) && Blank(n.after) else n.NoName?
  }

  /** The decoded key of an object member; array elements have the empty name. */
  function Field(n: Name): bytes {
    if n.Name? && WfChars(n.key) then Decoded(n.key) else []
  }

  ghost function Fields(es: Elems, keyed: bool): set<bytes>
    decreases es
  {
    (if keyed then {Field(es.head.name)} else {}) + (if es.More? then Fields(es.tail, keyed) else {})
  }

  // ---- The project's own limits on a well-formed tree

  /** No object, at any level, has two members whose decoded keys are equal. */
  ghost predicate DistinctKeys(t: Json)
    decreases t, 0
  {
    t.Full? ==> DistinctKeysOf(t.elems, t.keyed)
  }

  ghost predicate DistinctKeysOf(es: Elems, keyed: bool)
    decreases es, 1
  {
    && DistinctKeys(es.head.value)
    && (es.More? ==> DistinctKeysOf(es.tail, keyed))
    && (es.More? && keyed ==> Field(es.head.name) !in Fields(es.tail, keyed))
  }

  /** Decoded strings within `max`, decoded keys and number or literal tokens within SCALAR_BYTES. */
  ghost predicate Within(t: Json, max: nat)
    decreases t, 0
  {
    match t
    case Scalar(token) => |token| <= SCALAR_BYTES
    case Text(chars) => WfChars(chars) ==> |Decoded(chars)| <= max
    case Empty(_, _) => true
    case Full(_, elems) => WithinElems(elems, max)
  }

  ghost predicate WithinElems(es: Elems, max: nat)
    decreases es, 1
  {
    && |Field(es.head.name)| <= SCALAR_BYTES
    && Within(es.head.value, max)
    && (es.More? ==> WithinElems(es.tail, max))
  }
}
