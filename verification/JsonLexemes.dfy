/** The smallest parts of JSON texts, pinned to RFC 8259 and RFC 3629 by spelled-out characters and by reading
    encoded code points back. */
module JsonLexemes {
  import opened Bounds
  import opened JsonFrame
  import opened JsonGrammar
  import opened Utf8Text

  // ---- Characters and words

  lemma {:induction false} AsciiAt(s: string, i: nat)
    requires i < |s| && s[i] as int < 128
    ensures |Ascii(s)| == |s| && Ascii(s)[i] as int == s[i] as int
    decreases |s|
  {
    if i == 0 {
      AsciiLength(s);
    } else {
      AsciiAt(s[1..], i - 1);
    }
  }

  lemma {:induction false} AsciiLength(s: string)
    ensures |Ascii(s)| == |s|
    decreases |s|
  {
    if s != [] {
      AsciiLength(s[1..]);
    }
  }

  lemma PunctuationIs()
    ensures [QUOTE as int, COMMA as int, COLON as int] == ['"' as int, ',' as int, ':' as int]
    ensures [OPEN_LIST as int, CLOSE_LIST as int] == ['[' as int, ']' as int]
    ensures [OPEN_OBJECT as int, CLOSE_OBJECT as int] == ['{' as int, '}' as int]
    ensures [MINUS as int, DOT as int, ZERO as int, BACKSLASH as int] == ['-' as int, '.' as int, '0' as int, '\\' as int]
  {
  }

  lemma WordsAre()
    ensures Ascii("null") == NULL && Ascii("true") == TRUE && Ascii("false") == FALSE
  {
    AsciiIs("null", NULL);
    AsciiIs("true", TRUE);
    AsciiIs("false", FALSE);
  }

  lemma BlanksAre(b: byte)
    ensures IsBlank(b) <==> b as int in [' ' as int, '\t' as int, '\r' as int, '\n' as int]
    ensures IsDigit(b) <==> '0' as int <= b as int <= '9' as int
  {
  }

  // ---- Escapes

  /** What RFC 8259 section 7 lets a short escape stand for. */
  function ShortMeaning(e: char): int {
    match e
    case 'b' => 0x08
    case 'f' => 0x0c
    case 'n' => 0x0a
    case 'r' => 0x0d
    case 't' => 0x09
    case _ => e as int
  }

  lemma ShortEscapesAre(e: byte)
    ensures IsShort(e) <==> (e as int) in ['"' as int, '\\' as int, '/' as int, 'b' as int, 'f' as int, 'n' as int, 'r' as int, 't' as int]
    ensures IsShort(e) ==> |DecodeChar(Short(e))| == 1 && DecodeChar(Short(e))[0] as int == ShortMeaning(e as int as char)
  {
  }

  /** A hexadecimal digit of either case has its value. */
  lemma HexDigitsAre(b: byte)
    ensures IsHex(b) <==> exists v: nat :: v < 16 && IsDigitOf(b, v)
    ensures IsHex(b) ==> IsDigitOf(b, HexValue(b))
  {
    if IsHex(b) {
      assert IsDigitOf(b, HexValue(b));
    }
  }

  predicate IsDigitOf(b: byte, v: nat) {
    if v < 10 then b as int == '0' as int + v
    else v < 16 && (b as int == 'a' as int + (v - 10) || b as int == 'A' as int + (v - 10))
  }

  /** Four digits denote a number in base sixteen, and a surrogate pair the code point it splits (UTF-16). */
  lemma CodePointsAre(c: Char)
    requires WfChar(c)
    ensures c.Unicode? ==>
      CodePoint(c) == 4096 * HexValue(c.q.a) + 256 * HexValue(c.q.b) + 16 * HexValue(c.q.c) + HexValue(c.q.d)
    ensures c.Pair? ==>
      && 0x1_0000 <= CodePoint(c) < 0x11_0000
      && QuadValue(c.high) == 0xd800 + (CodePoint(c) - 0x1_0000) / 1024
      && QuadValue(c.low) == 0xdc00 + (CodePoint(c) - 0x1_0000) % 1024
  {
  }

  // ---- UTF-8

  /** The code point of a well-formed character, read from the bits of its bytes. */
  function ReadCodePoint(s: bytes): int
    requires 1 <= |s| <= 4
  {
    var b := seq(|s|, i requires 0 <= i < |s| => s[i] as int);
    if |s| == 1 then b[0]
    else if |s| == 2 then (b[0] - 0xc0) * 64 + (b[1] - 0x80)
    else if |s| == 3 then (b[0] - 0xe0) * 4096 + (b[1] - 0x80) * 64 + (b[2] - 0x80)
    else (b[0] - 0xf0) * 262144 + (b[1] - 0x80) * 4096 + (b[2] - 0x80) * 64 + (b[3] - 0x80)
  }

  /** Encoding a code point that is no surrogate gives one well-formed character, which reads back as it. */
  lemma EncodedReadsBack(cp: nat)
    requires cp < 0x11_0000 && !(0xd800 <= cp <= 0xdfff)
    ensures CharLength(Utf8(cp)) == |Utf8(cp)| && ReadCodePoint(Utf8(cp)) == cp
  {
    if cp < 0x80 {
    } else if cp < 0x800 {
      TwoBytes(cp);
    } else if cp < 0x1_0000 {
      ThreeBytes(cp);
    } else {
      FourBytes(cp);
    }
  }

  lemma TwoBytes(cp: nat)
    requires 0x80 <= cp < 0x800
    ensures CharLength(Utf8(cp)) == 2 == |Utf8(cp)| && ReadCodePoint(Utf8(cp)) == cp
  {
  }

  lemma ThreeBytes(cp: nat)
    requires 0x800 <= cp < 0x1_0000 && !(0xd800 <= cp <= 0xdfff)
    ensures CharLength(Utf8(cp)) == 3 == |Utf8(cp)| && ReadCodePoint(Utf8(cp)) == cp
  {
    assert cp / 4096 * 64 + cp / 64 % 64 == cp / 64;
  }

  lemma FourBytes(cp: nat)
    requires 0x1_0000 <= cp < 0x11_0000
    ensures CharLength(Utf8(cp)) == 4 == |Utf8(cp)| && ReadCodePoint(Utf8(cp)) == cp
  {
    assert cp / 262144 * 64 + cp / 4096 % 64 == cp / 4096;
    assert cp / 4096 * 64 + cp / 64 % 64 == cp / 64;
  }

  /** The replacement character is U+FFFD. */
  lemma ReplacementIs()
    ensures REPLACEMENT == Utf8(0xfffd) && ReadCodePoint(REPLACEMENT) == 0xfffd
  {
  }

  /** Every escape decodes to one well-formed character. */
  lemma EscapeDecodesToCharacter(c: Char)
    requires WfChar(c) && (c.Unicode? || c.Pair?)
    ensures CharLength(DecodeChar(c)) == |DecodeChar(c)| && ReadCodePoint(DecodeChar(c)) == CodePoint(c)
  {
    CodePointsAre(c);
    EncodedReadsBack(CodePoint(c));
  }
}
