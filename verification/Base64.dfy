/** The hand-written base64 encoder (src/source/db/mysql.rs) against a strict decoder
    (RFC 4648 section 4), and the check a byte value's text must pass on the wire. */
module Base64 {
  import opened Bounds
  import opened Sequences
  import opened Wrappers

  const PAD: char := '='

  function Letter(v: nat): (c: char)
    requires v < 64
    ensures c != PAD
  {
    if v < 26 then 'A' + v as char
    else if v < 52 then 'a' + (v - 26) as char
    else if v < 62 then '0' + (v - 52) as char
    else if v == 62 then '+' else '/'
  }

  function ValueOf(c: char): (v: Option<nat>)
    ensures v.Some? ==> v.value < 64 && Letter(v.value) == c
  {
    if 'A' <= c <= 'Z' then Some((c - 'A') as nat)
    else if 'a' <= c <= 'z' then Some(26 + (c - 'a') as nat)
    else if '0' <= c <= '9' then Some(52 + (c - '0') as nat)
    else if c == '+' then Some(62)
    else if c == '/' then Some(63)
    else None
  }

  lemma LetterHasValue(v: nat)
    requires v < 64
    ensures ValueOf(Letter(v)) == Some(v)
  {
  }

  /** The alphabet of RFC 4648 section 4. */
  lemma LettersAre(c: char)
    ensures 'A' <= c <= 'Z' ==> Letter(c as int - 65) == c
    ensures 'a' <= c <= 'z' ==> Letter(26 + (c as int - 97)) == c
    ensures '0' <= c <= '9' ==> Letter(52 + (c as int - 48)) == c
    ensures Letter(62) == '+' && Letter(63) == '/' && PAD == '='
  {
  }

  /** The character of each six-bit value, and the value of each character. */
  datatype Alphabet = Alphabet(letter: nat -> char, value: char -> Option<nat>)

  const STANDARD := Alphabet((v: nat) => if v < 64 then Letter(v) else PAD, c => ValueOf(c))

  ghost predicate IsAlphabet(a: Alphabet) {
    && (forall v: nat | v < 64 :: a.value(a.letter(v)) == Some(v) && a.letter(v) != PAD)
    && (forall c: char | a.value(c).Some? :: a.value(c).value < 64 && a.letter(a.value(c).value) == c)
    && a.value(PAD).None?
  }

  lemma StandardIsAlphabet()
    ensures IsAlphabet(STANDARD)
  {
    forall v: nat | v < 64
      ensures STANDARD.value(STANDARD.letter(v)) == Some(v)
    {
      LetterHasValue(v);
    }
  }

  // ---- Three bytes as four six-bit values

  function First(b0: byte): (v: nat)
    ensures v < 64
  {
    b0 as int / 4
  }

  function Second(b0: byte, b1: byte): (v: nat)
    ensures v < 64
  {
    b0 as int % 4 * 16 + b1 as int / 16
  }

  function Third(b1: byte, b2: byte): (v: nat)
    ensures v < 64
  {
    b1 as int % 16 * 4 + b2 as int / 64
  }

  function Fourth(b2: byte): (v: nat)
    ensures v < 64
  {
    b2 as int % 64
  }

  function Byte0(v0: nat, v1: nat): byte
    requires v0 < 64 && v1 < 64
  {
    (v0 * 4 + v1 / 16) as byte
  }

  function Byte1(v1: nat, v2: nat): byte
    requires v1 < 64 && v2 < 64
  {
    (v1 % 16 * 16 + v2 / 4) as byte
  }

  function Byte2(v2: nat, v3: nat): byte
    requires v2 < 64 && v3 < 64
  {
    (v2 % 4 * 64 + v3) as byte
  }

  lemma BytesBack(b0: byte, b1: byte, b2: byte)
    ensures Byte0(First(b0), Second(b0, b1)) == b0
    ensures Byte1(Second(b0, b1), Third(b1, b2)) == b1
    ensures Byte2(Third(b1, b2), Fourth(b2)) == b2
    ensures Third(b1, 0) % 4 == 0
  {
  }

  lemma OneByteBack(b0: byte)
    ensures Byte0(First(b0), Second(b0, 0)) == b0 && Second(b0, 0) % 16 == 0
  {
  }

  lemma ValuesBack(v0: nat, v1: nat, v2: nat, v3: nat)
    requires v0 < 64 && v1 < 64 && v2 < 64 && v3 < 64
    ensures First(Byte0(v0, v1)) == v0 && Second(Byte0(v0, v1), Byte1(v1, v2)) == v1
    ensures Third(Byte1(v1, v2), Byte2(v2, v3)) == v2 && Fourth(Byte2(v2, v3)) == v3
    ensures v2 % 4 == 0 ==> Third(Byte1(v1, v2), 0) == v2
  {
  }

  lemma OneValueBack(v0: nat, v1: nat)
    requires v0 < 64 && v1 < 64 && v1 % 16 == 0
    ensures First(Byte0(v0, v1)) == v0 && Second(Byte0(v0, v1), 0) == v1
  {
  }

  /** The four characters of a group of one to three bytes. */
  function Group(s: bytes, a: Alphabet): (q: string)
    requires 1 <= |s| <= 3
    ensures |q| == 4
  {
    var b1 := if |s| > 1 then s[1] else 0;
    var b2 := if |s| > 2 then s[2] else 0;
    [a.letter(First(s[0])), a.letter(Second(s[0], b1)),
     if |s| > 1 then a.letter(Third(b1, b2)) else PAD,
     if |s| > 2 then a.letter(Fourth(b2)) else PAD]
  }

  function Encode(s: bytes, a: Alphabet): string {
    if s == [] then []
    else if |s| <= 3 then Group(s, a)
    else Group(s[..3], a) + Encode(s[3..], a)
  }

  method Base64Encode(s: bytes) returns (out: string)
    ensures out == Encode(s, STANDARD)
  {
    out := [];
    var i: nat := 0;
    assert s[0..] == s && [] + Encode(s, STANDARD) == Encode(s, STANDARD);
    while i < |s|
      invariant i <= |s| && Encode(s, STANDARD) == out + Encode(s[i..], STANDARD)
    {
      var n := if |s| - i < 3 then |s| - i else 3;
      var group := EncodeChunk(s[i..i + n], STANDARD);
      NextGroup(s, i, n, STANDARD);
      Associates(out, group, Encode(s[i + n..], STANDARD));
      out := out + group;
      i := i + n;
    }
    assert s[i..] == [] && out + [] == out;
  }

  method EncodeChunk(chunk: bytes, a: Alphabet) returns (out: string)
    requires 1 <= |chunk| <= 3
    ensures out == Group(chunk, a)
  {
    var b0 := chunk[0];
    var b1 := if |chunk| > 1 then chunk[1] else 0;
    var b2 := if |chunk| > 2 then chunk[2] else 0;
    out := [a.letter(First(b0)), a.letter(Second(b0, b1))];
    if |chunk| > 1 {
      out := out + [a.letter(Third(b1, b2))];
    } else {
      out := out + [PAD];
    }
    if |chunk| > 2 {
      out := out + [a.letter(Fourth(b2))];
    } else {
      out := out + [PAD];
    }
  }

  lemma NextGroup(s: bytes, i: nat, n: nat, a: Alphabet)
    requires i < |s| && n == if |s| - i < 3 then |s| - i else 3
    ensures Encode(s[i..], a) == Group(s[i..i + n], a) + Encode(s[i + n..], a)
  {
    var t := s[i..];
    assert t[..n] == s[i..i + n] && t[n..] == s[i + n..];
    if |t| <= 3 {
      assert t[..n] == t && s[i + n..] == [];
      assert Group(t, a) + [] == Group(t, a);
    }
  }

  // ---- The decoder

  /** The bytes of four characters; padding only where `last`, with the bits under it zero. */
  function UnGroup(q: string, last: bool, a: Alphabet): Option<bytes>
    requires |q| == 4
  {
    var v0, v1, v2, v3 := a.value(q[0]), a.value(q[1]), a.value(q[2]), a.value(q[3]);
    if v0.None? || v1.None? || v0.value >= 64 || v1.value >= 64 then None
    else if last && q[2] == PAD && q[3] == PAD then
      if v1.value % 16 == 0 then Some([Byte0(v0.value, v1.value)]) else None
    else if v2.None? || v2.value >= 64 then None
    else if last && q[3] == PAD then
      if v2.value % 4 == 0 then Some([Byte0(v0.value, v1.value), Byte1(v1.value, v2.value)]) else None
    else if v3.None? || v3.value >= 64 then None
    else Some([Byte0(v0.value, v1.value), Byte1(v1.value, v2.value), Byte2(v2.value, v3.value)])
  }

  function Decode(t: string, a: Alphabet): Option<bytes> {
    if t == [] then Some([])
    else if |t| < 4 then None
    else
      match UnGroup(t[..4], |t| == 4, a)
      case None => None
      case Some(b) =>
        match Decode(t[4..], a)
        case None => None
        case Some(more) => Some(b + more)
  }

  lemma ReadsOne(v0: nat, v1: nat, a: Alphabet)
    requires IsAlphabet(a) && v0 < 64 && v1 < 64 && v1 % 16 == 0
    ensures UnGroup([a.letter(v0), a.letter(v1), PAD, PAD], true, a) == Some([Byte0(v0, v1)])
  {
  }

  lemma ReadsTwo(v0: nat, v1: nat, v2: nat, a: Alphabet)
    requires IsAlphabet(a) && v0 < 64 && v1 < 64 && v2 < 64 && v2 % 4 == 0
    ensures UnGroup([a.letter(v0), a.letter(v1), a.letter(v2), PAD], true, a) == Some([Byte0(v0, v1), Byte1(v1, v2)])
  {
  }

  lemma ReadsThree(v0: nat, v1: nat, v2: nat, v3: nat, last: bool, a: Alphabet)
    requires IsAlphabet(a) && v0 < 64 && v1 < 64 && v2 < 64 && v3 < 64
    ensures UnGroup([a.letter(v0), a.letter(v1), a.letter(v2), a.letter(v3)], last, a)
         == Some([Byte0(v0, v1), Byte1(v1, v2), Byte2(v2, v3)])
  {
  }

  lemma GroupDecodes(s: bytes, last: bool, a: Alphabet)
    requires IsAlphabet(a) && 1 <= |s| <= 3 && (last || |s| == 3)
    ensures UnGroup(Group(s, a), last, a) == Some(s)
  {
    if |s| == 1 {
      GroupOfOne(s[0], a);
      assert s == [s[0]];
    } else if |s| == 2 {
      GroupOfTwo(s[0], s[1], a);
      assert s == [s[0], s[1]];
    } else {
      GroupOfThree(s[0], s[1], s[2], last, a);
      assert s == [s[0], s[1], s[2]];
    }
  }

  lemma GroupOfOne(b0: byte, a: Alphabet)
    requires IsAlphabet(a)
    ensures UnGroup(Group([b0], a), true, a) == Some([b0])
  {
    OneByteBack(b0);
    ReadsOne(First(b0), Second(b0, 0), a);
  }

  lemma GroupOfTwo(b0: byte, b1: byte, a: Alphabet)
    requires IsAlphabet(a)
    ensures UnGroup(Group([b0, b1], a), true, a) == Some([b0, b1])
  {
    BytesBack(b0, b1, 0);
    ReadsTwo(First(b0), Second(b0, b1), Third(b1, 0), a);
  }

  lemma GroupOfThree(b0: byte, b1: byte, b2: byte, last: bool, a: Alphabet)
    requires IsAlphabet(a)
    ensures UnGroup(Group([b0, b1, b2], a), last, a) == Some([b0, b1, b2])
  {
    BytesBack(b0, b1, b2);
    ReadsThree(First(b0), Second(b0, b1), Third(b1, b2), Fourth(b2), last, a);
  }

  lemma OneBack(c0: char, c1: char, v0: nat, v1: nat, a: Alphabet)
    requires IsAlphabet(a) && a.value(c0) == Some(v0) && a.value(c1) == Some(v1) && v0 < 64 && v1 < 64 && v1 % 16 == 0
    ensures Group([Byte0(v0, v1)], a) == [c0, c1, PAD, PAD]
  {
    OneValueBack(v0, v1);
  }

  lemma TwoBack(c0: char, c1: char, c2: char, v0: nat, v1: nat, v2: nat, a: Alphabet)
    requires IsAlphabet(a) && a.value(c0) == Some(v0) && a.value(c1) == Some(v1) && a.value(c2) == Some(v2)
    requires v0 < 64 && v1 < 64 && v2 < 64 && v2 % 4 == 0
    ensures Group([Byte0(v0, v1), Byte1(v1, v2)], a) == [c0, c1, c2, PAD]
  {
    ValuesBack(v0, v1, v2, 0);
  }

  lemma ThreeBack(c0: char, c1: char, c2: char, c3: char, v0: nat, v1: nat, v2: nat, v3: nat, a: Alphabet)
    requires IsAlphabet(a) && a.value(c0) == Some(v0) && a.value(c1) == Some(v1) && a.value(c2) == Some(v2) && a.value(c3) == Some(v3)
    requires v0 < 64 && v1 < 64 && v2 < 64 && v3 < 64
    ensures Group([Byte0(v0, v1), Byte1(v1, v2), Byte2(v2, v3)], a) == [c0, c1, c2, c3]
  {
    ValuesBack(v0, v1, v2, v3);
  }

  lemma UnGroupEncodes(q: string, last: bool, a: Alphabet)
    requires IsAlphabet(a) && |q| == 4 && UnGroup(q, last, a).Some?
    ensures var s := UnGroup(q, last, a).value; 1 <= |s| <= 3 && (last || |s| == 3) && Group(s, a) == q
  {
    var c0, c1, c2, c3 := q[0], q[1], q[2], q[3];
    assert q == [c0, c1, c2, c3];
    if last && c2 == PAD && c3 == PAD {
      OneBack(c0, c1, a.value(c0).value, a.value(c1).value, a);
    } else if last && c3 == PAD {
      TwoBack(c0, c1, c2, a.value(c0).value, a.value(c1).value, a.value(c2).value, a);
    } else {
      ThreeBack(c0, c1, c2, c3, a.value(c0).value, a.value(c1).value, a.value(c2).value, a.value(c3).value, a);
    }
  }

  lemma {:induction false} EncodeLength(s: bytes, a: Alphabet)
    ensures |Encode(s, a)| == 4 * ((|s| + 2) / 3)
    decreases |s|
  {
    if |s| > 3 {
      EncodeLength(s[3..], a);
      Thirds(|s|);
    } else if s != [] {
      assert (|s| + 2) / 3 == 1;
    }
  }

  lemma Thirds(n: nat)
    requires n >= 3
    ensures (n + 2) / 3 == 1 + (n - 3 + 2) / 3
  {
  }

  /** Decoding gives every byte string back. */
  lemma {:induction false} DecodeOfEncode(s: bytes, a: Alphabet)
    requires IsAlphabet(a)
    ensures Decode(Encode(s, a), a) == Some(s)
    decreases |s|
  {
    if s == [] {
    } else if |s| <= 3 {
      GroupDecodes(s, true, a);
      LastGroup(Group(s, a), s, a);
    } else {
      DecodeOfEncode(s[3..], a);
      EncodeLength(s[3..], a);
      GroupDecodes(s[..3], false, a);
      MoreGroups(Group(s[..3], a), s[..3], Encode(s[3..], a), s[3..], a);
      Rejoin(s, 3);
    }
  }

  lemma LastGroup(q: string, s: bytes, a: Alphabet)
    requires |q| == 4 && UnGroup(q, true, a) == Some(s)
    ensures Decode(q, a) == Some(s)
  {
    assert q[..4] == q && q[4..] == [] && s + [] == s;
  }

  lemma MoreGroups(q: string, s: bytes, t: string, more: bytes, a: Alphabet)
    requires |q| == 4 && t != [] && UnGroup(q, false, a) == Some(s) && Decode(t, a) == Some(more)
    ensures Decode(q + t, a) == Some(s + more)
  {
    Halves(q, t);
  }

  /** The encoder produces the only text the decoder reads as those bytes. */
  lemma {:induction false} EncodeOfDecode(t: string, a: Alphabet)
    requires IsAlphabet(a) && Decode(t, a).Some?
    ensures Encode(Decode(t, a).value, a) == t
    decreases |t|
  {
    if t != [] {
      var b, more := UnGroup(t[..4], |t| == 4, a).value, Decode(t[4..], a).value;
      UnGroupEncodes(t[..4], |t| == 4, a);
      EncodeOfDecode(t[4..], a);
      Rejoin(t, 4);
      if |t| == 4 {
        assert t[4..] == [] && b + [] == b && t[..4] == t;
      } else {
        EncodeJoins(b, more, a);
      }
    }
  }

  lemma EncodeJoins(b: bytes, more: bytes, a: Alphabet)
    requires |b| == 3
    ensures Encode(b + more, a) == Group(b, a) + Encode(more, a)
  {
    Halves(b, more);
    if more == [] {
      assert b + more == b && Group(b, a) + [] == Group(b, a);
    }
  }

  // ---- The check on the wire

  /** What a byte value must satisfy: within the caps, decodable, and the canonical text of its bytes. */
  function ValidateBytes(base64: string, len: nat, a: Alphabet): Result<()> {
    var _ :- Cap(len, SCALAR_BYTES);
    var _ :- Cap(|base64|, (SCALAR_BYTES + 2) / 3 * 4);
    match Decode(base64, a)
    case None => Err(InvalidRequest)
    case Some(b) => Require(|b| == len && Encode(b, a) == base64)
  }

  lemma PaddedFits(n: nat)
    requires n <= SCALAR_BYTES
    ensures 4 * ((n + 2) / 3) <= (SCALAR_BYTES + 2) / 3 * 4
  {
  }

  /** What the encoder writes for a value within the cap always passes the check. */
  lemma EncodedValidates(s: bytes, a: Alphabet)
    requires IsAlphabet(a) && |s| <= SCALAR_BYTES
    ensures ValidateBytes(Encode(s, a), |s|, a).Ok?
  {
    DecodeOfEncode(s, a);
    EncodeLength(s, a);
    PaddedFits(|s|);
  }

  /** The check accepts exactly the encodings of byte strings within the cap, with their length. */
  lemma ValidatedExactly(base64: string, len: nat)
    ensures ValidateBytes(base64, len, STANDARD).Ok? <==>
      exists s: bytes :: |s| == len && len <= SCALAR_BYTES && base64 == Encode(s, STANDARD)
  {
    if ValidateBytes(base64, len, STANDARD).Ok? {
      var s := Decode(base64, STANDARD).value;
      assert |s| == len && base64 == Encode(s, STANDARD);
    }
    StandardIsAlphabet();
    forall s: bytes | |s| == len && len <= SCALAR_BYTES && base64 == Encode(s, STANDARD)
      ensures ValidateBytes(base64, len, STANDARD).Ok?
    {
      EncodedValidates(s, STANDARD);
    }
  }

  /** The encoder's output has the padded length and an RFC 4648 decoder recovers the input from it. */
  lemma RoundTrip(s: bytes)
    ensures |Encode(s, STANDARD)| == 4 * ((|s| + 2) / 3) && Decode(Encode(s, STANDARD), STANDARD) == Some(s)
    ensures forall t: string :: Decode(t, STANDARD) == Some(s) ==> t == Encode(s, STANDARD)
  {
    StandardIsAlphabet();
    EncodeLength(s, STANDARD);
    DecodeOfEncode(s, STANDARD);
    forall t: string | Decode(t, STANDARD) == Some(s)
      ensures t == Encode(s, STANDARD)
    {
      EncodeOfDecode(t, STANDARD);
    }
  }
}
