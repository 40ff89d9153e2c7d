/** Exact decimals: the spelling comparison used for floats and the construction of
    decimals from a coefficient and a scale (crates/gaze-lens-protocol/src/value.rs). */
module Decimals {
  import opened Bounds
  import opened Sequences
  import opened JsonGrammar
  import opened Wrappers

  const I64_MIN: int := -0x8000_0000_0000_0000
  const I64_MAX: int := 0x7fff_ffff_ffff_ffff

  predicate IsI64(x: int) {
    I64_MIN <= x <= I64_MAX
  }

  // ---- What digits and numbers denote

  function Digit(b: byte): (d: nat)
    requires IsDigit(b)
    ensures d <= 9
  {
    b as nat - 48
  }

  /** The integer a digit string denotes. */
  function Natural(s: bytes): nat
    requires Digits(s)
  {
    if s == [] then 0 else 10 * Natural(s[..|s| - 1]) + Digit(s[|s| - 1])
  }

  /** n times ten to the k. */
  function Times(n: nat, k: nat): nat
    decreases k
  {
    if k == 0 then n else Times(10 * n, k - 1)
  }

  /** x times ten to the e, for any integer e. */
  function Shift(x: real, e: int): real
    decreases if e < 0 then -e else e
  {
    if e == 0 then x else if e > 0 then Shift(10.0 * x, e - 1) else Shift(x / 10.0, e + 1)
  }

  function Signed(negative: bool, n: nat): int {
    if negative then -(n as int) else n
  }

  function ExponentValue(e: Exponent): int
    requires WfExponent(e)
  {
    if e.NoExponent? then 0 else Signed(e.sign == [MINUS], Natural(e.digits))
  }

  function Significand(n: Number): (s: bytes)
    requires WfNumber(n)
    ensures Digits(s)
  {
    n.whole + n.frac
  }

  /** The absolute value of a JSON number. */
  function Magnitude(n: Number): real
    requires WfNumber(n)
  {
    Shift(Natural(Significand(n)) as real, ExponentValue(n.exp) - |n.frac|)
  }

  // ---- `decimal_equivalent`, on text

  datatype Parts = Parts(negative: bool, digits: bytes, exponent: int)

  function IsExponentMark(b: byte): bool {
    b == 101 || b == 69
  }

  /** The index of the first `e` or `E`, or the length. */
  function ExponentMark(s: bytes): (i: nat)
    ensures i <= |s|
  {
    if s == [] || IsExponentMark(s[0]) then 0 else 1 + ExponentMark(s[1..])
  }

  function Dot(s: bytes): (i: nat)
    ensures i <= |s|
  {
    if s == [] || s[0] == DOT then 0 else 1 + Dot(s[1..])
  }

  function WithoutDots(s: bytes): bytes {
    if s == [] then [] else if s[0] == DOT then WithoutDots(s[1..]) else [s[0]] + WithoutDots(s[1..])
  }

  function TrimLeft(s: bytes): (r: bytes)
    ensures |r| <= |s|
  {
    if s != [] && s[0] == ZERO then TrimLeft(s[1..]) else s
  }

  function TrimRight(s: bytes): (r: bytes)
    ensures |r| <= |s| && r == s[..|r|]
  {
    if s != [] && s[|s| - 1] == ZERO then TrimRight(s[..|s| - 1]) else s
  }

  /** `str::parse::<i64>`. */
  function ParseI64(s: bytes): Option<int> {
    var digits := if s != [] && (s[0] == 43 || s[0] == MINUS) then s[1..] else s;
    if digits == [] || !Digits(digits) then None
    else
      Checked(Signed(s[0] == MINUS, Natural(digits)))
  }

  function Checked(x: int): Option<int> {
    if IsI64(x) then Some(x) else None
  }

  function PartsOf(s: bytes): Option<Parts> {
    var negative := s != [] && s[0] == MINUS;
    PartsOfUnsigned(negative, if negative then s[1..] else s)
  }

  function PartsOfUnsigned(negative: bool, u: bytes): Option<Parts> {
    var mark := ExponentMark(u);
    var exp := if mark < |u| then ParseI64(u[mark + 1..]) else Some(0);
    if exp.None? then None else PartsOfMantissa(negative, u[..mark], exp.value)
  }

  function PartsOfMantissa(negative: bool, mantissa: bytes, exp: int): Option<Parts> {
    var dot := Dot(mantissa);
    Normalised(negative, WithoutDots(mantissa), exp, if dot < |mantissa| then |mantissa| - dot - 1 else 0)
  }

  function Normalised(negative: bool, digits: bytes, exp: int, frac: nat): Option<Parts> {
    var leading := TrimLeft(digits);
    if leading == [] then Some(Parts(negative, [], 0))
    else
      var trimmed := TrimRight(leading);
      if Checked(frac).None? || Checked(exp - frac).None? || Checked(|leading| - |trimmed|).None? then None
      else
        var e := Checked(exp - frac + (|leading| - |trimmed|));
        if e.None? then None else Some(Parts(negative, trimmed, e.value))
  }

  function DecimalEquivalent(a: bytes, b: bytes): bool {
    PartsOf(a).Some? && PartsOf(a) == PartsOf(b)
  }

  // ---- Reading the text of a number

  lemma {:induction false} DigitsAreNotMarks(ds: bytes, rest: bytes)
    requires Digits(ds)
    ensures ExponentMark(ds + rest) == |ds| + ExponentMark(rest)
    ensures Dot(ds + rest) == |ds| + Dot(rest)
    ensures WithoutDots(ds + rest) == ds + WithoutDots(rest)
    decreases ds
  {
    if ds == [] {
      assert ds + rest == rest && ds + WithoutDots(rest) == WithoutDots(rest);
    } else {
      assert (ds + rest)[1..] == ds[1..] + rest;
      DigitsAreNotMarks(ds[1..], rest);
      Associates([ds[0]], ds[1..], WithoutDots(rest));
      Uncons(ds);
    }
  }

  lemma DigitsAlone(ds: bytes)
    requires Digits(ds)
    ensures ExponentMark(ds) == |ds| == Dot(ds) && WithoutDots(ds) == ds
  {
    DigitsAreNotMarks(ds, []);
    assert ds + [] == ds;
  }

  /** The mantissa: the whole part, and the fraction behind a dot if there is one. */
  function Mantissa(n: Number): bytes {
    n.whole + EmitFraction(n.frac, [])
  }

  lemma MantissaRead(n: Number)
    requires WfNumber(n)
    ensures ExponentMark(Mantissa(n)) == |Mantissa(n)| && WithoutDots(Mantissa(n)) == Significand(n)
    ensures Dot(Mantissa(n)) == |n.whole| && |Mantissa(n)| == |n.whole| + (if n.frac == [] then 0 else 1 + |n.frac|)
  {
    var f := EmitFraction(n.frac, []);
    DigitsAreNotMarks(n.whole, f);
    if n.frac != [] {
      assert n.frac + [] == n.frac;
      Cons(DOT, n.frac);
      DigitsAlone(n.frac);
    }
  }

  lemma {:induction false} MarkStopsAt(m: bytes, x: bytes)
    requires ExponentMark(m) == |m| && (x != [] ==> IsExponentMark(x[0]))
    ensures ExponentMark(m + x) == |m|
    decreases m
  {
    if m == [] {
      assert m + x == x;
    } else {
      assert (m + x)[1..] == m[1..] + x;
      MarkStopsAt(m[1..], x);
    }
  }

  lemma ExponentParsed(e: Exponent)
    requires e.Exponent? && WfExponent(e)
    ensures ParseI64(e.sign + e.digits) == Checked(ExponentValue(e))
  {
    var s := e.sign + e.digits;
    assert s[0] == if e.sign == [] then e.digits[0] else e.sign[0];
    assert s[|e.sign|..] == e.digits;
  }

  lemma NumberRead(n: Number)
    requires WfNumber(n)
    ensures PartsOf(EmitNumber(n))
         == if IsI64(ExponentValue(n.exp)) then Normalised(n.minus, Significand(n), ExponentValue(n.exp), |n.frac|) else None
  {
    SignRead(n);
    UnsignedSplits(n);
    MantissaRead(n);
    UnsignedRead(n.minus, Mantissa(n), n.exp);
    MantissaParts(n, ExponentValue(n.exp));
  }

  lemma SignRead(n: Number)
    requires WfNumber(n)
    ensures PartsOf(EmitNumber(n)) == PartsOfUnsigned(n.minus, EmitUnsigned(n))
  {
    UnsignedIsEmitted(n);
  }

  lemma MantissaParts(n: Number, exp: int)
    requires WfNumber(n)
    ensures PartsOfMantissa(n.minus, Mantissa(n), exp) == Normalised(n.minus, Significand(n), exp, |n.frac|)
  {
    MantissaRead(n);
  }

  lemma UnsignedSplits(n: Number)
    ensures EmitUnsigned(n) == Mantissa(n) + EmitExponent(n.exp)
  {
    var x := EmitExponent(n.exp);
    assert n.frac + [] == n.frac;
    if n.frac != [] {
      Associates([DOT], n.frac, x);
    }
    Associates(n.whole, EmitFraction(n.frac, []), x);
    assert [] + x == x;
  }

  lemma UnsignedRead(negative: bool, m: bytes, e: Exponent)
    requires WfExponent(e) && ExponentMark(m) == |m|
    ensures PartsOfUnsigned(negative, m + EmitExponent(e))
         == if IsI64(ExponentValue(e)) then PartsOfMantissa(negative, m, ExponentValue(e)) else None
  {
    var x := EmitExponent(e);
    var u := m + x;
    MarkStopsAt(m, x);
    Halves(m, x);
    if e.Exponent? {
      ExponentParsed(e);
      DropDrop(u, |m|, 1);
      Cons(e.letter, e.sign + e.digits);
    }
  }

  lemma UnsignedIsEmitted(n: Number)
    requires WfNumber(n)
    ensures var s := EmitNumber(n);
      && s != [] && (s[0] == MINUS <==> n.minus)
      && (if n.minus then s[1..] else s) == EmitUnsigned(n)
  {
    assert EmitUnsigned(n)[0] == n.whole[0];
    Cons(MINUS, EmitUnsigned(n));
  }

  // ---- Digit strings and their values

  lemma {:induction false} TimesStep(n: nat, k: nat)
    ensures Times(n, k + 1) == 10 * Times(n, k)
    decreases k
  {
    if k > 0 {
      TimesStep(10 * n, k - 1);
    }
  }

  lemma {:induction false} TimesZero(k: nat)
    ensures Times(0, k) == 0
    decreases k
  {
    if k > 0 {
      TimesZero(k - 1);
    }
  }

  lemma {:induction false} NaturalJoins(a: bytes, b: bytes)
    requires Digits(a) && Digits(b)
    ensures Natural(a + b) == Times(Natural(a), |b|) + Natural(b)
    decreases b
  {
    if b == [] {
      assert a + b == a;
    } else {
      var c := b[..|b| - 1];
      assert (a + b)[..|a + b| - 1] == a + c;
      NaturalJoins(a, c);
      TimesStep(Natural(a), |c|);
    }
  }

  lemma {:induction false} TrimLeftKeeps(s: bytes)
    requires Digits(s)
    ensures Digits(TrimLeft(s)) && Natural(TrimLeft(s)) == Natural(s)
    ensures TrimLeft(s) != [] ==> TrimLeft(s)[0] != ZERO
    decreases s
  {
    if s != [] && s[0] == ZERO {
      TrimLeftKeeps(s[1..]);
      NaturalJoins([ZERO], s[1..]);
      TimesZero(|s| - 1);
      Uncons(s);
      assert Natural([ZERO]) == 0 by { assert [ZERO][..0] == []; }
    }
  }

  lemma {:induction false} TrimRightDivides(s: bytes)
    requires Digits(s)
    ensures Digits(TrimRight(s)) && Natural(s) == Times(Natural(TrimRight(s)), |s| - |TrimRight(s)|)
    ensures TrimRight(s) != [] ==> Natural(TrimRight(s)) % 10 != 0
    ensures s != [] && s[0] != ZERO ==> TrimRight(s) != [] && TrimRight(s)[0] == s[0]
    decreases s
  {
    if s != [] && s[|s| - 1] == ZERO {
      var t := s[..|s| - 1];
      TrimRightDivides(t);
      TimesStep(Natural(TrimRight(s)), |t| - |TrimRight(s)|);
    }
  }

  /** Without a leading zero, a digit string is determined by its value. */
  lemma {:induction false} NaturalInjective(s: bytes, t: bytes)
    requires Digits(s) && Digits(t) && Natural(s) == Natural(t)
    requires (s != [] ==> s[0] != ZERO) && (t != [] ==> t[0] != ZERO)
    ensures s == t
    decreases |s|
  {
    NonZero(s);
    NonZero(t);
    if s != [] {
      var a, b := s[..|s| - 1], t[..|t| - 1];
      SameDigits(Natural(a), Digit(s[|s| - 1]), Natural(b), Digit(t[|t| - 1]));
      NaturalInjective(a, b);
      Rejoin(s, |s| - 1);
      Rejoin(t, |t| - 1);
      assert s[|s| - 1..] == t[|t| - 1..];
    }
  }

  lemma SameDigits(a: nat, d: nat, b: nat, e: nat)
    requires d <= 9 && e <= 9 && 10 * a + d == 10 * b + e
    ensures a == b && d == e
  {
  }

  lemma {:induction false} NonZero(s: bytes)
    requires Digits(s) && (s != [] ==> s[0] != ZERO)
    ensures Natural(s) == 0 <==> s == []
    decreases s
  {
    if |s| > 1 {
      NonZero(s[..|s| - 1]);
    } else if |s| == 1 {
      assert s[..0] == [];
    }
  }

  // ---- Powers of ten

  lemma {:induction false} ShiftStep(x: real, e: int)
    ensures Shift(10.0 * x, e) == Shift(x, e + 1)
  {
  }

  lemma {:induction false} ShiftTimes(n: nat, k: nat, e: int)
    ensures Shift(Times(n, k) as real, e) == Shift(n as real, e + k)
    decreases k
  {
    if k > 0 {
      ShiftTimes(10 * n, k - 1, e);
      assert (10 * n) as real == 10.0 * n as real;
      ShiftStep(n as real, e + k - 1);
    }
  }

  lemma {:induction false} ShiftInjective(x: real, y: real, e: int)
    requires Shift(x, e) == Shift(y, e)
    ensures x == y
    decreases if e < 0 then -e else e
  {
    if e > 0 {
      ShiftInjective(10.0 * x, 10.0 * y, e - 1);
    } else if e < 0 {
      ShiftInjective(x / 10.0, y / 10.0, e + 1);
    }
  }

  lemma {:induction false} ShiftZero(e: int)
    ensures Shift(0.0, e) == 0.0
    decreases if e < 0 then -e else e
  {
    if e > 0 {
      ShiftZero(e - 1);
    } else if e < 0 {
      ShiftZero(e + 1);
    }
  }

  /** A positive value has at most one form n * 10^e with n not divisible by ten. */
  lemma FormUnique(n: nat, e: int, m: nat, f: int)
    requires n % 10 != 0 && m % 10 != 0
    requires Shift(n as real, e) == Shift(m as real, f)
    ensures n == m && e == f
  {
    if e <= f {
      FormUniqueOrdered(n, e, m, f);
    } else {
      FormUniqueOrdered(m, f, n, e);
    }
  }

  lemma FormUniqueOrdered(n: nat, e: int, m: nat, f: int)
    requires n % 10 != 0 && e <= f
    requires Shift(n as real, e) == Shift(m as real, f)
    ensures n == m && e == f
  {
    var k := f - e;
    ShiftTimes(m, k, e);
    ShiftInjective(n as real, Times(m, k) as real, e);
    if k > 0 {
      TimesStep(m, k - 1);
    }
  }

  // ---- Main result

  /** The exponent of the number and its adjustments, by the fraction's length and by the
      trailing zeros dropped, fit in an i64; for zero, only the exponent itself has to. */
  predicate Fits(n: Number)
    requires WfNumber(n)
  {
    IsI64(ExponentValue(n.exp)) && AdjustmentsFit(Significand(n), ExponentValue(n.exp), |n.frac|)
  }

  predicate AdjustmentsFit(digits: bytes, exp: int, frac: nat) {
    var leading := TrimLeft(digits);
    var dropped := |leading| - |TrimRight(leading)|;
    leading != [] ==> IsI64(frac) && IsI64(exp - frac) && IsI64(dropped) && IsI64(exp - frac + dropped)
  }

  /** Canonical parts: no leading zero, no trailing zero, and one spelling of zero. */
  predicate Canonical(p: Parts) {
    && Digits(p.digits)
    && (p.digits != [] ==> p.digits[0] != ZERO && Natural(p.digits) % 10 != 0)
    && (p.digits == [] ==> p.exponent == 0)
  }

  lemma NormalisedExact(negative: bool, digits: bytes, exp: int, frac: nat)
    requires Digits(digits)
    ensures var p := Normalised(negative, digits, exp, frac);
      && (p.Some? <==> AdjustmentsFit(digits, exp, frac))
      && (p.Some? ==>
          && p.value.negative == negative && Canonical(p.value)
          && Shift(Natural(p.value.digits) as real, p.value.exponent) == Shift(Natural(digits) as real, exp - frac))
  {
    TrimLeftKeeps(digits);
    var leading := TrimLeft(digits);
    TrimRightDivides(leading);
    var trimmed := TrimRight(leading);
    ShiftTimes(Natural(trimmed), |leading| - |trimmed|, exp - frac);
    ShiftZero(exp - frac);
  }

  lemma PartsExact(n: Number)
    requires WfNumber(n)
    ensures var p := PartsOf(EmitNumber(n));
      && (p.Some? <==> Fits(n))
      && (p.Some? ==>
          && p.value.negative == n.minus && Canonical(p.value)
          && Shift(Natural(p.value.digits) as real, p.value.exponent) == Magnitude(n))
  {
    NumberRead(n);
    NormalisedExact(n.minus, Significand(n), ExponentValue(n.exp), |n.frac|);
  }

  /** Two JSON numbers compare equivalent exactly when both fit, carry the same
      sign and denote the same value. */
  lemma EquivalentExact(a: Number, b: Number)
    requires WfNumber(a) && WfNumber(b)
    ensures DecimalEquivalent(EmitNumber(a), EmitNumber(b))
       <==> Fits(a) && Fits(b) && a.minus == b.minus && Magnitude(a) == Magnitude(b)
  {
    PartsExact(a);
    PartsExact(b);
    if Fits(a) && Fits(b) && Magnitude(a) == Magnitude(b) {
      var p, q := PartsOf(EmitNumber(a)).value, PartsOf(EmitNumber(b)).value;
      SameParts(p, q);
    }
  }

  lemma SameParts(p: Parts, q: Parts)
    requires Canonical(p) && Canonical(q)
    requires Shift(Natural(p.digits) as real, p.exponent) == Shift(Natural(q.digits) as real, q.exponent)
    ensures p.digits == q.digits && p.exponent == q.exponent
  {
    NonZero(p.digits);
    NonZero(q.digits);
    ZeroOnly(Natural(p.digits), p.exponent);
    ZeroOnly(Natural(q.digits), q.exponent);
    if p.digits != [] {
      FormUnique(Natural(p.digits), p.exponent, Natural(q.digits), q.exponent);
      NaturalInjective(p.digits, q.digits);
    }
  }

  lemma ZeroOnly(n: nat, e: int)
    ensures Shift(n as real, e) == 0.0 <==> n == 0
  {
    ShiftZero(e);
    if Shift(n as real, e) == 0.0 {
      ShiftInjective(n as real, 0.0, e);
    }
  }

  // ---- `Value::decimal`

  datatype Decimal = Decimal(value: bytes, precision: nat, scale: nat)

  datatype Metadata = Metadata(precision: nat, scale: nat)

  function Stripped(s: bytes): bytes {
    if s != [] && s[0] == MINUS then s[1..] else s
  }

  predicate CanonicalDigits(s: bytes) {
    s != [] && Digits(s) && (|s| == 1 || s[0] != ZERO)
  }

  function DecimalMetadata(value: bytes): Result<Metadata> {
    var s := Stripped(value);
    var dot := Dot(s);
    MetadataOfParts(s[..dot], dot < |s|, if dot < |s| then s[dot + 1..] else [])
  }

  function MetadataOfParts(whole: bytes, dotted: bool, frac: bytes): Result<Metadata> {
    if !CanonicalDigits(whole) || (dotted && (frac == [] || !Digits(frac))) then Err(InvalidRequest)
    else
      var significant := |TrimLeft(whole)| + |frac|;
      var precision := if significant == 0 then 1 else significant;
      if precision > 255 then Err(CapExceeded) else Ok(Metadata(precision, |frac|))
  }

  /** The check `validate` makes on a decimal. */
  predicate ValidDecimal(d: Decimal) {
    |d.value| <= SCALAR_BYTES && DecimalMetadata(d.value) == Ok(Metadata(d.precision, d.scale))
  }

  /** The digits and zeros the expansion needs. */
  function Width(digits: bytes, nativeScale: int): nat {
    var n := |digits| + (if nativeScale < 0 then -nativeScale else 0);
    if nativeScale > n then nativeScale else n
  }

  function Zeros(n: nat): (s: bytes)
    ensures |s| == n && Digits(s)
  {
    if n == 0 then [] else Zeros(n - 1) + [ZERO]
  }

  /** The expansion as a JSON number without exponent. */
  function Expansion(minus: bool, digits: bytes, nativeScale: int): (n: Number)
    requires CanonicalDigits(digits)
    ensures WfNumber(n)
  {
    if nativeScale <= 0 then
      Number(minus, if digits == [ZERO] then digits else digits + Zeros(-nativeScale), [], NoExponent)
    else if |digits| <= nativeScale then
      Number(minus, [ZERO], Zeros(nativeScale - |digits|) + digits, NoExponent)
    else
      var split := |digits| - nativeScale;
      Number(minus, digits[..split], digits[split..], NoExponent)
  }

  lemma {:induction false} ZerosAreZero(n: nat)
    ensures Natural(Zeros(n)) == 0
    decreases n
  {
    if n > 0 {
      assert Zeros(n)[..n - 1] == Zeros(n - 1);
      ZerosAreZero(n - 1);
    }
  }

  /** The expansion denotes the coefficient divided by ten to the scale, exactly. */
  lemma ExpansionExact(minus: bool, digits: bytes, nativeScale: int)
    requires CanonicalDigits(digits)
    ensures Magnitude(Expansion(minus, digits, nativeScale)) == Shift(Natural(digits) as real, -nativeScale)
    ensures var n := Expansion(minus, digits, nativeScale);
      n.minus == minus && n.exp.NoExponent? && |n.frac| == if nativeScale > 0 then nativeScale else 0
  {
    if nativeScale <= 0 {
      ScaledUp(minus, digits, nativeScale);
    } else if |digits| <= nativeScale {
      PaddedLeft(digits, nativeScale - |digits|);
    } else {
      Rejoin(digits, |digits| - nativeScale);
    }
  }

  lemma ScaledUp(minus: bool, digits: bytes, nativeScale: int)
    requires CanonicalDigits(digits) && nativeScale <= 0
    ensures Magnitude(Expansion(minus, digits, nativeScale)) == Shift(Natural(digits) as real, -nativeScale)
  {
    var n := Expansion(minus, digits, nativeScale);
    assert n.whole + [] == n.whole;
    if digits == [ZERO] {
      assert digits[..0] == [];
      ShiftZero(-nativeScale);
    } else {
      NaturalOfPadded(digits, -nativeScale);
      ShiftTimes(Natural(digits), -nativeScale, 0);
    }
  }

  lemma NaturalOfPadded(digits: bytes, n: nat)
    requires Digits(digits)
    ensures Digits(digits + Zeros(n)) && Natural(digits + Zeros(n)) == Times(Natural(digits), n)
  {
    NaturalJoins(digits, Zeros(n));
    ZerosAreZero(n);
  }

  lemma PaddedLeft(digits: bytes, n: nat)
    requires Digits(digits)
    ensures Natural([ZERO] + (Zeros(n) + digits)) == Natural(digits)
  {
    NaturalJoins([ZERO], Zeros(n) + digits);
    NaturalJoins(Zeros(n), digits);
    ZerosAreZero(n);
    assert [ZERO][..0] == [];
    TimesZero(|Zeros(n) + digits|);
    TimesZero(|digits|);
  }

  lemma {:induction false} TrimLeftOfCanonical(s: bytes)
    requires CanonicalDigits(s)
    ensures |TrimLeft(s)| == if s == [ZERO] then 0 else |s|
  {
    if s[0] == ZERO {
      assert s == [ZERO] && s[1..] == [];
    }
  }

  /** A plain decimal: a JSON number without an exponent. */
  predicate IsPlain(s: bytes, n: Number) {
    WfNumber(n) && n.exp.NoExponent? && EmitNumber(n) == s
  }

  /** The digits of a number, without the zero in front of a fraction; at least one. */
  function PrecisionOf(n: Number): (p: nat)
    ensures p > 0
  {
    var significant := (if n.whole == [ZERO] then 0 else |n.whole|) + |n.frac|;
    if significant == 0 then 1 else significant
  }

  lemma MetadataOf(s: bytes, n: Number)
    requires IsPlain(s, n)
    ensures DecimalMetadata(s) == if PrecisionOf(n) > 255 then Err(CapExceeded) else Ok(Metadata(PrecisionOf(n), |n.frac|))
  {
    PartsOfPlain(n);
    TrimLeftOfCanonical(n.whole);
  }

  lemma PartsOfPlain(n: Number)
    requires WfNumber(n) && n.exp.NoExponent?
    ensures DecimalMetadata(EmitNumber(n)) == MetadataOfParts(n.whole, n.frac != [], n.frac)
  {
    UnsignedIsEmitted(n);
    UnsignedCut(n);
  }

  lemma {:induction false} DotFound(s: bytes)
    ensures Dot(s) < |s| ==> s[Dot(s)] == DOT
    decreases |s|
  {
    if s != [] && s[0] != DOT {
      DotFound(s[1..]);
    }
  }

  /** The number read from a text that is not refused as malformed. */
  lemma PlainRead(s: bytes) returns (n: Number)
    requires DecimalMetadata(s) != Err(InvalidRequest)
    ensures IsPlain(s, n)
  {
    var u := Stripped(s);
    var dot := Dot(u);
    DotFound(u);
    if dot < |u| {
      n := Number(s[0] == MINUS, u[..dot], u[dot + 1..], NoExponent);
      assert n.frac + [] == n.frac;
      Rejoin(u, dot);
      Pick(u, dot);
    } else {
      n := Number(s[0] == MINUS, u, [], NoExponent);
      assert u[..dot] == u && u + [] == u;
    }
    assert EmitUnsigned(n) == u;
    if n.minus {
      Uncons(s);
    }
  }

  /** Exactly the plain decimals are not malformed; their precision and scale are their digits, counted, and one
      with more than 255 of them is over the cap. */
  lemma MetadataExact(s: bytes)
    ensures DecimalMetadata(s) != Err(InvalidRequest) <==> exists n: Number :: IsPlain(s, n)
    ensures forall n: Number | IsPlain(s, n) ::
      DecimalMetadata(s) == if PrecisionOf(n) > 255 then Err(CapExceeded) else Ok(Metadata(PrecisionOf(n), |n.frac|))
  {
    forall n: Number | IsPlain(s, n)
      ensures DecimalMetadata(s) == if PrecisionOf(n) > 255 then Err(CapExceeded) else Ok(Metadata(PrecisionOf(n), |n.frac|))
    {
      MetadataOf(s, n);
    }
    if DecimalMetadata(s) != Err(InvalidRequest) {
      var n := PlainRead(s);
    }
  }

  lemma UnsignedCut(n: Number)
    requires WfNumber(n) && n.exp.NoExponent?
    ensures var s := EmitUnsigned(n);
      && Dot(s) == |n.whole| && s[..|n.whole|] == n.whole
      && (|n.whole| < |s| <==> n.frac != []) && (n.frac != [] ==> s[|n.whole| + 1..] == n.frac)
  {
    var f := EmitFraction(n.frac, []);
    DigitsAreNotMarks(n.whole, f);
    Halves(n.whole, f);
    if n.frac != [] {
      assert n.frac + [] == n.frac;
      Cons(DOT, n.frac);
      DropDrop(EmitUnsigned(n), |n.whole|, 1);
    }
  }

  /** The text of the expansion, appended to in place. */
  method Build(minus: bool, digits: bytes, scale: nat, zeros: nat) returns (out: bytes)
    requires CanonicalDigits(digits) && (scale == 0 || zeros == 0)
    ensures out == EmitNumber(Expansion(minus, digits, scale - zeros))
  {
    out := [];
    if minus {
      out := out + [MINUS];
    }
    ghost var sign, n := out, Expansion(minus, digits, scale - zeros);
    SignText(n);
    if scale == 0 {
      out := out + digits;
      if digits != [ZERO] {
        var z := Zeros(zeros);
        out := out + z;
        Associates(sign, digits, z);
      }
      assert n == Number(minus, if digits == [ZERO] then digits else digits + Zeros(zeros), [], NoExponent);
      PlainText(sign, n.whole);
    } else if |digits| <= scale {
      var z := Zeros(scale - |digits|);
      out := out + [ZERO, DOT];
      out := out + z;
      out := out + digits;
      assert n == Number(minus, [ZERO], z + digits, NoExponent);
      PaddedText(sign, z, digits);
    } else {
      var split := |digits| - scale;
      out := out + digits[..split];
      out := out + [DOT];
      out := out + digits[split..];
      assert n == Number(minus, digits[..split], digits[split..], NoExponent);
      SplitText(sign, digits[..split], digits[split..]);
    }
  }

  lemma SignText(n: Number)
    requires n.exp.NoExponent?
    ensures EmitNumber(n) == (if n.minus then [MINUS] else []) + (n.whole + EmitFraction(n.frac, []))
  {
    assert [] + EmitUnsigned(n) == EmitUnsigned(n);
  }

  lemma PlainText(sign: bytes, whole: bytes)
    ensures sign + whole == sign + (whole + EmitFraction([], []))
  {
    assert whole + [] == whole;
  }

  lemma PaddedText(sign: bytes, z: bytes, digits: bytes)
    requires digits != []
    ensures sign + [ZERO, DOT] + z + digits == sign + ([ZERO] + EmitFraction(z + digits, []))
  {
    assert (z + digits) + [] == z + digits;
    assert [ZERO] + ([DOT] + (z + digits)) == [ZERO, DOT] + (z + digits);
    Associates(sign, [ZERO, DOT], z + digits);
    Associates(sign + [ZERO, DOT], z, digits);
  }

  lemma SplitText(sign: bytes, whole: bytes, frac: bytes)
    requires frac != []
    ensures sign + whole + [DOT] + frac == sign + (whole + EmitFraction(frac, []))
  {
    assert frac + [] == frac;
    Associates(sign, whole, [DOT] + frac);
    Associates(sign + whole, [DOT], frac);
  }

  /** Builds the text of `coefficient` divided by ten to the `nativeScale`. */
  method MakeDecimal(coefficient: bytes, nativeScale: int) returns (r: Result<Decimal>)
    requires IsI64(nativeScale)
    ensures var digits := Stripped(coefficient);
      && (r.Ok? <==> CanonicalDigits(digits) && Width(digits, nativeScale) <= 255)
      && (r.Ok? ==>
          && r.value.value == EmitNumber(Expansion(coefficient[0] == MINUS, digits, nativeScale))
          && ValidDecimal(r.value) && r.value.precision <= 255 && r.value.scale <= 255)
      && (r.Err? ==> r.error == if CanonicalDigits(digits) then CapExceeded else InvalidRequest)
  {
    var digits := Stripped(coefficient);
    if !CanonicalDigits(digits) {
      return Err(InvalidRequest);
    }
    var scale := if nativeScale > 0 then nativeScale else 0;
    var zeros := if nativeScale < 0 then -nativeScale else 0;
    var width := if scale > |digits| + zeros then scale else |digits| + zeros;
    var _ :- Cap(width, 255);
    var out := Build(coefficient[0] == MINUS, digits, scale, zeros);
    ExpansionShort(coefficient[0] == MINUS, digits, nativeScale);
    var metadata := DecimalMetadata(out);
    return Ok(Decimal(out, metadata.value.precision, metadata.value.scale));
  }

  lemma ExpansionShort(minus: bool, digits: bytes, nativeScale: int)
    requires CanonicalDigits(digits) && Width(digits, nativeScale) <= 255
    ensures var s := EmitNumber(Expansion(minus, digits, nativeScale));
      && |s| <= SCALAR_BYTES && DecimalMetadata(s).Ok?
      && DecimalMetadata(s).value.precision <= 255 && DecimalMetadata(s).value.scale <= 255
  {
    var n := Expansion(minus, digits, nativeScale);
    assert (if n.whole == [ZERO] then 0 else |n.whole|) + |n.frac| <= 255;
    MetadataOf(EmitNumber(n), n);
  }
}
