/**
 Decimal strings: the digit checks, the fixed-point wire form of a LegacyDec (value times 10^18 as an
 integer numeral) and the rational numbers these strings denote.
 */
module Decimal {
  import opened Basics

  const LEGACY_DEC_PRECISION: nat := 18

  const DEC_ONE: nat := 1_000_000_000_000_000_000

  // ---------------------------------------------------------------- digits and numerals

  predicate IsDigit(c: char) {
    '0' <= c <= '9'
  }

  predicate AllDigits(s: string) {
    forall i | 0 <= i < |s| :: IsDigit(s[i])
  }

  /** A non-empty run of digits: what checkDigits accepts. */
  predicate IsDigits(s: string) {
    s != "" && AllDigits(s)
  }

  method CheckDigits(s: string) returns (ok: bool)
    ensures ok <==> IsDigits(s)
  {
    if s == "" {
      return false;
    }
    for i := 0 to |s|
      invariant AllDigits(s[..i])
    {
      if s[i] < '0' || s[i] > '9' {
        return false;
      }
      assert s[..i + 1] == s[..i] + [s[i]];
    }
    assert s[..|s|] == s;
    return true;
  }

  function DigitValue(c: char): nat
    requires IsDigit(c)
  {
    c as int - '0' as int
  }

  function Digit(d: nat): (c: char)
    requires d < 10
    ensures IsDigit(c) && DigitValue(c) == d
  {
    (d + '0' as int) as char
  }

  /** The number a digit string denotes in base ten. */
  function NatOf(s: string): nat
    requires AllDigits(s)
  {
    if s == "" then 0 else 10 * NatOf(s[..|s| - 1]) + DigitValue(s[|s| - 1])
  }

  /** The base-ten numeral without leading zeros (big.Int.String, strconv.FormatUint). */
  function Numeral(n: nat): (s: string)
    ensures IsDigits(s)
  {
    if n < 10 then [Digit(n)] else Numeral(n / 10) + [Digit(n % 10)]
  }

  lemma {:induction false} NumeralValue(n: nat)
    ensures NatOf(Numeral(n)) == n
  {
    if n >= 10 {
      NumeralValue(n / 10);
      assert Numeral(n)[..|Numeral(n)| - 1] == Numeral(n / 10);
    }
  }

  lemma NumeralInjective(m: nat, n: nat)
    requires Numeral(m) == Numeral(n)
    ensures m == n
  {
    NumeralValue(m);
    NumeralValue(n);
  }

  /** strings.TrimLeft(s, "0") */
  function TrimZeros(s: string): string {
    if s != "" && s[0] == '0' then TrimZeros(s[1..]) else s
  }

  lemma {:induction false} TrimZerosSnoc(s: string, c: char)
    ensures TrimZeros(s + [c]) == if TrimZeros(s) != "" then TrimZeros(s) + [c] else if c == '0' then "" else [c]
  {
    if s == "" {
      assert s + [c] == [c];
    } else {
      assert (s + [c])[1..] == s[1..] + [c];
      TrimZerosSnoc(s[1..], c);
    }
  }

  /** A digit string stripped of leading zeros is the numeral of its value, and empty exactly at zero. */
  lemma {:induction false} TrimmedIsNumeral(s: string)
    requires AllDigits(s)
    ensures TrimZeros(s) == if NatOf(s) == 0 then "" else Numeral(NatOf(s))
  {
    if s != "" {
      var init, last := s[..|s| - 1], s[|s| - 1];
      assert s == init + [last];
      TrimZerosSnoc(init, last);
      TrimmedIsNumeral(init);
      assert NatOf(s) / 10 == NatOf(init) && NatOf(s) % 10 == DigitValue(last);
    }
  }

  /** A numeral has no leading zero unless it is "0", and no other digit string with that property has its value. */
  lemma NumeralUnique(s: string)
    requires IsDigits(s)
    ensures s == Numeral(NatOf(s)) <==> (s == "0" || s[0] != '0')
  {
    TrimmedIsNumeral(s);
    TrimmedIsNumeral(Numeral(NatOf(s)));
    NumeralValue(NatOf(s));
    TrimShorter(s);
    TrimShorter(Numeral(NatOf(s)));
  }

  lemma TrimShorter(s: string)
    ensures |TrimZeros(s)| <= |s|
    ensures s != "" && s[0] == '0' ==> |TrimZeros(s)| < |s|
  {
  }

  // ---------------------------------------------------------------- powers of ten

  function Pow10(k: nat): (r: nat)
    ensures r > 0
  {
    if k == 0 then 1 else 10 * Pow10(k - 1)
  }

  lemma {:induction false} Pow10Add(j: nat, k: nat)
    ensures Pow10(j + k) == Pow10(j) * Pow10(k)
  {
    if j > 0 {
      Pow10Add(j - 1, k);
      assert Pow10(j + k) == 10 * Pow10(j - 1 + k);
      assert 10 * (Pow10(j - 1) * Pow10(k)) == (10 * Pow10(j - 1)) * Pow10(k);
    }
  }

  /** n times 10^k */
  function Scale(n: nat, k: nat): nat {
    n * Pow10(k)
  }

  lemma OneIsPow10()
    ensures DEC_ONE == Pow10(LEGACY_DEC_PRECISION)
  {
    assert Pow10(6) == 1_000_000;
    Pow10Add(6, 6);
    Pow10Add(6, 12);
  }

  lemma {:induction false} NatOfAppend(s: string, t: string)
    requires AllDigits(s) && AllDigits(t)
    ensures NatOf(s + t) == Scale(NatOf(s), |t|) + NatOf(t)
  {
    if t == "" {
      assert s + t == s;
    } else {
      var init := t[..|t| - 1];
      assert (s + t)[..|s + t| - 1] == s + init;
      NatOfAppend(s, init);
      Distribute(NatOf(s), Pow10(|init|), NatOf(init));
    }
  }

  lemma Distribute(a: nat, p: nat, b: nat)
    ensures 10 * (a * p + b) == a * (10 * p) + 10 * b
  {
  }

  /** strings.Repeat("0", n) */
  function Zeros(n: nat): (r: string)
    ensures |r| == n && AllDigits(r)
  {
    seq(n, _ => '0')
  }

  lemma {:induction false} ZerosValue(n: nat)
    ensures NatOf(Zeros(n)) == 0
  {
    if n > 0 {
      ZerosValue(n - 1);
      assert Zeros(n)[..n - 1] == Zeros(n - 1);
    }
  }

  // ---------------------------------------------------------------- LegacyDec strings

  /** strings.Cut(s, "."): what precedes and what follows the first dot. */
  function Cut(s: string): (r: (string, string))
    ensures |r.0| <= |s|
  {
    if s == "" then ("", "")
    else if s[0] == '.' then ("", s[1..])
    else var (before, after) := Cut(s[1..]); ([s[0]] + before, after)
  }

  /** A digit run, then optionally a dot and at most eighteen digits. */
  ghost predicate IsDecimal(s: string) {
    exists i :: IsDecimalAt(s, i)
  }

  ghost predicate IsDecimalAt(s: string, i: int) {
    && 1 <= i <= |s|
    && AllDigits(s[..i])
    && (i < |s| ==> s[i] == '.' && AllDigits(s[i + 1..]) && |s| - i - 1 <= LEGACY_DEC_PRECISION)
  }

  /** The acceptance test of the code: cut at the first dot, then check both parts. */
  predicate IsDecimalByCut(s: string) {
    var (intPart, fracPart) := Cut(s);
    IsDigits(intPart) && AllDigits(fracPart) && |fracPart| <= LEGACY_DEC_PRECISION
  }

  lemma {:induction false} CutAt(s: string, i: nat)
    requires i <= |s|
    requires forall j | 0 <= j < i :: s[j] != '.'
    requires i < |s| ==> s[i] == '.'
    ensures Cut(s) == (s[..i], if i < |s| then s[i + 1..] else "")
  {
    if i > 0 {
      CutAt(s[1..], i - 1);
      assert [s[0]] + s[1..][..i - 1] == s[..i];
    }
  }

  function FirstDot(s: string): (i: nat)
    ensures i <= |s|
    ensures forall j | 0 <= j < i :: s[j] != '.'
    ensures i < |s| ==> s[i] == '.'
  {
    if s == "" || s[0] == '.' then 0 else 1 + FirstDot(s[1..])
  }

  /** Cutting at the first dot accepts exactly the decimals. */
  lemma CutAcceptsDecimals(s: string)
    ensures IsDecimalByCut(s) <==> IsDecimal(s)
  {
    if IsDecimalByCut(s) {
      CutIsDecimal(s);
    }
    if IsDecimal(s) {
      DecimalIsCut(s);
    }
  }

  lemma CutIsDecimal(s: string)
    requires IsDecimalByCut(s)
    ensures IsDecimal(s)
  {
    var k := FirstDot(s);
    CutAt(s, k);
    assert IsDecimalAt(s, k);
  }

  lemma DecimalIsCut(s: string)
    requires IsDecimal(s)
    ensures IsDecimalByCut(s)
  {
    var i :| IsDecimalAt(s, i);
    assert forall j | 0 <= j < i :: IsDigit(s[..i][j]);
    CutAt(s, i);
  }

  /** The rational number a decimal string denotes. */
  ghost function RationalValue(s: string): real
    requires IsDecimalByCut(s)
  {
    var (intPart, fracPart) := Cut(s);
    NatOf(intPart) as real + NatOf(fracPart) as real / Pow10(|fracPart|) as real
  }

  /** The same value in units of 10^-18. */
  function ScaledValue(s: string): nat
    requires IsDecimalByCut(s)
  {
    var (intPart, fracPart) := Cut(s);
    NatOf(intPart) * DEC_ONE + Scale(NatOf(fracPart), LEGACY_DEC_PRECISION - |fracPart|)
  }

  /** Scaling is exact: eighteen places always suffice. */
  lemma ScalingIsExact(s: string)
    requires IsDecimalByCut(s)
    ensures ScaledValue(s) as real == RationalValue(s) * DEC_ONE as real
  {
    var (intPart, fracPart) := Cut(s);
    var k := LEGACY_DEC_PRECISION - |fracPart|;
    var p, q := Pow10(|fracPart|), Pow10(k);
    OneIsPow10();
    Pow10Add(|fracPart|, k);
    ExactParts(NatOf(intPart), NatOf(fracPart), p, q);
  }

  lemma ExactParts(a: nat, b: nat, p: nat, q: nat)
    requires p > 0
    ensures (a * (p * q) + b * q) as real == (a as real + b as real / p as real) * (p * q) as real
  {
    RealScaling(a as real, b as real, p as real, q as real);
    CastProduct(p, q);
    CastProduct(a, p * q);
    CastProduct(b, q);
  }

  lemma CastProduct(a: int, b: int)
    ensures (a * b) as real == a as real * b as real
  {
  }

  lemma RealScaling(a: real, b: real, p: real, q: real)
    requires p > 0.0
    ensures (a + b / p) * (p * q) == a * (p * q) + b * q
  {
    assert b / p * p == b;
    assert b / p * (p * q) == (b / p * p) * q;
  }

  /** The wire numeral of a decimal string, when it is one. */
  function DecWire(s: string): Option<string> {
    if IsDecimalByCut(s) then Some(Numeral(ScaledValue(s))) else None
  }

  method LegacyDecWire(s: string) returns (r: Option<string>)
    ensures r.Some? <==> IsDecimal(s)
    ensures r == DecWire(s)
  {
    hide Cut, Numeral, NatOf, TrimZeros, IsDecimal, Scale, Zeros;
    CutAcceptsDecimals(s);
    var (intPart, fracPart) := Cut(s);
    var ok := CheckDigits(intPart);
    if !ok {
      return None;
    }
    if fracPart != "" {
      ok := CheckDigits(fracPart);
      if !ok {
        return None;
      }
    }
    if |fracPart| > LEGACY_DEC_PRECISION {
      return None;
    }
    PaddedValue(intPart, fracPart);
    fracPart := fracPart + Zeros(LEGACY_DEC_PRECISION - |fracPart|);
    TrimmedIsNumeral(intPart + fracPart);
    var scaled := TrimZeros(intPart + fracPart);
    if scaled == "" {
      scaled := "0";
      ZeroNumeral();
    }
    return Some(scaled);
  }

  lemma ZeroNumeral()
    ensures Numeral(0) == "0"
  {
  }

  lemma PaddedValue(intPart: string, fracPart: string)
    requires AllDigits(intPart) && AllDigits(fracPart) && |fracPart| <= LEGACY_DEC_PRECISION
    ensures var padded := fracPart + Zeros(LEGACY_DEC_PRECISION - |fracPart|);
            && AllDigits(intPart + padded)
            && NatOf(intPart + padded)
               == NatOf(intPart) * DEC_ONE + Scale(NatOf(fracPart), LEGACY_DEC_PRECISION - |fracPart|)
  {
    hide NatOf, Pow10, Scale, Zeros;
    var k := LEGACY_DEC_PRECISION - |fracPart|;
    ZerosValue(k);
    ScaledToOne(NatOf(intPart));
    PaddedParts(intPart, fracPart, Zeros(k));
  }

  lemma ScaledToOne(n: nat)
    ensures Scale(n, LEGACY_DEC_PRECISION) == n * DEC_ONE
  {
    hide Pow10;
    OneIsPow10();
  }

  lemma PaddedParts(intPart: string, fracPart: string, zeros: string)
    requires AllDigits(intPart) && AllDigits(fracPart) && AllDigits(zeros) && NatOf(zeros) == 0
    ensures AllDigits(intPart + (fracPart + zeros))
    ensures NatOf(intPart + (fracPart + zeros))
         == Scale(NatOf(intPart), |fracPart| + |zeros|) + Scale(NatOf(fracPart), |zeros|)
  {
    NatOfAppend(fracPart, zeros);
    NatOfAppend(intPart, fracPart + zeros);
  }

  /** decValue: the wire numeral read back as an integer (big.Int.SetString). */
  function DecValue(s: string): Option<nat> {
    var w :- DecWire(s);
    if AllDigits(w) then Some(NatOf(w)) else None
  }

  /** The parsed integer is the scaled value. */
  lemma DecValueIsScaled(s: string)
    ensures DecValue(s) == if IsDecimalByCut(s) then Some(ScaledValue(s)) else None
  {
    if IsDecimalByCut(s) {
      NumeralValue(ScaledValue(s));
    }
  }

  /** Wire forms agree exactly when the values do, and comparing parsed integers is comparing the rationals. */
  lemma WireDecidesValue(s: string, t: string)
    requires IsDecimal(s) && IsDecimal(t)
    ensures IsDecimalByCut(s) && IsDecimalByCut(t) && DecValue(s).Some? && DecValue(t).Some?
    ensures DecWire(s) == DecWire(t) <==> RationalValue(s) == RationalValue(t)
    ensures DecValue(s).value <= DecValue(t).value <==> RationalValue(s) <= RationalValue(t)
  {
    CutAcceptsDecimals(s);
    CutAcceptsDecimals(t);
    DecValueIsScaled(s);
    DecValueIsScaled(t);
    ScalingIsExact(s);
    ScalingIsExact(t);
    var m, n := ScaledValue(s), ScaledValue(t);
    if Numeral(m) == Numeral(n) {
      NumeralInjective(m, n);
    }
    assert DEC_ONE as real > 0.0;
    assert m as real <= n as real <==> m <= n;
  }

  // ---------------------------------------------------------------- math/big integers

  /** big.Int.SetString(s, 10): an optional sign, then a non-empty digit run. */
  function SetString(s: string): Option<int> {
    if s != "" && s[0] == '-' && IsDigits(s[1..]) then Some(-(NatOf(s[1..]) as int))
    else if s != "" && s[0] == '+' && IsDigits(s[1..]) then Some(NatOf(s[1..]))
    else if IsDigits(s) then Some(NatOf(s))
    else None
  }

  /** `n` is what `s` writes in base ten: digits with an optional sign. */
  ghost predicate IsInteger(s: string, n: int) {
    exists sign, digits ::
      && s == sign + digits && IsDigits(digits)
      && ((sign == "-" && n == -(NatOf(digits) as int)) || ((sign == "" || sign == "+") && n == NatOf(digits)))
  }

  lemma SetStringExactly(s: string, n: int)
    ensures SetString(s) == Some(n) <==> IsInteger(s, n)
  {
    hide NatOf;
    if SetString(s) == Some(n) {
      if s[0] == '-' || s[0] == '+' {
        assert s == [s[0]] + s[1..];
        assert [s[0]] == "-" || [s[0]] == "+";
      } else {
        assert s == "" + s;
      }
    }
    if IsInteger(s, n) {
      var sign, digits :| s == sign + digits && IsDigits(digits)
        && ((sign == "-" && n == -(NatOf(digits) as int)) || ((sign == "" || sign == "+") && n == NatOf(digits)));
      SignedDigits(s, sign, digits);
    }
  }

  lemma SignedDigits(s: string, sign: string, digits: string)
    requires s == sign + digits && IsDigits(digits) && (sign == "" || sign == "-" || sign == "+")
    ensures sign == "" ==> s == digits && s[0] != '-' && s[0] != '+'
    ensures sign != "" ==> s[0] == sign[0] && s[1..] == digits
  {
  }

  // ---------------------------------------------------------------- comparing decimals

  /** The number a decimal string denotes. */
  ghost function ValueOf(s: string): real {
    if IsDecimalByCut(s) then RationalValue(s) else 0.0
  }

  /** Two decimals in order. */
  ghost predicate AtMost(s: string, t: string) {
    IsDecimal(s) && IsDecimal(t) && ValueOf(s) <= ValueOf(t)
  }

  lemma DecValueExactly(s: string)
    ensures DecValue(s).Some? <==> IsDecimal(s)
    ensures IsDecimal(s) ==> DecValue(s).value as real == ValueOf(s) * 1_000_000_000_000_000_000.0
  {
    hide ScaledValue, RationalValue, IsDecimalByCut, IsDecimal, DecWire;
    CutAcceptsDecimals(s);
    DecValueIsScaled(s);
    if IsDecimalByCut(s) {
      ScalingIsExact(s);
    }
  }

  lemma DecValuesInOrder(s: string, t: string)
    ensures AtMost(s, t) <==> DecValue(s).Some? && DecValue(t).Some? && DecValue(s).value <= DecValue(t).value
  {
    hide DecValue, ValueOf, IsDecimal;
    DecValueExactly(s);
    DecValueExactly(t);
    if DecValue(s).Some? && DecValue(t).Some? {
      var m, n := DecValue(s).value, DecValue(t).value;
      assert m as real <= n as real <==> m <= n;
    }
  }

  lemma DecValueAtMostOne(s: string)
    requires DecValue(s).Some?
    ensures DecValue(s).value <= DEC_ONE <==> ValueOf(s) <= 1.0
  {
    hide DecValue, ValueOf, IsDecimal;
    DecValueExactly(s);
    var n := DecValue(s).value;
    assert n as real <= DEC_ONE as real <==> n <= DEC_ONE;
  }
}
