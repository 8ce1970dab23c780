/** Numbers as RFC 8259 section 6 spells them, and what exact `strtod` makes of them. */
module JsonNumerals {
  import opened Bytes
  import opened JsonText
  import opened JsonGrammar

  datatype Power = Power(letter: byte, sign: bytes, digits: bytes)

  /** Leading zeros are allowed, which the standard does not; without a fraction there is no point either. */
  datatype Numeral = Numeral(minus: bool, whole: bytes, fraction: bytes, power: Option<Power>)

  predicate IsPower(p: Power) {
    && (p.letter == 101 || p.letter == 69) && (p.sign == [] || p.sign == [43] || p.sign == [MINUS])
    && p.digits != [] && AllDigits(p.digits)
  }

  predicate IsNumeral(n: Numeral) {
    n.whole != [] && AllDigits(n.whole) && AllDigits(n.fraction) && (n.power.Some? ==> IsPower(n.power.value))
  }

  function PowerText(power: Option<Power>): bytes {
    match power
    case None => []
    case Some(p) => [p.letter] + (p.sign + p.digits)
  }

  function FractionText(fraction: bytes): bytes { if fraction == [] then [] else [46] + fraction }

  function SignText(minus: bool): bytes { if minus then [MINUS] else [] }

  function NumeralText(n: Numeral): bytes {
    SignText(n.minus) + (n.whole + (FractionText(n.fraction) + PowerText(n.power)))
  }

  function PowerValue(power: Option<Power>): int
    requires power.Some? ==> IsPower(power.value)
  {
    match power
    case None => 0
    case Some(p) =>
      var size: int := Decimal(p.digits);
      if p.sign == [MINUS] then -size else size
  }

  function NumeralValue(n: Numeral): real
    requires IsNumeral(n)
  {
    var size := Decimal(n.whole) as real + Decimal(n.fraction) as real * PowerOfTen(-|n.fraction|);
    (if n.minus then -size else size) * PowerOfTen(PowerValue(n.power))
  }

  lemma {:induction false} PowersJoin(a: int, b: int)
    ensures PowerOfTen(a + b) == PowerOfTen(a) * PowerOfTen(b)
    decreases if b < 0 then -b else b
  {
    hide PowerOfTen;
    if b == 0 {
      UnitPower();
    } else if b > 0 {
      PowersJoin(a, b - 1);
      OnePower(a + b - 1);
      OnePower(b - 1);
      Times(PowerOfTen(a), PowerOfTen(b - 1));
    } else {
      PowersJoin(a, b + 1);
      OnePower(a + b);
      OnePower(b);
      Times(PowerOfTen(a), PowerOfTen(b));
      assert PowerOfTen(a + (b + 1)) == 10.0 * PowerOfTen(a + b);
    }
  }

  lemma UnitPower()
    ensures PowerOfTen(0) == 1.0
  {
  }

  lemma OnePower(a: int)
    ensures PowerOfTen(a + 1) == 10.0 * PowerOfTen(a)
  {
  }

  lemma Times(x: real, y: real)
    ensures 10.0 * (x * y) == x * (10.0 * y)
  {
  }

  lemma {:induction false} DecimalJoins(a: bytes, b: bytes)
    requires AllDigits(a) && AllDigits(b)
    ensures AllDigits(a + b)
    ensures Decimal(a + b) as real == Decimal(a) as real * PowerOfTen(|b|) + Decimal(b) as real
    decreases |b|
  {
    hide IsDigit, Decimal, PowerOfTen;
    DigitsJoin(a, b);
    if b == [] {
      assert a + b == a;
      UnitPower();
      NoDigits();
    } else {
      var k := |b| - 1;
      assert b == b[..k] + [b[k]] && AllDigits(b[..k]);
      assert a + b == (a + b[..k]) + [b[k]];
      DecimalJoins(a, b[..k]);
      LastDigit(a + b[..k], b[k]);
      LastDigit(b[..k], b[k]);
      OnePower(k);
      Times(Decimal(a) as real, PowerOfTen(k));
    }
  }

  lemma NoDigits()
    ensures Decimal([]) == 0
  {
  }

  lemma LastDigit(s: bytes, d: byte)
    requires AllDigits(s) && AllDigits(s + [d])
    ensures Decimal(s + [d]) as real == 10.0 * Decimal(s) as real + (d as int - 48) as real
  {
    var z := s + [d];
    assert z[..|z| - 1] == s && z[|z| - 1] == d;
    assert Decimal(z) == 10 * Decimal(s) + (d as int - 48);
  }

  /** Taking the digits in front of and behind the point as one number, as `strtod` does, is the same. */
  lemma PointShifts(whole: bytes, fraction: bytes, e: int)
    requires AllDigits(whole) && AllDigits(fraction)
    ensures AllDigits(whole + fraction)
    ensures Decimal(whole + fraction) as real * PowerOfTen(e - |fraction|) ==
            (Decimal(whole) as real + Decimal(fraction) as real * PowerOfTen(-|fraction|)) * PowerOfTen(e)
  {
    hide IsDigit, Decimal, PowerOfTen;
    var w, f, up, down, p := Decimal(whole) as real, Decimal(fraction) as real, PowerOfTen(|fraction|),
      PowerOfTen(-|fraction|), PowerOfTen(e);
    DecimalJoins(whole, fraction);
    PowersJoin(-|fraction|, e);
    PowersJoin(|fraction|, -|fraction|);
    UnitPower();
    Spread(w, f, up, down, p);
  }

  lemma Spread(w: real, f: real, up: real, down: real, p: real)
    requires up * down == 1.0
    ensures (w * up + f) * (down * p) == (w + f * down) * p
  {
    assert (w * up + f) * (down * p) == ((w * up + f) * down) * p;
    assert (w * up + f) * down == w * (up * down) + f * down;
  }

  lemma {:induction false} DigitsEndAt(s: bytes, i: nat, k: nat)
    requires i + k <= |s| && (i + k < |s| ==> !IsDigit(s[i + k]))
    requires forall j :: i <= j < i + k ==> IsDigit(s[j])
    ensures DigitsEnd(s, i) == i + k
    decreases k
  {
    if k > 0 { DigitsEndAt(s, i + 1, k - 1); }
  }

  lemma DigitRunAt(s: bytes, i: nat, digits: bytes)
    requires AllDigits(digits) && At(s, i, digits) && i + |digits| <= |s|
    requires i + |digits| < |s| ==> !IsDigit(s[i + |digits|])
    ensures DigitRun(s, i) == digits
  {
    hide At;
    forall j | i <= j < i + |digits| ensures IsDigit(s[j]) { AtIndex(s, i, digits, j - i); }
    DigitsEndAt(s, i, |digits|);
    AtSlice(s, i, digits);
  }

  /** The power at `k`, when it is all that is left. */
  lemma PowerReads(s: bytes, k: nat, power: Option<Power>)
    requires k <= |s| && s[k..] == PowerText(power) && (power.Some? ==> IsPower(power.value))
    ensures Exponent(s, k) == (PowerValue(power), |s|)
  {
    hide Decimal, IsDigit, DigitRun;
    match power
    case None => assert k == |s|;
    case Some(p) =>
      var m := k + 1 + |p.sign|;
      assert s[k] == s[k..][0];
      assert s[m..] == s[k..][1 + |p.sign|..] == p.digits;
      FirstDigit(p.digits);
      assert s[m] == p.digits[0];
      if p.sign != [] { assert s[k + 1] == s[k..][1] == p.sign[0]; }
      AtSlice(s, m, p.digits);
      assert s[m..m + |p.digits|] == s[m..];
      DigitRunAt(s, m, p.digits);
  }

  lemma FirstDigit(digits: bytes)
    requires digits != [] && AllDigits(digits)
    ensures IsDigit(digits[0]) && digits[0] != MINUS && digits[0] != 43
  {
  }

  /** The parts of a numeral and where they stand. */
  lemma NumeralSplit(n: Numeral)
    requires IsNumeral(n)
    ensures var s, i := NumeralText(n), |SignText(n.minus)|;
      var j := i + |n.whole|;
      var k := j + |FractionText(n.fraction)|;
      && k <= |s| && s[i..j] == n.whole && s[j..k] == FractionText(n.fraction) && s[k..] == PowerText(n.power)
      && (s[0] == MINUS <==> n.minus) && s[0] != 43
  {
    hide IsDigit, PowerText, FractionText;
    FirstDigit(n.whole);
  }

  /** A run of digits that something else, or nothing, follows. */
  lemma RunReads(s: bytes, i: nat, digits: bytes, k: nat, power: Option<Power>)
    requires AllDigits(digits) && i <= k <= |s| && s[i..k] == digits
    requires (s[k..] == PowerText(power) && (power.Some? ==> IsPower(power.value))) || (k < |s| && s[k] == 46)
    ensures DigitRun(s, i) == digits
  {
    hide DigitRun;
    assert k < |s| ==> s[k] == s[k..][0];
    AtSlice(s, i, digits);
    DigitRunAt(s, i, digits);
  }

  lemma NumeralRuns(n: Numeral)
    requires IsNumeral(n)
    ensures var s, i := NumeralText(n), |SignText(n.minus)|;
      var j := i + |n.whole|;
      && j <= |s| && DigitRun(s, i) == n.whole && (j < |s| && s[j] == 46 <==> n.fraction != [])
      && (n.fraction != [] ==> DigitRun(s, j + 1) == n.fraction)
  {
    hide IsDigit, DigitRun, NumeralText;
    var s, i := NumeralText(n), |SignText(n.minus)|;
    var j := i + |n.whole|;
    NumeralSplit(n);
    PointOrNot(s, j, n.fraction, n.power);
    RunReads(s, i, n.whole, j, n.power);
  }

  /** From the byte behind the whole digits on. */
  lemma PointOrNot(s: bytes, j: nat, fraction: bytes, power: Option<Power>)
    requires AllDigits(fraction) && (power.Some? ==> IsPower(power.value)) && j + |FractionText(fraction)| <= |s|
    requires s[j..j + |FractionText(fraction)|] == FractionText(fraction)
    requires s[j + |FractionText(fraction)|..] == PowerText(power)
    ensures j < |s| && s[j] == 46 <==> fraction != []
    ensures fraction != [] ==> DigitRun(s, j + 1) == fraction
  {
    hide IsDigit, DigitRun;
    var k := j + |FractionText(fraction)|;
    if fraction != [] {
      assert s[j] == s[j..k][0];
      assert s[j + 1..k] == s[j..k][1..] == fraction;
      RunReads(s, j + 1, fraction, k, power);
    } else if j < |s| {
      assert s[j] == s[j..][0];
    }
  }

  /** What `strtod` computes: all digits as one number, scaled by the power less the digits behind the point. */
  function Scaled(n: Numeral): real
    requires IsNumeral(n)
  {
    DigitsJoin(n.whole, n.fraction);
    var size := Scale(n.whole + n.fraction, PowerValue(n.power) - |n.fraction|);
    if n.minus then -size else size
  }

  lemma ScaledIsValue(n: Numeral)
    requires IsNumeral(n)
    ensures Scaled(n) == NumeralValue(n)
  {
    hide IsDigit, Decimal, PowerOfTen, PowerValue;
    PointShifts(n.whole, n.fraction, PowerValue(n.power));
    var size := Decimal(n.whole) as real + Decimal(n.fraction) as real * PowerOfTen(-|n.fraction|);
    Negated(size, PowerOfTen(PowerValue(n.power)));
  }

  lemma Negated(y: real, z: real)
    ensures -(y * z) == -y * z
  {
  }

  lemma StrToDScales(n: Numeral)
    requires IsNumeral(n)
    ensures StrToD(NumeralText(n)) == Some((Scaled(n), |NumeralText(n)|))
  {
    hide IsDigit, AllDigits, DigitRun, Exponent, PowerText, NumeralText, PowerValue, Scale;
    var s := NumeralText(n);
    NumeralSplit(n);
    NumeralRuns(n);
    DigitsJoin(n.whole, n.fraction);
    var j := |SignText(n.minus)| + |n.whole|;
    PowerReads(s, j + |FractionText(n.fraction)|, n.power);
    assert StrToD(s).value.1 == |s|;
    assert StrToD(s).value.0 == Scaled(n);
  }

  /** Exact `strtod` gives a number its decimal value and takes all of it. */
  lemma StrToDOfNumeral(n: Numeral)
    requires IsNumeral(n)
    ensures StrToD(NumeralText(n)) == Some((NumeralValue(n), |NumeralText(n)|))
  {
    hide StrToD, Scaled, NumeralValue, NumeralText;
    StrToDScales(n);
    ScaledIsValue(n);
  }
}
