/** The two numeric fields of a transaction line: the 32-bit integer Id and the decimal Amount,
    with the text form each is written in and the grammar each is read back with.
    Text is read with one fixed grammar: an optional '-', then digits, and for an amount
    optionally a '.' followed by digits. */
module Numbers {
  import opened Wrappers
  import opened Text

  /** .NET's `int`. */
  newtype int32 = x: int | -0x8000_0000 <= x < 0x8000_0000

  /** Why a field did not parse: text outside the grammar (FormatException), or a value
      outside the type's range (OverflowException, which is not a FormatException). */
  datatype ParseError = FormatError | OverflowError

  /** .NET's `decimal`: a signed integer mantissa and a count of fraction digits, so that
      100.50 is Decimal(10050, 2) and keeps its trailing zero when written out. */
  datatype Decimal = Decimal(mantissa: int, scale: nat)

  /** The number a decimal stands for; amounts are compared by this value, so 1.5 and 1.50 are equal. */
  function Value(d: Decimal): real
  {
    d.mantissa as real / Pow10(d.scale) as real
  }

  function Abs(n: int): nat { if n < 0 then -n else n }

  /** Text made only of digits, minus signs and decimal points. */
  predicate IsNumeral(s: string)
  {
    forall i :: 0 <= i < |s| ==> IsDigit(s[i]) || s[i] == '-' || s[i] == '.'
  }

  lemma NumeralConcat(a: string, b: string)
    requires IsNumeral(a) && IsNumeral(b)
    ensures IsNumeral(a + b)
  {
    forall i | 0 <= i < |a + b| ensures IsDigit((a + b)[i]) || (a + b)[i] == '-' || (a + b)[i] == '.' {
      if i < |a| { assert (a + b)[i] == a[i]; } else { assert (a + b)[i] == b[i - |a|]; }
    }
  }

  // ---------------------------------------------------------------------------
  // Integers
  // ---------------------------------------------------------------------------

  /** An integer as text: a '-' for negative values, then the shortest digit string. */
  function FormatInt(n: int): (s: string)
    ensures |s| >= 1 && IsNumeral(s) && '.' !in s
    ensures (s[0] == '-' || IsDigit(s[0])) && AllDigits(s[1..])
    ensures IsDigit(s[0]) <==> n >= 0
  {
    var digits := NatToDigits(Abs(n));
    NotIn(digits, '.');
    NumeralConcat("-", digits);
    if n < 0 then "-" + digits else digits
  }

  /** The integer grammar: an optional '-', then at least one digit. */
  predicate IsIntNumeral(s: string)
  {
    (|s| >= 1 && AllDigits(s)) || (|s| >= 2 && s[0] == '-' && AllDigits(s[1..]))
  }

  /** The number an integer numeral denotes; leading zeros and "-0" are allowed. */
  function NumeralValue(s: string): int
    requires IsIntNumeral(s)
  {
    if s[0] == '-' then -(DigitsToNat(s[1..]) as int) else DigitsToNat(s) as int
  }

  /** `int.Parse`: the grammar "-"? digits+, then the range check of a 32-bit integer. */
  function ParseInt32(s: string): (r: Result<int32, ParseError>)
    ensures r.Success? ==> |s| >= 1 && ((AllDigits(s) && r.value >= 0) || (s[0] == '-' && AllDigits(s[1..]) && r.value <= 0))
    ensures s == [] || s == "-" ==> r == Failure(FormatError)
    ensures r != Failure(FormatError) <==> IsIntNumeral(s)
    ensures IsIntNumeral(s) ==> (r.Success? <==> -0x8000_0000 <= NumeralValue(s) < 0x8000_0000)
    ensures r.Success? ==> r.value as int == NumeralValue(s)
  {
    if s == [] then Failure(FormatError)
    else
      var negative := s[0] == '-';
      var digits := if negative then s[1..] else s;
      if digits == [] || !AllDigits(digits) then Failure(FormatError)
      else
        var v := if negative then -(DigitsToNat(digits) as int) else DigitsToNat(digits) as int;
        if -0x8000_0000 <= v < 0x8000_0000 then Success(v as int32) else Failure(OverflowError)
  }

  /** Every Id reads back as itself. */
  lemma IntRoundTrip(n: int32)
    ensures ParseInt32(FormatInt(n as int)) == Success(n)
  {
    var s := FormatInt(n as int);
    if n < 0 {
      assert s[1..] == NatToDigits(-(n as int));
    }
  }

  /** A digit string whose value is outside the 32-bit range is an overflow, not a format error. */
  lemma OutOfRangeId(n: nat)
    requires n >= 0x8000_0000
    ensures ParseInt32(NatToDigits(n)) == Failure(OverflowError)
  {
  }

  // ---------------------------------------------------------------------------
  // Decimals
  // ---------------------------------------------------------------------------

  /** The digits after the point: the low `scale` digits of the magnitude, zero-padded. */
  function FractionDigits(d: Decimal): (s: string)
    requires d.scale > 0
    ensures |s| == d.scale && AllDigits(s)
    ensures DigitsToNat(s) == Abs(d.mantissa) % Pow10(d.scale)
  {
    PadDigitsShape(Abs(d.mantissa) % Pow10(d.scale), d.scale);
    PadDigits(Abs(d.mantissa) % Pow10(d.scale), d.scale)
  }

  /** The digits before the point: the magnitude with the fraction digits dropped. */
  function WholeDigits(d: Decimal): (s: string)
    ensures |s| >= 1 && AllDigits(s)
  {
    DivIsNat(Abs(d.mantissa), Pow10(d.scale));
    NatToDigits(Abs(d.mantissa) / Pow10(d.scale))
  }

  lemma DivIsNat(a: nat, p: nat)
    requires p >= 1
    ensures a / p >= 0
  {
  }

  /** The magnitude as text: integer part, then a point and the fraction when the scale is positive. */
  function Magnitude(d: Decimal): (s: string)
  {
    if d.scale == 0 then WholeDigits(d) else WholeDigits(d) + "." + FractionDigits(d)
  }

  /** A decimal as text, with '.' as the decimal point: a '-' when negative, the integer part,
      and when the scale is positive a point followed by exactly `scale` digits. */
  function FormatDecimal(d: Decimal): (s: string)
    ensures |s| >= 1 && IsNumeral(s)
    ensures IsDigit(s[0]) <==> d.mantissa >= 0
  {
    var m := Magnitude(d);
    MagnitudeShape(d);
    NumeralConcat("-", m);
    if d.mantissa < 0 then "-" + m else m
  }

  lemma MagnitudeShape(d: Decimal)
    ensures |Magnitude(d)| >= 1 && IsDigit(Magnitude(d)[0]) && IsNumeral(Magnitude(d))
  {
    if d.scale > 0 {
      NumeralConcat(WholeDigits(d), ".");
      NumeralConcat(WholeDigits(d) + ".", FractionDigits(d));
    }
  }

  /** Where the point goes in the Amount's text: nowhere for scale 0, and otherwise once, with
      exactly `scale` digits after it, so 100.50 keeps its trailing zero. */
  lemma FormatDecimalLayout(d: Decimal)
    ensures var s := FormatDecimal(d);
      d.scale == 0 ==> '.' !in s
    ensures var s := FormatDecimal(d);
      d.scale > 0 ==>
        && |s| >= d.scale + 2 && s[|s| - d.scale - 1] == '.'
        && '.' !in s[..|s| - d.scale - 1] && AllDigits(s[|s| - d.scale..])
  {
    var whole, m := WholeDigits(d), Magnitude(d);
    var sign: string := if d.mantissa < 0 then "-" else "";
    SignedMagnitude(d);
    NotIn(whole, '.');
    assert '.' !in sign + whole;
    if d.scale == 0 {
      assert m == whole;
    } else {
      var fraction := FractionDigits(d);
      assert m == whole + "." + fraction;
      assert sign + m == (sign + whole) + "." + fraction;
      PointLayout(sign + whole, fraction);
    }
  }

  lemma SignedMagnitude(d: Decimal)
    ensures FormatDecimal(d) == (if d.mantissa < 0 then "-" else "") + Magnitude(d)
  {
  }

  lemma PointLayout(front: string, fraction: string)
    requires '.' !in front && |fraction| >= 1
    ensures var s := front + "." + fraction;
      && |s| >= |fraction| + 1 && s[|s| - |fraction| - 1] == '.'
      && s[..|s| - |fraction| - 1] == front && s[|s| - |fraction|..] == fraction
  {
  }

  /** A digit string holds no non-digit character. */
  lemma NotIn(s: string, c: char)
    requires AllDigits(s) && !IsDigit(c)
    ensures c !in s
  {
    forall i | 0 <= i < |s| ensures s[i] != c { assert IsDigit(s[i]); }
  }

  /** The unsigned part of the amount grammar: digits+ ("." digits+)?. */
  function ParseMagnitude(body: string): (r: Result<Decimal, ParseError>)
    ensures r.Success? ==> r.value.mantissa >= 0
    ensures r.Failure? ==> r.error == FormatError
  {
    var parts := Split(body, '.');
    if |parts| == 1 && parts[0] != [] && AllDigits(parts[0]) then
      Success(Decimal(DigitsToNat(parts[0]), 0))
    else if |parts| == 2 && parts[0] != [] && parts[1] != [] && AllDigits(parts[0]) && AllDigits(parts[1]) then
      AllDigitsConcat(parts[0], parts[1]);
      Success(Decimal(DigitsToNat(parts[0] + parts[1]), |parts[1]|))
    else Failure(FormatError)
  }

  /** `decimal.Parse`: an optional '-', then the magnitude. The mantissa is all the digits read
      as one number and the scale is the number of digits after the point. */
  function ParseDecimal(s: string): (r: Result<Decimal, ParseError>)
    ensures r.Failure? ==> r.error == FormatError
    ensures r.Success? && r.value.mantissa < 0 ==> |s| >= 1 && s[0] == '-'
  {
    if s == [] then Failure(FormatError)
    else if s[0] == '-' then
      match ParseMagnitude(s[1..])
      case Success(d) => Success(Decimal(-d.mantissa, d.scale))
      case Failure(e) => Failure(e)
    else ParseMagnitude(s)
  }

  /** A '-' in front of an accepted magnitude negates its mantissa and keeps its scale. */
  lemma ParseNegated(body: string, d: Decimal)
    requires ParseMagnitude(body) == Success(d)
    ensures ParseDecimal("-" + body) == Success(Decimal(-d.mantissa, d.scale))
  {
    assert ("-" + body)[0] == '-' && ("-" + body)[1..] == body;
  }

  /** Text that starts with a digit is read as a magnitude alone. */
  lemma ParseUnsigned(body: string)
    requires body != [] && IsDigit(body[0])
    ensures ParseDecimal(body) == ParseMagnitude(body)
  {
  }

  /** A whole number: digits+ reads as their value with scale 0. */
  lemma MagnitudeWhole(a: string)
    requires a != [] && AllDigits(a)
    ensures ParseMagnitude(a) == Success(Decimal(DigitsToNat(a), 0))
  {
    NotIn(a, '.');
    SplitWithoutSeparator(a, '.');
  }

  /** A number with a point: digits+ "." digits+ reads as all its digits, scaled by the fraction's length. */
  lemma MagnitudePointed(a: string, b: string)
    requires a != [] && b != [] && AllDigits(a) && AllDigits(b)
    ensures ParseMagnitude(a + "." + b) == Success(Decimal(DigitsToNat(a + b), |b|))
  {
    NotIn(a, '.');
    NotIn(b, '.');
    assert a + "." + b == a + ['.'] + b;
    SplitPair(a, b, '.');
  }

  /** `decimal.Parse` accepts every digit string, with scale 0: "007" is 7. With a '-' in front,
      ParseNegated gives the negated value, so "-0" is 0. */
  lemma ParseDecimalWhole(a: string)
    requires a != [] && AllDigits(a)
    ensures ParseDecimal(a) == Success(Decimal(DigitsToNat(a), 0))
  {
    MagnitudeWhole(a);
    ParseUnsigned(a);
  }

  /** `decimal.Parse` accepts digits, a point and digits: the mantissa is all the digits read
      as one number and the scale is the number of digits after the point. */
  lemma ParseDecimalPointed(a: string, b: string)
    requires a != [] && b != [] && AllDigits(a) && AllDigits(b)
    ensures ParseDecimal(a + "." + b) == Success(Decimal(DigitsToNat(a + b), |b|))
  {
    MagnitudePointed(a, b);
    assert (a + "." + b)[0] == a[0];
    ParseUnsigned(a + "." + b);
  }

  /** The unsigned amount grammar, digits+ ("." digits+)?, written out on characters. */
  predicate IsMagnitudeNumeral(b: string)
  {
    || (b != [] && AllDigits(b))
    || (exists i | 0 < i < |b| - 1 :: b[i] == '.' && AllDigits(b[..i]) && AllDigits(b[i + 1..]))
  }

  /** The amount grammar: an optional '-', then the unsigned grammar. */
  predicate IsDecimalNumeral(s: string)
  {
    IsMagnitudeNumeral(s) || (|s| >= 1 && s[0] == '-' && IsMagnitudeNumeral(s[1..]))
  }

  /** A magnitude is read exactly when it follows the unsigned grammar. */
  lemma MagnitudeGrammar(b: string)
    ensures ParseMagnitude(b).Success? <==> IsMagnitudeNumeral(b)
  {
    if ParseMagnitude(b).Success? {
      MagnitudeReadsGrammar(b);
    }
    if IsMagnitudeNumeral(b) {
      GrammarReadsMagnitude(b);
    }
  }

  /** Every text the unsigned grammar describes is read. */
  lemma GrammarReadsMagnitude(b: string)
    requires IsMagnitudeNumeral(b)
    ensures ParseMagnitude(b).Success?
  {
    if b != [] && AllDigits(b) {
      MagnitudeWhole(b);
    } else {
      var i :| 0 < i < |b| - 1 && b[i] == '.' && AllDigits(b[..i]) && AllDigits(b[i + 1..]);
      assert b == b[..i] + "." + b[i + 1..];
      MagnitudePointed(b[..i], b[i + 1..]);
    }
  }

  /** Only text the unsigned grammar describes is read. */
  lemma MagnitudeReadsGrammar(b: string)
    requires ParseMagnitude(b).Success?
    ensures IsMagnitudeNumeral(b)
  {
    var parts := Split(b, '.');
    JoinSplit(b, '.');
    if |parts| == 2 {
      assert Join(parts[1..], '.') == parts[1];
      PointedIsNumeral(b, parts[0], parts[1]);
    }
  }

  /** Digits, a point and digits follow the unsigned grammar, the point being the witness. */
  lemma PointedIsNumeral(b: string, x: string, y: string)
    requires b == x + ['.'] + y && x != [] && y != [] && AllDigits(x) && AllDigits(y)
    ensures IsMagnitudeNumeral(b)
  {
    var i := |x|;
    assert b[i] == '.' && b[..i] == x && b[i + 1..] == y;
  }

  /** Text the unsigned grammar accepts starts with a digit, never with a '-'. */
  lemma MagnitudeStartsWithDigit(b: string)
    requires IsMagnitudeNumeral(b)
    ensures IsDigit(b[0])
  {
    if !(b != [] && AllDigits(b)) {
      var i :| 0 < i < |b| - 1 && b[i] == '.' && AllDigits(b[..i]) && AllDigits(b[i + 1..]);
      assert b[..i][0] == b[0];
    }
  }

  /** `decimal.Parse` succeeds exactly on the amount grammar: any other text is a format error. */
  lemma ParseDecimalGrammar(s: string)
    ensures ParseDecimal(s).Success? <==> IsDecimalNumeral(s)
    ensures !IsDecimalNumeral(s) ==> ParseDecimal(s) == Failure(FormatError)
  {
    if s != [] {
      if s[0] == '-' {
        MagnitudeGrammar(s[1..]);
        if IsMagnitudeNumeral(s) {
          MagnitudeStartsWithDigit(s);
        }
      } else {
        MagnitudeGrammar(s);
      }
    }
  }

  /** A point needs digits on both sides, and at most one point is allowed. */
  lemma PointRejections()
    ensures ParseDecimal(".5") == Failure(FormatError)
    ensures ParseDecimal("5.") == Failure(FormatError)
    ensures ParseDecimal("1.2.3") == Failure(FormatError)
  {
    assert ".5" == [] + ['.'] + "5";
    SplitPair([], "5", '.');
    assert "5." == "5" + ['.'] + [];
    SplitPair("5", [], '.');
    assert Count("1.2.3", '.') == 2;
  }

  /** Only one leading '-' is a sign: a doubled sign, a '+' and white space are format errors. */
  lemma SignRejections()
    ensures ParseDecimal("--1") == Failure(FormatError)
    ensures ParseDecimal("+1") == Failure(FormatError)
    ensures ParseDecimal(" 1") == Failure(FormatError)
  {
    assert "--1"[1..] == "-1";
    SplitWithoutSeparator("-1", '.');
    SplitWithoutSeparator("+1", '.');
    SplitWithoutSeparator(" 1", '.');
  }

  lemma DivModRecombine(a: nat, p: nat)
    requires p >= 1
    ensures (a / p) * p + a % p == a
  {
  }

  /** The magnitude text reads back as the absolute value with the same scale. */
  lemma MagnitudeRoundTrip(d: Decimal)
    ensures ParseMagnitude(Magnitude(d)) == Success(Decimal(Abs(d.mantissa), d.scale))
  {
    var a, p := Abs(d.mantissa), Pow10(d.scale);
    var whole := WholeDigits(d);
    NotIn(whole, '.');
    if d.scale == 0 {
      SplitWithoutSeparator(whole, '.');
      assert a / p == a;
    } else {
      var fraction := FractionDigits(d);
      NotIn(fraction, '.');
      assert Magnitude(d) == whole + ['.'] + fraction;
      SplitPair(whole, fraction, '.');
      DigitsConcat(whole, fraction);
      DivModRecombine(a, p);
    }
  }

  /** Every amount reads back as itself, scale included. */
  lemma DecimalRoundTrip(d: Decimal)
    ensures ParseDecimal(FormatDecimal(d)) == Success(d)
  {
    var m := Magnitude(d);
    MagnitudeRoundTrip(d);
    if d.mantissa < 0 {
      assert FormatDecimal(d)[1..] == m;
    } else {
      assert IsDigit(FormatDecimal(d)[0]);
    }
  }
}
