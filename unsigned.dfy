/** The numeric crate's `UnsignedDecimal`: a non-negative integer scaled by
    10^6, with its hand-written parser and formatter and exact addition. */
module Unsigned {
  import opened Outcome
  import opened Text

  /** The raw value: the decimal number times `Multiplier`. */
  type UnsignedDecimal = nat

  /** Six fractional digits of precision. */
  const Multiplier: nat := 1_000_000

  lemma MultiplierIsPow10()
    ensures Multiplier == Pow10(6)
  {
  }

  /** What `parse_fraction` returns: at most six digits, read as a number and
      right-padded with zeros to six places. */
  function FractionValue(s: string): (r: Result<nat>)
    ensures r.Ok? <==> 1 <= |s| <= 6 && AllDigits(s)
    ensures r.Err? && |s| > 6 ==> r.error == TooManyDecimals
    ensures r.Ok? ==> r.value < Multiplier
  {
    if |s| > 6 then Err(TooManyDecimals)
    else match ParseNat(s)
      case Err(e) => Err(e)
      case Ok(v) =>
        DigitsValueBound(s);
        Pow10Sum(|s|, 6 - |s|);
        MultiplierIsPow10();
        Ok(v * Pow10(6 - |s|))
  }

  lemma {:induction false} Pow10Sum(m: nat, n: nat)
    ensures Pow10(m) * Pow10(n) == Pow10(m + n)
  {
    if n > 0 {
      Pow10Sum(m, n - 1);
    }
  }

  /** `parse_fraction`: the padding loop multiplies by ten once per missing digit. */
  method ParseFraction(s: string) returns (r: Result<nat>)
    ensures r == FractionValue(s)
  {
    if |s| > 6 {
      return Err(TooManyDecimals);
    }
    var parsed := ParseNat(s);
    if parsed.Err? {
      return Err(parsed.error);
    }
    var x := parsed.value;
    for i := |s| to 6
      invariant x == parsed.value * Pow10(i - |s|)
    {
      x := x * 10;
    }
    r := Ok(x);
  }

  /** `FromStr`: an integer part, optionally followed by '.' and one to six
      fractional digits. */
  function Parse(s: string): (r: Result<UnsignedDecimal>)
    ensures r.Ok? ==> s != [] && IsDigit(s[0])
    ensures r.Err? ==> r.error == InvalidDigit || r.error == TooManyDecimals
  {
    match SplitOnce(s, '.')
    case None =>
      var whole :- ParseNat(s);
      Ok(whole * Multiplier)
    case Some((w, f)) =>
      var whole :- ParseNat(w);
      var fraction :- FractionValue(f);
      Ok(whole * Multiplier + fraction)
  }

  /** Text without a '.' parses as the whole number times 10^6. */
  lemma ParseWhole(s: string)
    requires '.' !in s
    ensures Parse(s).Ok? <==> s != [] && AllDigits(s)
    ensures Parse(s).Ok? ==> Parse(s).value == DigitsValue(s) * Multiplier
  {
  }

  /** "w.f" parses to w * 10^6 + f * 10^(6 - |f|) when both parts are digits
      and `f` has one to six of them; it fails otherwise. */
  lemma ParseFractional(w: string, f: string)
    requires '.' !in w
    ensures Parse(w + "." + f).Ok? <==>
      w != [] && AllDigits(w) && 1 <= |f| <= 6 && AllDigits(f)
    ensures Parse(w + "." + f).Ok? ==>
      Parse(w + "." + f).value == DigitsValue(w) * Multiplier + DigitsValue(f) * Pow10(6 - |f|)
  {
    SplitOnceAt(w, '.', f);
  }

  /** The fraction `f` with its trailing zero digits removed, as the loop in
      `Display` leaves it. */
  function StripZeros(f: nat): (r: nat)
    ensures f > 0 ==> r > 0 && r % 10 != 0
    ensures f == 0 ==> r == 0
    ensures r <= f
  {
    if f > 0 && f % 10 == 0 then StripZeros(f / 10) else f
  }

  /** Stripping removes a power of ten and nothing else. */
  lemma {:induction false} StripZerosScale(f: nat) returns (k: nat)
    ensures StripZeros(f) * Pow10(k) == f
  {
    if f > 0 && f % 10 == 0 {
      var j := StripZerosScale(f / 10);
      k := j + 1;
      var g := StripZeros(f);
      assert g == StripZeros(f / 10);
      TimesTen(g, Pow10(j));
      assert f == (f / 10) * 10;
    } else {
      k := 0;
    }
  }

  /** What `Display` writes: the whole part, and, when the fraction is not
      zero, '.' and the fraction with trailing zeros stripped. The stripped
      fraction is written as a plain integer, without zero padding. */
  function Format(x: UnsignedDecimal): (s: string)
    ensures '.' in s <==> x % Multiplier != 0
  {
    var whole := x / Multiplier;
    var fraction := x % Multiplier;
    var w := NatToString(whole);
    if fraction == 0 then
      assert forall i :: 0 <= i < |w| ==> w[i] != '.';
      w
    else
      var s := w + "." + NatToString(StripZeros(fraction));
      assert s[|w|] == '.';
      s
  }

  /** `Display`, with its loop dividing the fraction by ten. */
  method Display(x: UnsignedDecimal) returns (s: string)
    ensures s == Format(x)
  {
    var whole := x / Multiplier;
    var fraction: nat := x % Multiplier;
    if fraction == 0 {
      s := NatToString(whole);
    } else {
      while fraction > 0 && fraction % 10 == 0
        invariant StripZeros(fraction) == StripZeros(x % Multiplier)
      {
        fraction := fraction / 10;
      }
      s := NatToString(whole) + "." + NatToString(fraction);
    }
  }

  /** `Add`: exact addition of the raw values. */
  function Add(x: UnsignedDecimal, y: UnsignedDecimal): (r: UnsignedDecimal)
    ensures r >= x && r >= y && r - y == x
  {
    x + y
  }

  /** The rendering the formatter evidently intends: the fraction written
      with six digits, leading zeros kept, trailing zeros dropped. */
  function FormatPadded(x: UnsignedDecimal): (s: string)
    ensures '.' in s <==> x % Multiplier != 0
  {
    var whole := x / Multiplier;
    var fraction := x % Multiplier;
    var w := NatToString(whole);
    if fraction == 0 then
      assert forall i :: 0 <= i < |w| ==> w[i] != '.';
      w
    else
      var s := w + "." + TrimTrailingZeros(FixedDigits(fraction, 6));
      assert s[|w|] == '.';
      s
  }
  /** A whole amount renders as its digits alone, in either rendering. */
  lemma FormatWhole(n: nat)
    ensures Format(n * Multiplier) == NatToString(n)
    ensures FormatPadded(n * Multiplier) == NatToString(n)
  {
    assert n * Multiplier / Multiplier == n && n * Multiplier % Multiplier == 0;
  }


  /** Parsing inverts the padded rendering for every value. */
  lemma ParseFormatPadded(x: UnsignedDecimal)
    ensures Parse(FormatPadded(x)) == Ok(x)
  {
    var whole := x / Multiplier;
    var fraction := x % Multiplier;
    var w := NatToString(whole);
    ParseNatToString(whole);
    assert '.' !in w by {
      assert forall i :: 0 <= i < |w| ==> w[i] != '.';
    }
    assert x == whole * Multiplier + fraction;
    if fraction != 0 {
      var t := TrimTrailingZeros(FixedDigits(fraction, 6));
      ParsePaddedFraction(fraction);
      assert FormatPadded(x) == w + ['.'] + t;
      SplitOnceAt(w, '.', t);
    }
  }

  /** The six-digit text of a non-zero fraction, trailing zeros dropped,
      reads back as that fraction. */
  lemma ParsePaddedFraction(f: nat)
    requires 0 < f < Multiplier
    ensures FractionValue(TrimTrailingZeros(FixedDigits(f, 6))) == Ok(f)
  {
    var digits := FixedDigits(f, 6);
    var t := TrimTrailingZeros(digits);
    MultiplierIsPow10();
    FixedDigitsValue(f, 6);
    TrimTrailingZerosValue(digits);
    assert DigitsValue(t) * Pow10(6 - |t|) == f;
  }

  /** Where the fraction is zero or has no leading zero digit, the source's
      rendering and the padded one agree. */
  lemma FormatPaddedAgrees(x: UnsignedDecimal)
    requires x % Multiplier == 0 || x % Multiplier >= 100_000
    ensures FormatPadded(x) == Format(x)
  {
    var fraction := x % Multiplier;
    if fraction != 0 {
      MultiplierIsPow10();
      TrimFixedIsStripped(fraction, 6);
    }
  }

  lemma {:induction false} TrimFixedIsStripped(f: nat, d: nat)
    requires 1 <= d && Pow10(d - 1) <= f < Pow10(d)
    ensures TrimTrailingZeros(FixedDigits(f, d)) == NatToString(StripZeros(f))
  {
    if f % 10 == 0 {
      assert d >= 2;
      assert Pow10(d - 2) <= f / 10 < Pow10(d - 1) by {
        assert Pow10(d) == 10 * Pow10(d - 1) && Pow10(d - 1) == 10 * Pow10(d - 2);
      }
      var s := FixedDigits(f, d);
      var prefix := FixedDigits(f / 10, d - 1);
      assert TrimTrailingZeros(s) == TrimTrailingZeros(prefix) by {
        assert s == prefix + [DigitChar(0)];
        assert s[..|s| - 1] == prefix;
      }
      assert StripZeros(f) == StripZeros(f / 10);
      TrimFixedIsStripped(f / 10, d - 1);
    } else {
      FixedDigitsIsNatToString(f, d);
    }
  }

  /** Parsing the source's rendering of a value with a non-zero fraction
      gives the whole part and the stripped fraction right-padded to six places. */
  lemma ParseFormatFraction(x: UnsignedDecimal)
    requires x % Multiplier != 0
    ensures var t := NatToString(StripZeros(x % Multiplier));
      FractionValue(t).Ok? && Parse(Format(x)) == Ok(x / Multiplier * Multiplier + FractionValue(t).value)
  {
    var whole := x / Multiplier;
    var w := NatToString(whole);
    var g := StripZeros(x % Multiplier);
    var t := NatToString(g);
    ParseNatToString(whole);
    ParseNatToString(g);
    assert '.' !in w by {
      assert forall i :: 0 <= i < |w| ==> w[i] != '.';
    }
    SplitOnceAt(w, '.', t);
    assert g < Multiplier;
    MultiplierIsPow10();
    NatToStringShort(g, 6);
  }

  /** A fraction below 10^5 has a leading zero digit; padding its stripped
      digits to six places multiplies by at least ten times what was stripped. */
  lemma PaddedFractionExceeds(f: nat)
    requires 0 < f < 100_000
    ensures var t := NatToString(StripZeros(f)); FractionValue(t).Ok? && FractionValue(t).value > f
  {
    var g := StripZeros(f);
    var t := NatToString(g);
    var k := StripZerosScale(f);
    assert g * Pow10(k) < Pow10(5);
    ScaledBelowPow10(g, k, 5);
    NatToStringShort(g, 5 - k);
    var p := 6 - |t|;
    NatToStringValue(g);
    Pow10Sum(k, p - k);
    Pow10Grows(1, p - k);
    PositiveProductGrows(g, Pow10(k), Pow10(p - k));
    assert FractionValue(t).value == g * Pow10(p);
  }

  /** If g * 10^k is below 10^n (g positive), then k < n and g < 10^(n - k). */
  lemma ScaledBelowPow10(g: nat, k: nat, n: nat)
    requires g > 0 && g * Pow10(k) < Pow10(n)
    ensures k < n && g < Pow10(n - k)
  {
    assert Pow10(k) <= g * Pow10(k);
    if n <= k {
      Pow10Grows(n, k);
    }
    Pow10Sum(n - k, k);
    LessAfterScaling(g, Pow10(n - k), Pow10(k));
  }

  /** Arithmetic helper for ScaledBelowPow10: cancelling a positive factor. */
  lemma LessAfterScaling(g: nat, b: nat, a: nat)
    requires a > 0 && g * a < b * a
    ensures g < b
  {
  }

  /** Arithmetic helper for PaddedFractionExceeds: a factor of ten or more grows a product. */
  lemma PositiveProductGrows(g: nat, a: nat, b: nat)
    requires g > 0 && a > 0 && b >= 10
    ensures g * (a * b) > g * a
  {
  }

  /** The source's round trip holds exactly when the fraction is zero or has
      no leading zero digit; otherwise parsing gives a larger value, because
      the fraction's leading zeros were not written. */
  lemma ParseFormat(x: UnsignedDecimal)
    ensures Parse(Format(x)).Ok?
    ensures Parse(Format(x)).value == x <==> x % Multiplier == 0 || x % Multiplier >= 100_000
    ensures Parse(Format(x)).value >= x
  {
    var fraction := x % Multiplier;
    if fraction == 0 || fraction >= 100_000 {
      FormatPaddedAgrees(x);
      ParseFormatPadded(x);
    } else {
      ParseFormatFraction(x);
      PaddedFractionExceeds(fraction);
    }
  }

  /** "5.05" is five and five hundredths. */
  lemma ParseLeadingZeroFraction()
    ensures Parse("5.05") == Ok(5_050_000)
  {
    ParseFractional("5", "05");
    assert "5" + "." + "05" == "5.05";
    assert "05"[..1] == "0" && "0"[..0] == [] && "5"[..0] == [];
    assert Pow10(4) == 10_000;
  }

  /** The source's formatter writes 5.05 as "5.5", which parses back as 5.5. */
  lemma FormatDropsLeadingZero()
    ensures Format(5_050_000) == "5.5"
    ensures Parse(Format(5_050_000)) == Ok(5_500_000)
  {
    assert StripZeros(50_000) == 5 by {
      assert StripZeros(50_000) == StripZeros(5_000);
    }
    assert NatToString(5) == "5";
    assert Format(5_050_000) == "5.5";
    ParseOneDecimal('5', '5');
    assert "5.5" == ['5', '.', '5'];
  }

  /** A digit, '.', and one fractional digit: "d.e" parses to d.e exactly. */
  lemma ParseOneDecimal(d: char, e: char)
    requires IsDigit(d) && IsDigit(e)
    ensures Parse([d, '.', e]) == Ok(DigitValue(d) * Multiplier + DigitValue(e) * 100_000)
  {
    ParseFractional([d], [e]);
    assert [d] + "." + [e] == [d, '.', e];
    assert [d][..0] == [] && [e][..0] == [];
    assert Pow10(5) == 100_000;
  }

  /** "2.2" and "3.5" parse to two point two and three point five. */
  lemma ParseAddends()
    ensures Parse("2.2") == Ok(2_200_000) && Parse("3.5") == Ok(3_500_000)
  {
    ParseOneDecimal('2', '2');
    assert "2.2" == ['2', '.', '2'];
    ParseOneDecimal('3', '5');
    assert "3.5" == ['3', '.', '5'];
  }

  /** Their sum renders as "5.7", which parses back to the sum. */
  lemma AddExample()
    ensures Format(Add(2_200_000, 3_500_000)) == "5.7"
    ensures Parse(Format(Add(2_200_000, 3_500_000))) == Ok(5_700_000)
  {
    assert Format(5_700_000) == "5.7" by {
      assert StripZeros(700_000) == 7;
      assert NatToString(7) == "7" && NatToString(5) == "5";
    }
    ParseOneDecimal('5', '7');
    assert "5.7" == ['5', '.', '7'];
  }

  /** Whole numbers render without a decimal point: "5" and "0". */
  lemma WholeNumberExamples()
    ensures Parse("5") == Ok(5_000_000) && Format(5_000_000) == "5"
    ensures Parse("0") == Ok(0) && Format(0) == "0"
  {
    ParseWhole("5");
    assert "5"[..0] == [];
    ParseWhole("0");
    assert "0"[..0] == [];
  }

  /** "5." has an empty fraction and fails. */
  lemma ParseRejectsEmptyFraction()
    ensures Parse("5.").Err?
  {
    ParseFractional("5", "");
    assert "5" + "." + "" == "5.";
  }

  /** "5.1234567" has seven fractional digits and fails. */
  lemma ParseRejectsSevenDecimals()
    ensures Parse("5.1234567") == Err(TooManyDecimals)
  {
    SplitOnceAt("5", '.', "1234567");
    assert "5" + ['.'] + "1234567" == "5.1234567";
  }

  /** `parse_fraction` keeps "123456", pads "12345" and "0" to six places,
      and refuses "1234567", "12345678" and the empty fraction. */
  lemma FractionValueExamples()
    ensures FractionValue("0") == Ok(0) && FractionValue("123456") == Ok(123_456)
    ensures FractionValue("12345") == Ok(123_450)
    ensures FractionValue("1234567") == Err(TooManyDecimals)
    ensures FractionValue("12345678") == Err(TooManyDecimals)
    ensures FractionValue("").Err?
  {
    assert DigitsValue("1") == 1 by {
      assert "1"[..0] == [];
    }
    assert DigitsValue("12") == 12 by {
      assert "12"[..1] == "1";
    }
    assert DigitsValue("123") == 123 by {
      assert "123"[..2] == "12";
    }
    assert DigitsValue("1234") == 1_234 by {
      assert "1234"[..3] == "123";
    }
    assert DigitsValue("12345") == 12_345 by {
      assert "12345"[..4] == "1234";
    }
    assert DigitsValue("123456") == 123_456 by {
      assert "123456"[..5] == "12345";
    }
    assert DigitsValue("0") == 0 by {
      assert "0"[..0] == [];
    }
    assert Pow10(1) == 10 && Pow10(5) == 100_000;
  }

  /** "5.6" and "5.0" parse. */
  lemma ParseOneDecimalExamples()
    ensures Parse("5.6") == Ok(5_600_000) && Parse("5.0") == Ok(5_000_000)
  {
    ParseOneDecimal('5', '6');
    assert "5.6" == ['5', '.', '6'];
    ParseOneDecimal('5', '0');
    assert "5.0" == ['5', '.', '0'];
  }
}
