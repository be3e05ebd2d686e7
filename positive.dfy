/** The numeric crate's `PositiveDecimal`: an `UnsignedDecimal` that is never 0. */
module Positive {
  import opened Outcome
  import Unsigned
  import Text

  /** Invariant: the underlying value can never be 0. */
  type PositiveDecimal = x: Unsigned.UnsignedDecimal | x != 0 witness 1

  /** `from_raw_value`: the only way to build one, refusing 0. */
  function FromRawValue(value: Unsigned.UnsignedDecimal): (r: Result<PositiveDecimal>)
    ensures r.Ok? <==> value != 0
    ensures r.Ok? ==> r.value == value
    ensures r.Err? ==> r.error == ZeroPositive
  {
    if value != 0 then Ok(value) else Err(ZeroPositive)
  }

  function GetRawValue(p: PositiveDecimal): (value: Unsigned.UnsignedDecimal)
    ensures FromRawValue(value) == Ok(p)
  {
    p
  }

  /** `FromStr`: the unsigned parse followed by the non-zero check. */
  function Parse(s: string): (r: Result<PositiveDecimal>)
    ensures r.Ok? <==> Unsigned.Parse(s).Ok? && Unsigned.Parse(s).value != 0
    ensures r.Ok? ==> r.value == Unsigned.Parse(s).value
  {
    var value :- Unsigned.Parse(s);
    FromRawValue(value)
  }

  /** `Display` delegates to the unsigned rendering as written, so a
      fraction's leading zeros are lost here too. */
  function Format(p: PositiveDecimal): (s: string)
    ensures '.' in s <==> p % Unsigned.Multiplier != 0
  {
    Unsigned.Format(GetRawValue(p))
  }

  /** Rendered text always parses back to a positive value, never a smaller
      one; it is the value itself exactly when the fraction is zero or has no
      leading zero digit. */
  lemma ParseFormat(p: PositiveDecimal)
    ensures Parse(Format(p)).Ok? && Parse(Format(p)).value >= p
    ensures Parse(Format(p)) == Ok(p) <==>
      p % Unsigned.Multiplier == 0 || p % Unsigned.Multiplier >= 100_000
  {
    Unsigned.ParseFormat(p);
  }

  /** `Add`: the `unwrap` never fails, because the sum of two non-zero values
      is not zero, and the result is the raw sum. */
  function Add(a: PositiveDecimal, b: PositiveDecimal): (r: PositiveDecimal)
    ensures r == Unsigned.Add(a, b) && r > a && r > b
  {
    FromRawValue(Unsigned.Add(GetRawValue(a), GetRawValue(b))).Extract()
  }

  /** "5.2" is five and two tenths. */
  lemma ParseExample()
    ensures Parse("5.2") == Ok(5_200_000)
  {
    Unsigned.ParseOneDecimal('5', '2');
    assert "5.2" == ['5', '.', '2'];
  }

  /** Zero is refused, with or without a fraction. */
  lemma ParseRejectsZero()
    ensures Parse("0").Err? && Parse("0.0").Err?
  {
    Unsigned.ParseOneDecimal('0', '0');
    assert "0.0" == ['0', '.', '0'];
    Unsigned.ParseWhole("0");
    assert "0"[..0] == [];
  }

  /** A minus sign is refused. */
  lemma ParseRejectsSign()
    ensures Parse("-0").Err? && Parse("-5.2").Err?
  {
    Unsigned.ParseWhole("-0");
    assert !Text.IsDigit("-0"[0]);
    Unsigned.ParseFractional("-5", "2");
    assert "-5" + "." + "2" == "-5.2";
    assert !Text.IsDigit("-5"[0]);
  }
}
