/** The common crate's `UnsignedDecimal` operations: the smart constructor
    from a signed decimal, zero, the conversions, in-place addition and
    checked subtraction, and the scaled multiplication and division the
    ledger uses on these values. */
module UnsignedOps {
  import opened Outcome
  import opened Unsigned

  /** A signed decimal (the source's `rust_decimal::Decimal`), as a raw value
      scaled by 10^6 like every decimal in this model. */
  type Decimal = int

  /** `new`: refuses negative values, accepts zero and positive ones. */
  function New(d: Decimal): (r: Result<UnsignedDecimal>)
    ensures r.Ok? <==> d >= 0
    ensures r.Ok? ==> r.value == d
    ensures r.Err? ==> r.error == NegativeUnsigned
  {
    if d < 0 then Err(NegativeUnsigned) else Ok(d)
  }

  /** `is_zero`: holds of zero alone, the value adding which changes nothing. */
  function IsZero(x: UnsignedDecimal): (b: bool)
    ensures b <==> x == 0
    ensures b ==> forall y :: Unsigned.Add(x, y) == y
  {
    x == 0
  }

  /** `zero`. */
  function Zero(): (z: UnsignedDecimal)
    ensures IsZero(z)
  {
    0
  }

  /** `From<UnsignedDecimal> for Decimal`. */
  function IntoDecimal(x: UnsignedDecimal): (d: Decimal)
    ensures New(d) == Ok(x)
  {
    x
  }

  /** `TryFrom<Decimal>`: exactly `new`. */
  function TryFrom(d: Decimal): (r: Result<UnsignedDecimal>)
    ensures r == New(d)
  {
    New(d)
  }

  /** Converting a decimal in and back out gives it back. */
  lemma TryFromRoundTrip(d: Decimal)
    requires TryFrom(d).Ok?
    ensures IntoDecimal(TryFrom(d).value) == d
  {
  }

  /** `AddAssign`: `self` becomes `self + rhs`. The value is passed in and the
      updated value handed back, since Dafny has no `&mut` on values. */
  method AddAssign(self: UnsignedDecimal, rhs: UnsignedDecimal) returns (updated: UnsignedDecimal)
    ensures updated == Add(self, rhs)
    ensures updated >= self && updated >= rhs
  {
    updated := self + rhs;
  }

  /** `checked_sub_assign`: fails, leaving `self` unchanged, when `rhs`
      exceeds it; otherwise `self` becomes the difference, which undoes an
      `AddAssign` of `rhs`. */
  method CheckedSubAssign(self: UnsignedDecimal, rhs: UnsignedDecimal)
    returns (result: Result<()>, updated: UnsignedDecimal)
    ensures result.Ok? <==> rhs <= self
    ensures result.Err? ==> result.error == Underflow && updated == self
    ensures result.Ok? ==> Add(updated, rhs) == self
  {
    if self < rhs {
      return Err(Underflow), self;
    }
    result, updated := Ok(()), self - rhs;
  }

  /** Multiplication of two decimals, rounded down to six fractional digits.
      No file of the source defines it (the ledger uses it); it is assumed to
      be the scaled-integer product `(a * b) / 10^6`. */
  function Mul(a: UnsignedDecimal, b: UnsignedDecimal): (r: UnsignedDecimal)
    ensures r * Multiplier <= a * b < (r + 1) * Multiplier
  {
    a * b / Multiplier
  }

  /** Division of two decimals, rounded down to six fractional digits.
      Assumed like `Mul`: `(a * 10^6) / b`. Dividing by zero aborts in the
      source, so callers must pass a non-zero divisor. */
  function Div(a: UnsignedDecimal, b: UnsignedDecimal): (r: UnsignedDecimal)
    requires b != 0
    ensures r * b <= a * Multiplier < (r + 1) * b
  {
    a * Multiplier / b
  }

  /** "5" * "0.5" is "2.5" and "5" / "2" is "2.5". */
  lemma MulDivExamples()
    ensures Mul(5_000_000, 500_000) == 2_500_000
    ensures Div(5_000_000, 2_000_000) == 2_500_000
  {
  }
}
