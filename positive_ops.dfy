/** The common crate's `PositiveDecimal` operations: the smart constructor,
    the conversion to unsigned, checked subtraction, in-place addition,
    division and the conversion from unsigned. */
module PositiveOps {
  import opened Outcome
  import opened Unsigned
  import opened Positive
  import UnsignedOps

  /** `new`: refuses zero and negative values. */
  function New(d: UnsignedOps.Decimal): (r: Result<PositiveDecimal>)
    ensures r.Ok? <==> d > 0
    ensures r.Ok? ==> r.value == d
    ensures r.Err? ==> r.error == ZeroPositive
  {
    if d <= 0 then Err(ZeroPositive) else Ok(d)
  }

  /** `into_unsigned`: the `expect` never fires and the value is kept. */
  function IntoUnsigned(p: PositiveDecimal): (u: UnsignedDecimal)
    ensures u == p && New(u) == Ok(p)
  {
    UnsignedOps.New(p).Extract()
  }

  /** `checked_sub` as the source writes it: the guard is `self >= rhs`, so
      equal operands give 0, which a `PositiveDecimal` must never hold. The
      result is therefore typed as a possibly-zero raw value. */
  function CheckedSubAsWritten(a: PositiveDecimal, b: PositiveDecimal): (r: Result<UnsignedDecimal>)
    ensures r.Ok? <==> b <= a
    ensures r.Ok? ==> Unsigned.Add(r.value, b) == a
  {
    if a >= b then Ok(a - b) else Err(Underflow)
  }

  /** Subtracting a value from itself passes the guard and yields 0. */
  lemma CheckedSubEqualIsZero(p: PositiveDecimal)
    ensures CheckedSubAsWritten(p, p) == Ok(0)
  {
  }

  /** `checked_sub` with the guard the type's invariant needs: it fails
      unless the result is strictly positive. */
  function CheckedSub(a: PositiveDecimal, b: PositiveDecimal): (r: Result<PositiveDecimal>)
    ensures r.Ok? <==> b < a
    ensures r.Ok? ==> Unsigned.Add(r.value, b) == a
    ensures r.Err? ==> r.error == Underflow
  {
    if a > b then Ok(a - b) else Err(Underflow)
  }

  /** The two versions differ only on equal operands. */
  lemma CheckedSubAgrees(a: PositiveDecimal, b: PositiveDecimal)
    ensures a != b ==> (CheckedSub(a, b).Ok? <==> CheckedSubAsWritten(a, b).Ok?)
    ensures CheckedSub(a, b).Ok? ==> CheckedSubAsWritten(a, b) == Ok(CheckedSub(a, b).value)
  {
  }

  /** `AddAssign`: the sum of two positives stays positive. */
  method AddAssign(self: PositiveDecimal, rhs: PositiveDecimal) returns (updated: PositiveDecimal)
    ensures updated == Positive.Add(self, rhs)
  {
    updated := self + rhs;
  }

  /** `Div`: never negative, though it may round down to 0. */
  function Div(a: PositiveDecimal, b: PositiveDecimal): (r: UnsignedDecimal)
    ensures r * b <= a * Multiplier < (r + 1) * b
  {
    UnsignedOps.New(UnsignedOps.Div(a, b)).Extract()
  }

  /** A tiny numerator over a large denominator rounds down to 0. */
  lemma DivCanBeZero()
    ensures Div(1, 2_000_000) == 0
  {
  }

  /** `TryFrom<UnsignedDecimal>`: fails exactly on zero. */
  function TryFromUnsigned(u: UnsignedDecimal): (r: Result<PositiveDecimal>)
    ensures r.Ok? <==> u != 0
    ensures r.Ok? ==> r.value == u
  {
    New(UnsignedOps.IntoDecimal(u))
  }
}
