/** The numeric crate's `SignedDecimal`: a magnitude and a sign flag. */
module Signed {
  import opened Outcome
  import Unsigned

  datatype SignedParts = SignedParts(value: Unsigned.UnsignedDecimal, negative: bool)

  /** Invariant: `negative` is false whenever the magnitude is 0. */
  type SignedDecimal = s: SignedParts | s.value != 0 || !s.negative
    witness SignedParts(0, false)

  /** `from_raw_value`. The source's `assert!` aborts on a negative zero; here
      that abort is the error `NegativeZero`. */
  function FromRawValue(value: Unsigned.UnsignedDecimal, negative: bool): (r: Result<SignedDecimal>)
    ensures r.Err? <==> value == 0 && negative
    ensures r.Ok? ==> ToRawValue(r.value) == value && IsNegative(r.value) == negative
  {
    if value == 0 && negative then Err(NegativeZero) else Ok(SignedParts(value, negative))
  }

  function ToRawValue(s: SignedDecimal): Unsigned.UnsignedDecimal {
    s.value
  }

  function IsNegative(s: SignedDecimal): bool {
    s.negative
  }

  /** No value of the type is a negative zero. */
  lemma NoNegativeZero(s: SignedDecimal)
    ensures ToRawValue(s) == 0 ==> !IsNegative(s)
  {
  }
}
