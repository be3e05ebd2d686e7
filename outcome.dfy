/** Error kinds and the `Result` type the model uses in place of the source's
    `anyhow::Result`. Each error kind names the check in the source that raises it. */
module Outcome {

  datatype Error =
    | InvalidDigit      // Rust's integer parser: empty text or a character that is not a digit
    | TooManyDecimals   // parse_fraction: more than 6 fractional digits
    | ZeroPositive      // a PositiveDecimal would hold 0 (or, in the common crate, a non-positive value)
    | NegativeUnsigned  // UnsignedDecimal::new given a negative value
    | NegativeZero      // SignedDecimal::from_raw_value given magnitude 0 with the negative flag
    | Underflow         // a checked subtraction whose subtrahend exceeds the minuend
    | NoAssetType       // split_amount_asset found no asset symbol
    | AssetMismatch     // the symbol after an amount is not the expected one
    | NoSlash           // a price's asset pair has no '/'
    | BaseMismatch      // a price's base symbol is not the expected one
    | QuoteMismatch     // a price's quote symbol is not the expected one

  datatype Result<+T> = Ok(value: T) | Err(error: Error) {

    predicate IsFailure() {
      Err?
    }

    function PropagateFailure<U>(): Result<U>
      requires Err?
    {
      Err(error)
    }

    function Extract(): T
      requires Ok?
    {
      value
    }
  }

  datatype Option<+T> = None | Some(value: T)
}
