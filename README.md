# Verified model of the rustikon-2025 exchange core

This project models the core of a small currency exchange, written in Dafny.

**Numeric crate.** Decimal amounts are stored as a non-negative integer scaled by 10^6. The crate has:

- its own parser and formatter, and exact addition;
- a `PositiveDecimal` that is never zero;
- a `SignedDecimal` that never holds a negative zero.

**Common crate.** It adds:

- checked decimal operations: the smart constructors, in-place addition, checked subtraction, division and conversions;
- currency-tagged amounts, written as `"<number><SYMBOL>"`, for example `"123.456USD"`;
- exchange rates, written as `"<rate> <QUOTE>/<BASE>"`, for example `"110000 EURO/BTC"`.

**Server.** It keeps a ledger: an ordered map from owner to dollar and euro balances, plus one dollar pool and one euro pool. The two pools trade against each other by the constant-product rule. The ledger offers `status`, `balance`, `mint_funds`, `sell_dollars`, `sell_euros` and the paginated `list_owners`.

Modules follow the source files:

| module | source file |
|---|---|
| `Unsigned` | `packages/numeric/src/unsigned_decimal.rs` |
| `Positive` | `packages/numeric/src/positive_decimal.rs` |
| `Signed` | `packages/numeric/src/signed_decimal.rs` |
| `UnsignedOps` | `packages/common/src/unsigned_decimal.rs` |
| `PositiveOps` | `packages/common/src/positive_decimal.rs` |
| `Assets` | `packages/common/src/asset.rs` |
| `Prices` | `packages/common/src/price.rs` |
| `Ledger` | `packages/server/src/main.rs` |

Three modules support them:

- `Outcome`: the error kinds, `Result` and `Option`.
- `Text`: digit strings, and the parts of Rust's standard library the parsers use: `u128::from_str`, integer `{}` formatting, `split_once` and `trim`.
- `KeyOrder`: the key order of a `BTreeMap<String, _>`, and sorted listing of a key set.

**One decimal type.** The repository has two decimal implementations. `asset.rs` imports the numeric crate's decimals. `price.rs` and `main.rs` use the common crate's decimals, which are backed by `rust_decimal`. `main.rs` also multiplies and divides `UnsignedDecimal`s, but neither crate's `UnsignedDecimal` defines multiplication or division (the common crate defines `Div` only for `PositiveDecimal`). The model therefore uses one representation, the numeric crate's:

- `Unsigned.UnsignedDecimal` is a `nat` raw value scaled by 10^6;
- `Positive.PositiveDecimal` is a raw value other than 0;
- parsing, formatting and addition come from the numeric crate;
- the checked operations come from the common crate.

Multiplication and division on `UnsignedDecimal` (`UnsignedOps.Mul` and `UnsignedOps.Div`) are therefore assumed: both are scaled-integer operations rounded down, `(a * b) / 10^6` and `(a * 10^6) / b`.

**Rendering.** Decimals and tagged amounts are rendered with `Unsigned.Format`, the numeric crate's formatter as written, so their round trips hold only when the fraction is 0 or at least 0.1 (see Findings). Prices are rendered with `Unsigned.FormatPadded`, because `price.rs` writes the common crate's `rust_decimal` value, whose rendering keeps a fraction's leading zeros. The two renderings agree wherever the numeric crate's output parses back to the same value (`Unsigned.FormatPaddedAgrees`).

**Mutation.** The server state is the class `Ledger.AppState`. Its methods change `accounts`, `poolUsd` and `poolEuro`. Each sale method is proved against a specification function, `Ledger.Sell`. That function's properties are proved as lemmas:

- the per-path outcomes;
- conservation of totals (`Ledger.SellConserves`);
- the constant-product bound.

`&mut self` operations on plain values (`AddAssign`, `checked_sub_assign`) become methods that return the updated value.

**Sales are not atomic.** `sell_dollars` and `sell_euros` debit the trader before the step that can fail, `PositiveDecimal::new` on the new output pool. When that step fails, the error is returned, the debit stays, and the pools do not change. The model keeps this behaviour:

- `Ledger.Sell` returns `Err(ZeroPositive)` with the debited account;
- `Ledger.SellConserves` states that the debited amount leaves circulation;
- `Ledger.SwapCanEmptyPool` gives a sale, from the initial pools, that takes this path.

## Model

| member | source | states |
|---|---|---|
| Unsigned.MultiplierIsPow10 | packages/numeric/src/unsigned_decimal.rs:25 | the scale factor is 10^6, so six fractional digits are kept |
| Unsigned.FractionValue | packages/numeric/src/unsigned_decimal.rs:76-86 | a fraction is accepted exactly when it has one to six digits and nothing else; more than six digits gives `TooManyDecimals`; the value is below 10^6 |
| Unsigned.ParseFraction | packages/numeric/src/unsigned_decimal.rs:76-86 | the loop that multiplies by ten once per missing digit computes `FractionValue` |
| Unsigned.FractionValueExamples | packages/numeric/src/unsigned_decimal.rs:102-110 | "0" gives 0, "123456" gives 123456 and "12345" gives 123450; "1234567" and "12345678" are refused as too long; "" is refused |
| Unsigned.Parse | packages/numeric/src/unsigned_decimal.rs:27-44 | accepted text starts with a digit (no sign, no leading '.'); a refusal is `InvalidDigit` or `TooManyDecimals` |
| Unsigned.ParseWhole | packages/numeric/src/unsigned_decimal.rs:30-42 | text without '.' parses exactly when it is a non-empty run of digits, to the whole number times 10^6 |
| Unsigned.ParseFractional | packages/numeric/src/unsigned_decimal.rs:31-42 | "w.f" parses exactly when w is digits and f is one to six digits, to w·10^6 + f·10^(6−\|f\|) |
| Unsigned.StripZeros | packages/numeric/src/unsigned_decimal.rs:54-56 | the stripped fraction is non-zero with no trailing zero digit when the fraction is non-zero, and 0 otherwise |
| Unsigned.StripZerosScale | packages/numeric/src/unsigned_decimal.rs:54-56 | stripping divides the fraction by a power of ten and by nothing else |
| Unsigned.Format | packages/numeric/src/unsigned_decimal.rs:46-60 | the rendering contains '.' exactly when the fraction is non-zero |
| Unsigned.Display | packages/numeric/src/unsigned_decimal.rs:46-60 | the loop that divides the fraction by ten produces `Format` |
| Unsigned.ParseFormat | packages/numeric/src/unsigned_decimal.rs:27-60 | for every value, the source's rendering parses; it parses back to the value exactly when the fraction is 0 or at least 0.1, and otherwise to a larger value |
| Unsigned.ParseFormatFraction | packages/numeric/src/unsigned_decimal.rs:27-60 | parsing the source's rendering of a value with a fraction gives the whole part plus the stripped fraction right-padded to six places |
| Unsigned.PaddedFractionExceeds | packages/numeric/src/unsigned_decimal.rs:54-57 | a fraction below 0.1 with its leading zeros dropped reads back as a larger fraction |
| Unsigned.FormatDropsLeadingZero | packages/numeric/src/unsigned_decimal.rs:53-57 | 5.05 renders as "5.5", which parses back as 5.5 |
| Unsigned.ParseLeadingZeroFraction | packages/numeric/src/unsigned_decimal.rs:31-42 | "5.05" parses to 5.05 |
| Unsigned.FormatPadded | packages/numeric/src/unsigned_decimal.rs:46-60 | corrected rendering: contains '.' exactly when the fraction is non-zero |
| Unsigned.ParseFormatPadded | packages/numeric/src/unsigned_decimal.rs:27-60 | for every value, the corrected rendering parses back to that value |
| Unsigned.ParsePaddedFraction | packages/numeric/src/unsigned_decimal.rs:76-86 | a non-zero fraction written with six digits, trailing zeros dropped, reads back as that fraction |
| Unsigned.FormatPaddedAgrees | packages/numeric/src/unsigned_decimal.rs:46-60 | when the fraction is 0 or at least 0.1, the corrected rendering equals the source's |
| Unsigned.TrimFixedIsStripped | packages/numeric/src/unsigned_decimal.rs:54-57 | for a d-digit fraction, dropping trailing '0's from its d-digit text gives the text of the stripped fraction |
| Unsigned.FormatWhole | packages/numeric/src/unsigned_decimal.rs:51-52 | a whole amount renders as its digits alone, in the source's rendering and in the corrected one |
| Unsigned.Add | packages/numeric/src/unsigned_decimal.rs:68-74 | the sum is at least each operand, and subtracting one operand gives back the other |
| Unsigned.ParseOneDecimal | packages/numeric/src/unsigned_decimal.rs:31-42 | "d.e" parses to d + e/10 |
| Unsigned.ParseAddends | packages/numeric/src/unsigned_decimal.rs:94-95 | "2.2" and "3.5" parse to 2.2 and 3.5 |
| Unsigned.AddExample | packages/numeric/src/unsigned_decimal.rs:92-100 | the raw sum of 2.2 and 3.5 renders as "5.7", which parses back to the sum |
| Unsigned.WholeNumberExamples | packages/numeric/src/unsigned_decimal.rs:120-127 | "5" and "0" parse and render back without a decimal point |
| Unsigned.ParseRejectsEmptyFraction | packages/numeric/src/unsigned_decimal.rs:116 | "5." is refused |
| Unsigned.ParseRejectsSevenDecimals | packages/numeric/src/unsigned_decimal.rs:77-80 | seven fractional digits give `TooManyDecimals` |
| Unsigned.ParseOneDecimalExamples | packages/numeric/src/unsigned_decimal.rs:113-118 | "5.6" and "5.0" parse |
| Text.ParseNat | packages/numeric/src/unsigned_decimal.rs:32-34 | the integer parse succeeds exactly on a non-empty run of ASCII digits |
| Text.ParseNatToString | packages/numeric/src/unsigned_decimal.rs:52 | the integer rendering `{whole}` parses back to the integer |
| Text.SplitOnce | packages/numeric/src/unsigned_decimal.rs:31 | `split_once` finds no separator exactly when the text has none |
| Text.SplitOnceAt | packages/numeric/src/unsigned_decimal.rs:31 | text with its first separator after `a` splits into `a` and the rest |
| Text.SplitOnceJoin | packages/common/src/price.rs:46-49 | when the separator occurs, the two pieces around its first occurrence join back to the text |
| Text.Trim | packages/common/src/price.rs:46-47 | the result is the slice of the text left after removing whitespace, and only whitespace, from both ends; it has no whitespace at either end, and text without whitespace at its ends is kept whole |
| Text.TrimTrailingZerosValue | packages/numeric/src/unsigned_decimal.rs:54-56 | dropping trailing '0' digits divides the denoted number by a power of ten |
| Positive.FromRawValue | packages/numeric/src/positive_decimal.rs:19-22 | succeeds exactly when the raw value is not 0, and keeps it; otherwise `ZeroPositive` |
| Positive.GetRawValue | packages/numeric/src/positive_decimal.rs:23-25 | returns the value that `from_raw_value` accepts back unchanged |
| Positive.Parse | packages/numeric/src/positive_decimal.rs:29-35 | accepts exactly the texts the unsigned parse accepts with a non-zero value, and gives that value |
| Positive.Format | packages/numeric/src/positive_decimal.rs:37-41 | the numeric crate's rendering as written: contains '.' exactly when the fraction is non-zero |
| Positive.ParseFormat | packages/numeric/src/positive_decimal.rs:29-41 | every positive value renders to text that parses, to no smaller a value; to the value itself exactly when the fraction is 0 or at least 0.1 |
| Positive.Add | packages/numeric/src/positive_decimal.rs:49-55 | the `unwrap` never fails; the result is the raw sum and exceeds both operands |
| Positive.ParseExample | packages/numeric/src/positive_decimal.rs:73 | "5.2" parses to 5.2 |
| Positive.ParseRejectsZero | packages/numeric/src/positive_decimal.rs:76-77 | "0" and "0.0" are refused |
| Positive.ParseRejectsSign | packages/numeric/src/positive_decimal.rs:74-75 | "-5.2" and "-0" are refused |
| Signed.FromRawValue | packages/numeric/src/signed_decimal.rs:15-18 | fails exactly on magnitude 0 with the negative flag; otherwise stores both parts, which the accessors return |
| Signed.NoNegativeZero | packages/numeric/src/signed_decimal.rs:8-12 | no value has magnitude 0 and the negative flag |
| UnsignedOps.New | packages/common/src/unsigned_decimal.rs:12-18 | refuses exactly the negative values, with `NegativeUnsigned`, and keeps the others |
| UnsignedOps.IsZero | packages/common/src/unsigned_decimal.rs:24-26 | holds exactly of 0, which adding leaves every value unchanged |
| UnsignedOps.Zero | packages/common/src/unsigned_decimal.rs:20-26 | zero satisfies `is_zero` |
| UnsignedOps.IntoDecimal | packages/common/src/unsigned_decimal.rs:28-37 | converting to a decimal gives a value that `new` accepts back unchanged |
| UnsignedOps.TryFrom | packages/common/src/unsigned_decimal.rs:39-45 | `try_from` is exactly `new` |
| UnsignedOps.TryFromRoundTrip | packages/common/src/unsigned_decimal.rs:33-45 | converting a decimal in and back out gives it back |
| UnsignedOps.AddAssign | packages/common/src/unsigned_decimal.rs:61-65 | the new value is the sum, which is at least each operand |
| UnsignedOps.CheckedSubAssign | packages/common/src/unsigned_decimal.rs:67-78 | fails with `Underflow` exactly when `rhs` exceeds `self`, leaving `self` unchanged; otherwise the new value plus `rhs` is the old value |
| UnsignedOps.Mul | packages/server/src/main.rs:159 | the product is rounded down to six fractional digits |
| UnsignedOps.Div | packages/server/src/main.rs:162 | the quotient is rounded down to six fractional digits |
| UnsignedOps.MulDivExamples | packages/server/src/main.rs:159-162 | 5 × 0.5 = 2.5 and 5 / 2 = 2.5 |
| PositiveOps.New | packages/common/src/positive_decimal.rs:13-21 | refuses exactly the values that are zero or negative, and keeps the others |
| PositiveOps.IntoUnsigned | packages/common/src/positive_decimal.rs:23-25 | the `expect` never fires, and the value is kept |
| PositiveOps.CheckedSubAsWritten | packages/common/src/positive_decimal.rs:27-30 | as written, the guard is `>=`: it succeeds exactly when `rhs <= self`, and the result plus `rhs` is `self` |
| PositiveOps.CheckedSubEqualIsZero | packages/common/src/positive_decimal.rs:27-30 | subtracting a value from itself passes the guard and yields 0 |
| PositiveOps.CheckedSub | packages/common/src/positive_decimal.rs:27-30 | corrected: succeeds exactly when `rhs < self`, so the result is positive and the result plus `rhs` is `self`; otherwise `Underflow` |
| PositiveOps.CheckedSubAgrees | packages/common/src/positive_decimal.rs:27-30 | the two guards differ only on equal operands, and agree on the result when the corrected one succeeds |
| PositiveOps.AddAssign | packages/common/src/positive_decimal.rs:47-51 | the new value is the positive sum |
| PositiveOps.Div | packages/common/src/positive_decimal.rs:53-61 | the quotient is never negative and is the six-place floor of the true quotient |
| PositiveOps.DivCanBeZero | packages/common/src/positive_decimal.rs:54 | a small numerator over a large denominator rounds down to 0 |
| PositiveOps.TryFromUnsigned | packages/common/src/positive_decimal.rs:63-69 | fails exactly on zero and otherwise keeps the value |
| Assets.Symbol | packages/common/src/asset.rs:23-26 | the symbols are USD, EURO and BTC: non-empty, starting and ending with a capital letter |
| Assets.SymbolInjective | packages/common/src/asset.rs:23-26 | distinct tags have distinct symbols |
| Assets.FirstNonAmount | packages/common/src/asset.rs:134-136 | finds the first character that is not a digit, '.' or '-', with only amount characters before it; finds nothing exactly when every character is one |
| Assets.SplitAmountAsset | packages/common/src/asset.rs:133-138 | fails with `NoAssetType` exactly when every character is an amount character; otherwise the two parts concatenate to the input, the first is all amount characters, and the second starts with a non-amount character |
| Assets.SplitAt | packages/common/src/asset.rs:133-138 | an amount followed by text that starts with a non-amount character splits exactly between the two |
| Assets.ParsePositive | packages/common/src/asset.rs:115-131 | for every text: succeeds exactly when it splits into an amount and a suffix, the suffix is the tag's symbol and the amount parses as a positive decimal, giving that tag and value; no suffix gives `NoAssetType`, another suffix `AssetMismatch` |
| Assets.ParseUnsigned | packages/common/src/asset.rs:220-236 | the same for unsigned amounts: success exactly on amount + the tag's symbol with a parsing amount, giving that value; `NoAssetType` and `AssetMismatch` as above |
| Assets.ParsePositiveTagged | packages/common/src/asset.rs:115-131 | an amount text followed by the tag's symbol parses exactly when the amount parses as a positive decimal, to that amount |
| Assets.ParseUnsignedTagged | packages/common/src/asset.rs:220-236 | an amount text followed by the tag's symbol parses exactly when the amount parses as an unsigned decimal, to that amount |
| Assets.RenderPositive | packages/common/src/asset.rs:109-113 | the rendering splits, where the parser splits, into the numeric crate's text of the value and the tag's symbol |
| Assets.RenderUnsigned | packages/common/src/asset.rs:214-218 | the same for unsigned amounts |
| Assets.FormatIsAmount | packages/common/src/asset.rs:109-113 | a rendered decimal, in either rendering, consists of amount characters only |
| Assets.ParseRenderPositive | packages/common/src/asset.rs:109-131 | a rendered positive amount always parses under its own tag, to no smaller a value; to the same amount exactly when the fraction is 0 or at least 0.1 |
| Assets.ParseRenderUnsigned | packages/common/src/asset.rs:214-236 | a rendered unsigned amount always parses under its own tag, to no smaller a value; to the same amount exactly when the fraction is 0 or at least 0.1 |
| Assets.RenderDropsLeadingZero | packages/common/src/asset.rs:109-113 | 0.05 dollars render as "0.5USD", which parses back as 0.5 dollars |
| Assets.ParseRenderWrongTag | packages/common/src/asset.rs:120-124 | under any other tag, a rendered amount is refused with `AssetMismatch` |
| Assets.IntoUnsigned | packages/common/src/asset.rs:62-64 | keeps both tag and value |
| Assets.CheckedSubAsWritten | packages/common/src/asset.rs:66-71 | as written: succeeds exactly when `rhs <= self`, keeping the tag, with the result plus `rhs` equal to `self`; equal amounts give a zero amount |
| Assets.CheckedSub | packages/common/src/asset.rs:66-71 | corrected: succeeds exactly when `rhs < self`, keeping the tag; the result plus `rhs` is `self`; it agrees with the as-written version except on equal amounts |
| Assets.Zero | packages/common/src/asset.rs:167-172 | zero of the given tag |
| Assets.AddAssignPositive | packages/common/src/asset.rs:140-144 | the new amount is the sum of the two amounts, in the same tag |
| Assets.AddAssignUnsigned | packages/common/src/asset.rs:238-242 | the new amount is the sum of the two amounts, in the same tag |
| Assets.SplitExamples | packages/common/src/asset.rs:254-255 | "5USD" splits into "5" and "USD"; "5.0USD" splits into "5.0" and "USD" |
| Assets.SplitWithoutSymbol | packages/common/src/asset.rs:256-258 | "25", "25.0" and "25." are refused |
| Assets.FormatExample | packages/common/src/asset.rs:263-265 | 123.456 renders as "123.456" in either rendering |
| Assets.FractionDigitsExample | packages/common/src/asset.rs:263-265 | the fraction 0.456 renders as "456" |
| Assets.RenderExample | packages/common/src/asset.rs:262-268 | 123.456 dollars render as "123.456USD" |
| Assets.ParsePositiveAccepts | packages/common/src/asset.rs:281 | "0.1USD" is a tenth of a dollar |
| Assets.ParsePositiveRejectsZero | packages/common/src/asset.rs:283 | "0USD" is refused |
| Assets.ParsePositiveRejectsLetter | packages/common/src/asset.rs:282 | "0.aUSD" is refused |
| Assets.ParseUnsignedRejectsNegative | packages/common/src/asset.rs:288 | "-5000USD" is refused |
| Assets.ParseUnsignedAccepts | packages/common/src/asset.rs:289-292 | "5000USD" is 5000 dollars |
| Prices.FromAssetRatios | packages/common/src/price.rs:21-31 | succeeds exactly when quote / base does not round down to 0, otherwise `ZeroPositive`; the rate is the six-place floor of quote / base, and the tags are kept |
| Prices.Parse | packages/common/src/price.rs:40-68 | for every text: succeeds exactly when it splits into a rate that parses as a positive decimal and a tail that trims to QUOTE/BASE for the requested pair, giving that pair and rate; text with no symbol gives `NoAssetType` |
| Prices.CheckPair | packages/common/src/price.rs:46-61 | the pair check passes exactly on QUOTE/BASE; text without '/' gives `NoSlash` |
| Prices.PairAccepts | packages/common/src/price.rs:46-61 | splitting at the first '/' gives (QUOTE, BASE) exactly for the text QUOTE/BASE |
| Prices.Render | packages/common/src/price.rs:34-38 | the rendering splits, where the parser splits, into the rate's text and " QUOTE/BASE" |
| Prices.RenderPieces | packages/common/src/price.rs:34-49 | the rate's text parses back to the rate, and the rendered pair trims and splits into the quote and base symbols |
| Prices.ParseRender | packages/common/src/price.rs:34-68 | a rendered price parses back, under its own pair, to the same price |
| Prices.ParseRenderWrongPair | packages/common/src/price.rs:50-59 | under another pair, a rendered price is refused: `BaseMismatch` when the base differs, otherwise `QuoteMismatch` |
| Prices.ParseWithoutSlash | packages/common/src/price.rs:46-49 | a rate followed by a single symbol is refused with `NoSlash` |
| Prices.TrimSpaced | packages/common/src/price.rs:47 | trimming removes the single space after the rate and nothing else |
| Prices.NoSlashInSymbol | packages/common/src/price.rs:48 | no symbol contains '/' |
| Prices.BitcoinPriceExample | packages/common/src/price.rs:129-131 | 55000 EURO for 0.5 BTC is a price of 110000 |
| Prices.BitcoinPriceRendering | packages/common/src/price.rs:132 | that price renders as "110000 EURO/BTC" |
| Prices.EuroPriceExample | packages/common/src/price.rs:118-120 | 11000 USD for 10000 EURO is a price of 1.1 |
| KeyOrder.LessIrreflexive | packages/server/src/main.rs:22 | no owner key is below itself in the map's order |
| KeyOrder.LessTransitive | packages/server/src/main.rs:22 | the key order is transitive |
| KeyOrder.LessTotal | packages/server/src/main.rs:22 | any two distinct keys are ordered one way or the other |
| KeyOrder.LeastExists | packages/server/src/main.rs:22 | every non-empty key set has a least key |
| KeyOrder.SortedListing | packages/server/src/main.rs:207 | the map's key listing is strictly increasing and holds exactly the keys |
| KeyOrder.SortedUnique | packages/server/src/main.rs:207 | any strictly increasing listing of exactly the keys is that listing |
| KeyOrder.SortedSuffix | packages/server/src/main.rs:207-208 | what follows a key in the listing is the listing of the keys above it |
| KeyOrder.SkipAtMost | packages/server/src/main.rs:208 | `skip_while(k <= bound)` leaves a suffix of the listing |
| KeyOrder.SkipSorted | packages/server/src/main.rs:205-208 | skipping the keys up to the cursor leaves the listing of the keys above the cursor |
| Ledger.Lookup | packages/server/src/main.rs:27-31 | an owner without an account has the default balances, zero and zero |
| Ledger.SumRemove | packages/server/src/main.rs:106-109 | any one account can be taken out of a total first |
| Ledger.SumUpdate | packages/server/src/main.rs:138-140 | replacing or creating one account changes the holdings by exactly the difference |
| Ledger.Swap | packages/server/src/main.rs:159-163 | the new output pool is refused, with `ZeroPositive`, exactly when K divided by the new input pool rounds down to 0 |
| Ledger.SwapSteps | packages/server/src/main.rs:159-163 | both sales' steps compute `Swap`, whichever pool is named first in K |
| Ledger.SwapBounds | packages/server/src/main.rs:149-151 | after a swap the product of the pools does not exceed the old product, and the output pool strictly shrinks |
| Ledger.SwapLeavesPositiveProceeds | packages/server/src/main.rs:165-190 | whenever the swap succeeds, the `checked_sub` for the amount bought (line 165 in `sell_dollars`, line 190 in `sell_euros`) succeeds, under either guard, for any pools |
| Ledger.WithAmount | packages/server/src/main.rs:29-30 | sets the balance in one currency and keeps the other |
| Ledger.Sell | packages/server/src/main.rs:144-198 | a sale opens the account; it fails with `Underflow` exactly when the balance is short, and with `ZeroPositive` exactly when it is not short and the swap fails; a failure leaves the pools unchanged; success adds the amount to the input pool, shrinks the output pool by the amount bought, and keeps the product from growing |
| Ledger.SellShort | packages/server/src/main.rs:156-157 | a short balance opens the account and changes nothing else |
| Ledger.SellStuck | packages/server/src/main.rs:156-163 | a failed swap keeps the debit and leaves the pools unchanged |
| Ledger.SellDone | packages/server/src/main.rs:156-172 | a successful sale debits the amount, credits the amount bought, and moves both pools |
| Ledger.SellConserves | packages/server/src/main.rs:100-112 | on success and on `Underflow`, accounts plus pools hold what they held before in each currency; on `ZeroPositive`, the debited amount has left circulation |
| Ledger.SwapCanEmptyPool | packages/server/src/main.rs:35-39 | from the initial pools, a large enough dollar sale rounds the euro pool down to 0 |
| Ledger.SwapExample | packages/server/src/main.rs:159-163 | selling one dollar into the initial pools leaves 99999.029135 euros in the pool |
| Ledger.InitialDollarPool | packages/server/src/main.rs:37 | "103000USD" parses to 103000 dollars and renders back to the same text |
| Ledger.InitialEuroPool | packages/server/src/main.rs:38 | "100000EURO" parses to 100000 euros and renders back to the same text |
| Ledger.InitialPrices | packages/server/src/main.rs:117-118 | the initial prices are 0.970873 euros per dollar and 1.03 dollars per euro |
| Ledger.Take | packages/server/src/main.rs:209 | `take(n)` keeps the first n elements, or all when there are fewer |
| Ledger.PageIsPrefix | packages/server/src/main.rs:200-215 | a page is the first `Limit` keys above the cursor, in strictly increasing order |
| Ledger.LastPage | packages/server/src/main.rs:209 | a page shorter than `Limit` holds every key above the cursor |
| Ledger.NextPage | packages/server/src/main.rs:200-215 | after a full page, the keys above the cursor are the page followed by the keys above its last key, so paging skips and repeats no owner |
| Ledger.FullPage | packages/server/src/main.rs:207-209 | the first n keys above the cursor are followed by the keys above the n-th of them |
| Ledger.AboveCursor | packages/server/src/main.rs:208 | the keys above a key that lies above the cursor are the keys above that key |
| Ledger.AppState.constructor | packages/server/src/main.rs:35-39 | the server starts with no accounts and the given pools |
| Ledger.AppState.Status | packages/server/src/main.rs:100-120 | each total is every account's balance plus the pool; each price is `from_asset_ratios` of the pools |
| Ledger.AppState.Balance | packages/server/src/main.rs:121-129 | the owner's balances, or zero and zero for an unknown owner |
| Ledger.AppState.MintFunds | packages/server/src/main.rs:131-142 | the recipient's account, created if absent, grows by exactly the given amounts; the pools are unchanged; each total grows by the minted amount |
| Ledger.AppState.SellDollars | packages/server/src/main.rs:144-173 | the result, accounts and pools are those `Sell` gives for dollars into the euro pool; totals are kept on success and `Underflow`, and the debit is lost on `ZeroPositive` |
| Ledger.AppState.SellEuros | packages/server/src/main.rs:175-198 | the mirror of `SellDollars`, for euros into the dollar pool |
| Ledger.AppState.ListOwners | packages/server/src/main.rs:200-216 | the loop returns `Page`: at most `Limit` owners, in key order, strictly after the cursor |
| Ledger.ListingStep | packages/server/src/main.rs:207-209 | moving the least remaining key to the listed ones keeps the listed keys followed by the remaining keys equal to the full listing |
| Ledger.TakeStopped | packages/server/src/main.rs:209 | where the loop stops, it holds the first `Limit` keys, or all of them |

## Left out

- HTTP, the runtime, routing, CORS, the JSON error wrapper and the `Arc<Mutex<..>>` (`main.rs` lines 18-19 and 33-97) are left out. Each `AppState` method runs as one atomic step on the class's fields.
- The serde `Serialize` and `Deserialize` impls and visitors in `asset.rs` and `price.rs` are left out. They only delegate to `Display` and `FromStr`, which are modelled.
- `packages/common/src/messages.rs`, the client under `packages/client` and the re-export files `lib.rs` are not part of this model. The sale methods return the amount bought; they do not return a wire response type.
- `rust_decimal` internals are left out. The common crate's decimals keep their scale and 28 significant digits, and distinguish a negative zero. The model has one six-place representation instead. As a result:
  - `UnsignedOps.New` and `PositiveOps.New` do not see a sign on zero;
  - the price test's `"1.10 USD/EURO"` (`price.rs` line 121) renders as "1.1 USD/EURO" here.
- UnsignedOps.Mul: assumed to round the scaled product down to six places. No `UnsignedDecimal` in the repository defines multiplication.
- UnsignedOps.Div: assumed to round the scaled quotient down to six places. No `UnsignedDecimal` in the repository defines division.
- Assets.CheckedSub: uses the corrected strict guard; the source returns a zero amount when the operands are equal (see Findings). `Assets.CheckedSubAsWritten` models the source's `>=` guard. The ledger's two uses (`main.rs` lines 165 and 190) never have equal operands (`Ledger.SwapLeavesPositiveProceeds`).
- Prices.Render: writes the rate with `Unsigned.FormatPadded`, which keeps the fraction's leading zeros as `rust_decimal`'s rendering does; `rust_decimal`'s trailing zeros and scale are not modelled (see the `rust_decimal` line above).
- PositiveOps.Div: rounds to six places like `UnsignedOps.Div`, where `rust_decimal` keeps up to 28 digits.
- Prices.FromAssetRatios: rounds to six places like `UnsignedOps.Div`, where `rust_decimal` keeps up to 28 digits.
- Ledger.SwapCanEmptyPool: the example relies on six-place rounding; with `rust_decimal`'s 28 digits the same sale does not round the pool down to 0.
- `u128` overflow in parsing, in `whole * MULTIPLIER` and in addition is not modelled; all integers are unbounded.
- Rust's integer parser accepts a leading '+' (so "+5" parses in the source). `Text.ParseNat` accepts digits only.
- Text.Trim: only ASCII whitespace is trimmed, while Rust's `trim` also removes Unicode whitespace. A rendered price only ever contains a single ASCII space, so round trips are unaffected.
- The `Debug` impls are left out. They print the `Display` text.
- The numeric crate's `test_basic_addition` for `PositiveDecimal` (`positive_decimal.rs` lines 61-69) is left out. It parses "-2.2", which line 74 of the same file requires to fail (`Positive.ParseRejectsSign`).
- `from_static` in `asset.rs` is left out. It is `parse().unwrap()` on a literal; the initial pools are covered by `Ledger.InitialDollarPool` and `Ledger.InitialEuroPool`.
- Signed arithmetic is not modelled. The numeric crate's `SignedDecimal` only has a constructor and two accessors.
- Ledger.AppState.Status: `status` returns the two prices as `Result`s, because `main.rs` does not apply `?` to them. The model returns them the same way.
- Ledger.AppState.SellDollars: the account is opened even when the sale fails, as in the source. The `ZeroPositive` path keeps the debit; it is stated, not repaired (see the paragraph on sales above).
- Ledger.AppState.SellEuros: the same as `SellDollars`.
- KeyOrder.Sorted: the map's key order is the lexicographic order on characters. Rust compares `String` keys byte by byte, which gives the same order for UTF-8 text. `Sorted` and `Page` are ghost specifications; the method `ListOwners` computes the page.

## Findings

| source | as written | input that shows it | evidently intended | confidence | as-written member | corrected member |
|---|---|---|---|---|---|---|
| packages/numeric/src/unsigned_decimal.rs:50-57 | the fraction is written as a plain integer after its trailing zeros are stripped, so its leading zeros are lost | raw 5_050_000 (5.05) renders as "5.5", which parses back to 5.5 | write the fraction with six digits, leading zeros kept, then drop trailing zeros, so that every value parses back to itself | not executed | Unsigned.FormatDropsLeadingZero | Unsigned.ParseFormatPadded |
| packages/common/src/positive_decimal.rs:28 | `checked_sub` guards with `self >= rhs`, so equal operands produce a `PositiveDecimal` holding 0 | `checked_sub(p, p)` for any positive p yields 0 | a strict guard `self > rhs`, so every result is positive | not executed | PositiveOps.CheckedSubEqualIsZero | PositiveOps.CheckedSub |
