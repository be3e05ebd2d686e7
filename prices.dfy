/** Exchange rates between two tagged assets (`price.rs`): the price of one
    unit of the base asset in units of the quote asset. */
module Prices {
  import opened Outcome
  import opened Text
  import Unsigned
  import Positive
  import PositiveOps
  import opened Assets

  datatype Price = Price(base: AssetKind, quote: AssetKind, rate: Positive.PositiveDecimal)

  /** `from_asset_ratios`: the quote amount divided by the base amount,
      refused when the quotient rounds down to 0. */
  function FromAssetRatios(base: PositiveAsset, quote: PositiveAsset): (r: Result<Price>)
    ensures r.Ok? <==> base.value <= quote.value * Unsigned.Multiplier
    ensures r.Err? ==> r.error == ZeroPositive
    ensures r.Ok? ==> r.value.base == base.kind && r.value.quote == quote.kind
    ensures r.Ok? ==> r.value.rate * base.value <= quote.value * Unsigned.Multiplier
                      < (r.value.rate + 1) * base.value
  {
    var quotient := PositiveOps.Div(quote.value, base.value);
    QuotientZero(quotient, quote.value * Unsigned.Multiplier, base.value);
    var rate :- PositiveOps.TryFromUnsigned(quotient);
    Ok(Price(base.kind, quote.kind, rate))
  }

  /** Arithmetic helper for FromAssetRatios: a floor quotient is 0 exactly
      when the divisor exceeds the dividend. */
  lemma QuotientZero(q: nat, a: nat, b: nat)
    requires b > 0 && q * b <= a < (q + 1) * b
    ensures q == 0 <==> a < b
  {
    if q != 0 {
      assert b <= q * b;
    }
  }

  /** `Display`: the rate, a space, then QUOTE/BASE. The rate is the common
      crate's decimal, whose rendering keeps a fraction's leading zeros, so
      it is written with the padded rendering; the parser splits the text
      right after it. */
  function Render(p: Price): (s: string)
    ensures SplitAmountAsset(s) ==
      Ok((Unsigned.FormatPadded(p.rate), " " + Symbol(p.quote) + "/" + Symbol(p.base)))
  {
    var amount := Unsigned.FormatPadded(p.rate);
    var rest := " " + Symbol(p.quote) + "/" + Symbol(p.base);
    FormatIsAmount(p.rate);
    SplitAt(amount, rest);
    assert amount + rest == amount + " " + Symbol(p.quote) + "/" + Symbol(p.base);
    amount + rest
  }

  /** `FromStr`: split off the rate, parse it, then check the pair. A price
      parses exactly when the text splits into a rate that parses and a tail
      that trims to QUOTE/BASE for the requested pair. */
  function Parse(s: string, base: AssetKind, quote: AssetKind): (r: Result<Price>)
    ensures r.Ok? <==>
      SplitAmountAsset(s).Ok? && Positive.Parse(SplitAmountAsset(s).value.0).Ok? &&
      Trim(SplitAmountAsset(s).value.1) == Symbol(quote) + "/" + Symbol(base)
    ensures r.Ok? ==> r.value == Price(base, quote, Positive.Parse(SplitAmountAsset(s).value.0).value)
    ensures AllAmountChars(s) ==> r == Err(NoAssetType)
  {
    var parts :- SplitAmountAsset(s);
    var rate :- Positive.Parse(parts.0);
    var _ :- CheckPair(Trim(parts.1), base, quote);
    Ok(Price(base, quote, rate))
  }

  /** The rest of `FromStr`: split the trimmed tail at its first '/', then
      check the base symbol before the quote symbol. */
  function CheckPair(t: string, base: AssetKind, quote: AssetKind): (r: Result<()>)
    ensures r.Ok? <==> t == Symbol(quote) + "/" + Symbol(base)
    ensures '/' !in t ==> r == Err(NoSlash)
  {
    PairAccepts(t, base, quote);
    match SplitOnce(t, '/')
    case None => Err(NoSlash)
    case Some(pair) =>
      if Symbol(base) != pair.1 then Err(BaseMismatch)
      else if Symbol(quote) != pair.0 then Err(QuoteMismatch)
      else Ok(())
  }

  lemma NoSlashInSymbol(k: AssetKind)
    ensures '/' !in Symbol(k)
  {
    var s := Symbol(k);
    assert forall i :: 0 <= i < |s| ==> 'A' <= s[i] <= 'Z';
  }

  /** Splitting at '/' gives the pair (QUOTE, BASE) exactly for the text
      QUOTE/BASE. */
  lemma PairAccepts(t: string, base: AssetKind, quote: AssetKind)
    ensures SplitOnce(t, '/') == Some((Symbol(quote), Symbol(base))) <==>
      t == Symbol(quote) + "/" + Symbol(base)
  {
    NoSlashInSymbol(quote);
    if t == Symbol(quote) + "/" + Symbol(base) {
      SplitOnceAt(Symbol(quote), '/', Symbol(base));
    } else if '/' in t {
      SplitOnceJoin(t, '/');
    }
  }

  /** One leading space is trimmed off text that starts and ends with a
      capital letter, and nothing else is. */
  lemma TrimSpaced(t: string)
    requires t != [] && 'A' <= t[0] <= 'Z' && 'A' <= t[|t| - 1] <= 'Z'
    ensures Trim(" " + t) == t
  {
    var s := " " + t;
    assert s[0] == ' ';
    assert s[1..] == t;
    assert !IsWhitespace(t[0]);
    assert TrimStart(t) == t;
    assert TrimStart(s) == t;
    assert !IsWhitespace(t[|t| - 1]);
    assert TrimEnd(t) == t;
  }

  /** The text after the rendered rate trims to QUOTE/BASE. */
  lemma TrimPair(q: string, b: string)
    requires q != [] && 'A' <= q[0] <= 'Z'
    requires b != [] && 'A' <= b[|b| - 1] <= 'Z'
    ensures Trim(" " + q + "/" + b) == q + "/" + b
  {
    var pair := q + "/" + b;
    assert " " + q + "/" + b == " " + pair;
    assert 'A' <= pair[0] <= 'Z' && 'A' <= pair[|pair| - 1] <= 'Z' by {
      assert pair[0] == q[0];
      assert pair[|pair| - 1] == b[|b| - 1];
    }
    TrimSpaced(pair);
  }

  /** The pieces `Parse` cuts a rendered price into: the rate's text, then
      the quote and base symbols around the '/'. */
  lemma RenderPieces(p: Price)
    ensures Positive.Parse(Unsigned.FormatPadded(p.rate)) == Ok(p.rate)
    ensures SplitOnce(Trim(" " + Symbol(p.quote) + "/" + Symbol(p.base)), '/') == Some((Symbol(p.quote), Symbol(p.base)))
  {
    Unsigned.ParseFormatPadded(p.rate);
    TrimPair(Symbol(p.quote), Symbol(p.base));
    NoSlashInSymbol(p.quote);
    SplitOnceAt(Symbol(p.quote), '/', Symbol(p.base));
  }

  /** A rendered price parses back, under its own pair, to the same price. */
  lemma ParseRender(p: Price)
    ensures Parse(Render(p), p.base, p.quote) == Ok(p)
  {
    RenderPieces(p);
  }

  /** Under another pair, a rendered price is refused, the base being
      checked first. */
  lemma ParseRenderWrongPair(p: Price, base: AssetKind, quote: AssetKind)
    ensures base != p.base ==> Parse(Render(p), base, quote) == Err(BaseMismatch)
    ensures base == p.base && quote != p.quote ==> Parse(Render(p), base, quote) == Err(QuoteMismatch)
  {
    RenderPieces(p);
    var tail := Trim(" " + Symbol(p.quote) + "/" + Symbol(p.base));
    assert Parse(Render(p), base, quote).Err? ==>
      Parse(Render(p), base, quote).error == CheckPair(tail, base, quote).error;
    if base != p.base {
      SymbolInjective(base, p.base);
    } else if quote != p.quote {
      SymbolInjective(quote, p.quote);
    }
  }

  /** Text with no '/' after the rate is refused. */
  lemma ParseWithoutSlash(amount: string, kind: AssetKind, base: AssetKind, quote: AssetKind)
    requires Positive.Parse(amount).Ok? && AllAmountChars(amount)
    ensures Parse(amount + " " + Symbol(kind), base, quote) == Err(NoSlash)
  {
    var rest := " " + Symbol(kind);
    assert amount + " " + Symbol(kind) == amount + rest;
    SplitAt(amount, rest);
    NoSlashInSymbol(kind);
    TrimSpaced(Symbol(kind));
  }

  /** 0.5 BTC for 55000 EURO is a price of 110000 EURO per BTC. */
  lemma BitcoinPriceExample()
    ensures FromAssetRatios(PositiveAsset(Bitcoin, 500_000), PositiveAsset(Euro, 55_000_000_000))
            == Ok(Price(Bitcoin, Euro, 110_000_000_000))
  {
  }

  lemma BitcoinPriceRendering()
    ensures Render(Price(Bitcoin, Euro, 110_000_000_000)) == "110000 EURO/BTC"
  {
    assert NatToString(110_000) == "110000" by {
      AppendZero(11);
      AppendZero(110);
      AppendZero(1_100);
      AppendZero(11_000);
      assert NatToString(11) == "11";
      assert "11" + "0" + "0" + "0" + "0" == "110000";
    }
    Unsigned.FormatWhole(110_000);
    assert " " + Symbol(Euro) + "/" + Symbol(Bitcoin) == " EURO/BTC";
    assert "110000" + " EURO/BTC" == "110000 EURO/BTC";
  }

  /** 10000 EURO for 11000 USD is a price of 1.1 USD per EURO. */
  lemma EuroPriceExample()
    ensures FromAssetRatios(PositiveAsset(Euro, 10_000_000_000), PositiveAsset(Usd, 11_000_000_000))
            == Ok(Price(Euro, Usd, 1_100_000))
  {
  }
}
