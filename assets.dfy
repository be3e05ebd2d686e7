/** Currency-tagged amounts (`asset.rs`). The source carries the currency as
    a phantom type parameter; here it is the `kind` field, and operations
    that the source's types restrict to one currency require equal kinds. */
module Assets {
  import opened Outcome
  import opened Text
  import Unsigned
  import Positive
  import PositiveOps
  import UnsignedOps

  /** The asset tags and their symbols. */
  datatype AssetKind = Usd | Euro | Bitcoin

  function Symbol(k: AssetKind): (s: string)
    ensures s != [] && 'A' <= s[0] <= 'Z' && 'A' <= s[|s| - 1] <= 'Z'
  {
    match k
    case Usd => "USD"
    case Euro => "EURO"
    case Bitcoin => "BTC"
  }

  lemma SymbolInjective(a: AssetKind, b: AssetKind)
    requires a != b
    ensures Symbol(a) != Symbol(b)
  {
    if a == Usd || b == Usd {
      assert "USD"[1] != "EURO"[1] && "USD"[1] != "BTC"[1];
    } else {
      assert "EURO"[0] != "BTC"[0];
    }
  }

  datatype PositiveAsset = PositiveAsset(kind: AssetKind, value: Positive.PositiveDecimal)

  datatype UnsignedAsset = UnsignedAsset(kind: AssetKind, value: Unsigned.UnsignedDecimal)

  /** The characters an amount may contain: ASCII digits, '.' and '-'. */
  predicate IsAmountChar(c: char) {
    IsDigit(c) || c == '.' || c == '-'
  }

  predicate AllAmountChars(s: string) {
    forall i :: 0 <= i < |s| ==> IsAmountChar(s[i])
  }

  /** The index of the first character of `s` that is not an amount character. */
  function FirstNonAmount(s: string): (r: Option<nat>)
    ensures r.None? <==> AllAmountChars(s)
    ensures r.Some? ==> r.value < |s| && !IsAmountChar(s[r.value]) && AllAmountChars(s[..r.value])
  {
    if s == [] then None
    else if !IsAmountChar(s[0]) then Some(0)
    else match FirstNonAmount(s[1..])
      case None => None
      case Some(i) => assert s[1..][..i] == s[1..i + 1]; Some(i + 1)
  }

  /** `split_amount_asset`: splits at the first character that is not an
      amount character, and fails when there is none. */
  function SplitAmountAsset(s: string): (r: Result<(string, string)>)
    ensures r.Ok? <==> !AllAmountChars(s)
    ensures r.Err? ==> r.error == NoAssetType
    ensures r.Ok? ==> r.value.0 + r.value.1 == s && AllAmountChars(r.value.0)
    ensures r.Ok? ==> r.value.1 != [] && !IsAmountChar(r.value.1[0])
  {
    match FirstNonAmount(s)
    case None => Err(NoAssetType)
    case Some(i) => assert s[..i] + s[i..] == s; Ok((s[..i], s[i..]))
  }

  /** An amount followed by text that starts with a non-amount character
      splits exactly between the two. */
  lemma SplitAt(amount: string, rest: string)
    requires AllAmountChars(amount)
    requires rest != [] && !IsAmountChar(rest[0])
    ensures SplitAmountAsset(amount + rest) == Ok((amount, rest))
  {
    var s := amount + rest;
    var parts := SplitAmountAsset(s).value;
    var i := |parts.0|;
    assert s[|amount|] == rest[0];
    assert s[i] == parts.1[0];
    assert s[..i] == parts.0;
    assert i == |amount|;
    assert s[..|amount|] == amount && s[|amount|..] == rest;
  }

  /** `FromStr` for `PositiveAsset`: the text must split into an amount and
      a suffix, the suffix must be the tag's symbol, and then the amount must
      parse as a positive decimal. */
  function ParsePositive(s: string, kind: AssetKind): (r: Result<PositiveAsset>)
    ensures r.Ok? <==>
      SplitAmountAsset(s).Ok? && SplitAmountAsset(s).value.1 == Symbol(kind) &&
      Positive.Parse(SplitAmountAsset(s).value.0).Ok?
    ensures r.Ok? ==> r.value == PositiveAsset(kind, Positive.Parse(SplitAmountAsset(s).value.0).value)
    ensures AllAmountChars(s) ==> r == Err(NoAssetType)
    ensures SplitAmountAsset(s).Ok? && SplitAmountAsset(s).value.1 != Symbol(kind) ==> r == Err(AssetMismatch)
  {
    var parts :- SplitAmountAsset(s);
    if parts.1 != Symbol(kind) then Err(AssetMismatch)
    else
      var value :- Positive.Parse(parts.0);
      Ok(PositiveAsset(kind, value))
  }

  /** `FromStr` for `UnsignedAsset`, the same steps with the unsigned parse. */
  function ParseUnsigned(s: string, kind: AssetKind): (r: Result<UnsignedAsset>)
    ensures r.Ok? <==>
      SplitAmountAsset(s).Ok? && SplitAmountAsset(s).value.1 == Symbol(kind) &&
      Unsigned.Parse(SplitAmountAsset(s).value.0).Ok?
    ensures r.Ok? ==> r.value == UnsignedAsset(kind, Unsigned.Parse(SplitAmountAsset(s).value.0).value)
    ensures AllAmountChars(s) ==> r == Err(NoAssetType)
    ensures SplitAmountAsset(s).Ok? && SplitAmountAsset(s).value.1 != Symbol(kind) ==> r == Err(AssetMismatch)
  {
    var parts :- SplitAmountAsset(s);
    if parts.1 != Symbol(kind) then Err(AssetMismatch)
    else
      var value :- Unsigned.Parse(parts.0);
      Ok(UnsignedAsset(kind, value))
  }

  /** `Display`: the decimal text, as the numeric crate writes it, immediately
      followed by the symbol; the parser splits it back at that point. */
  function RenderPositive(a: PositiveAsset): (s: string)
    ensures SplitAmountAsset(s) == Ok((Positive.Format(a.value), Symbol(a.kind)))
  {
    FormatIsAmount(a.value);
    SplitAt(Positive.Format(a.value), Symbol(a.kind));
    Positive.Format(a.value) + Symbol(a.kind)
  }

  function RenderUnsigned(a: UnsignedAsset): (s: string)
    ensures SplitAmountAsset(s) == Ok((Unsigned.Format(a.value), Symbol(a.kind)))
  {
    FormatIsAmount(a.value);
    SplitAt(Unsigned.Format(a.value), Symbol(a.kind));
    Unsigned.Format(a.value) + Symbol(a.kind)
  }

  /** Rendered decimals, in either rendering, consist of digits and '.' only. */
  lemma FormatIsAmount(x: Unsigned.UnsignedDecimal)
    ensures AllAmountChars(Unsigned.Format(x))
    ensures AllAmountChars(Unsigned.FormatPadded(x))
  {
    var fraction := x % Unsigned.Multiplier;
    if fraction != 0 {
      var digits := FixedDigits(fraction, 6);
      var t := TrimTrailingZeros(digits);
      assert forall i :: 0 <= i < |t| ==> t[i] == digits[i];
    }
  }

  /** A rendered amount always parses back under its own tag, never to less;
      it is the same amount exactly when the fraction is zero or has no
      leading zero digit. */
  lemma ParseRenderPositive(a: PositiveAsset)
    ensures ParsePositive(RenderPositive(a), a.kind).Ok?
    ensures ParsePositive(RenderPositive(a), a.kind).value.value >= a.value
    ensures ParsePositive(RenderPositive(a), a.kind) == Ok(a) <==>
      a.value % Unsigned.Multiplier == 0 || a.value % Unsigned.Multiplier >= 100_000
  {
    Positive.ParseFormat(a.value);
  }

  lemma ParseRenderUnsigned(a: UnsignedAsset)
    ensures ParseUnsigned(RenderUnsigned(a), a.kind).Ok?
    ensures ParseUnsigned(RenderUnsigned(a), a.kind).value.value >= a.value
    ensures ParseUnsigned(RenderUnsigned(a), a.kind) == Ok(a) <==>
      a.value % Unsigned.Multiplier == 0 || a.value % Unsigned.Multiplier >= 100_000
  {
    Unsigned.ParseFormat(a.value);
  }

  /** 0.05 dollars render as "0.5USD", which parses back as 0.5 dollars. */
  lemma RenderDropsLeadingZero()
    ensures RenderPositive(PositiveAsset(Usd, 50_000)) == "0.5USD"
    ensures ParsePositive("0.5USD", Usd) == Ok(PositiveAsset(Usd, 500_000))
  {
    assert Unsigned.Format(50_000) == "0.5" by {
      assert Unsigned.StripZeros(50_000) == 5 by {
        assert Unsigned.StripZeros(50_000) == Unsigned.StripZeros(5_000);
      }
      assert NatToString(0) == "0" && NatToString(5) == "5";
    }
    assert "0.5" + Symbol(Usd) == "0.5USD";
    assert Unsigned.Parse("0.5") == Ok(500_000) by {
      Unsigned.ParseOneDecimal('0', '5');
      assert "0.5" == ['0', '.', '5'];
    }
  }

  /** Under any other tag, the rendered amount is refused. */
  lemma ParseRenderWrongTag(a: PositiveAsset, b: UnsignedAsset, kind: AssetKind)
    ensures kind != a.kind ==> ParsePositive(RenderPositive(a), kind) == Err(AssetMismatch)
    ensures kind != b.kind ==> ParseUnsigned(RenderUnsigned(b), kind) == Err(AssetMismatch)
  {
    if kind != a.kind {
      SymbolInjective(kind, a.kind);
    }
    if kind != b.kind {
      SymbolInjective(kind, b.kind);
    }
  }

  /** `into_unsigned`: keeps both tag and value. */
  function IntoUnsigned(a: PositiveAsset): (u: UnsignedAsset)
    ensures u.kind == a.kind && u.value == a.value
  {
    UnsignedAsset(a.kind, PositiveOps.IntoUnsigned(a.value))
  }

  /** `checked_sub` on amounts of one tag as the source writes it: the
      decimal guard is `>=`, so equal amounts give a zero amount, typed here
      as an unsigned amount because a positive one cannot hold 0. */
  function CheckedSubAsWritten(a: PositiveAsset, b: PositiveAsset): (r: Result<UnsignedAsset>)
    requires a.kind == b.kind
    ensures r.Ok? <==> b.value <= a.value
    ensures r.Ok? ==> r.value.kind == a.kind && r.value.value + b.value == a.value
    ensures a == b ==> r == Ok(Zero(a.kind))
  {
    var value :- PositiveOps.CheckedSubAsWritten(a.value, b.value);
    Ok(UnsignedAsset(a.kind, value))
  }

  /** `checked_sub` on amounts of one tag, through the decimal `checked_sub`
      with the strict guard (PositiveOps.CheckedSub); it agrees with the
      as-written version except on equal amounts. */
  function CheckedSub(a: PositiveAsset, b: PositiveAsset): (r: Result<PositiveAsset>)
    requires a.kind == b.kind
    ensures r.Ok? <==> b.value < a.value
    ensures r.Ok? ==> r.value.kind == a.kind && r.value.value + b.value == a.value
    ensures a.value != b.value ==> (r.Ok? <==> CheckedSubAsWritten(a, b).Ok?)
    ensures r.Ok? ==> CheckedSubAsWritten(a, b) == Ok(IntoUnsigned(r.value))
  {
    var value :- PositiveOps.CheckedSub(a.value, b.value);
    Ok(PositiveAsset(a.kind, value))
  }

  /** `zero`. */
  function Zero(kind: AssetKind): (z: UnsignedAsset)
    ensures z.kind == kind && z.value == 0
  {
    UnsignedAsset(kind, 0)
  }

  /** `AddAssign` on positive amounts of one tag. */
  method AddAssignPositive(self: PositiveAsset, rhs: PositiveAsset) returns (updated: PositiveAsset)
    requires self.kind == rhs.kind
    ensures updated.kind == self.kind && updated.value == self.value + rhs.value
  {
    var value := PositiveOps.AddAssign(self.value, rhs.value);
    updated := PositiveAsset(self.kind, value);
  }

  /** `AddAssign` on unsigned amounts of one tag. */
  method AddAssignUnsigned(self: UnsignedAsset, rhs: UnsignedAsset) returns (updated: UnsignedAsset)
    requires self.kind == rhs.kind
    ensures updated.kind == self.kind && updated.value == self.value + rhs.value
  {
    var value := UnsignedOps.AddAssign(self.value, rhs.value);
    updated := UnsignedAsset(self.kind, value);
  }

  /** With a well-formed amount in front of the right symbol, parsing a
      tagged amount is parsing the amount. */
  lemma ParsePositiveTagged(amount: string, kind: AssetKind)
    requires AllAmountChars(amount)
    ensures ParsePositive(amount + Symbol(kind), kind).Ok? <==> Positive.Parse(amount).Ok?
    ensures ParsePositive(amount + Symbol(kind), kind).Ok? ==>
      ParsePositive(amount + Symbol(kind), kind).value == PositiveAsset(kind, Positive.Parse(amount).value)
  {
    SplitAt(amount, Symbol(kind));
  }

  lemma ParseUnsignedTagged(amount: string, kind: AssetKind)
    requires AllAmountChars(amount)
    ensures ParseUnsigned(amount + Symbol(kind), kind).Ok? <==> Unsigned.Parse(amount).Ok?
    ensures ParseUnsigned(amount + Symbol(kind), kind).Ok? ==>
      ParseUnsigned(amount + Symbol(kind), kind).value == UnsignedAsset(kind, Unsigned.Parse(amount).value)
  {
    SplitAt(amount, Symbol(kind));
  }

  /** "5USD" and "5.0USD" split just before the symbol. */
  lemma SplitExamples()
    ensures SplitAmountAsset("5USD") == Ok(("5", "USD"))
    ensures SplitAmountAsset("5.0USD") == Ok(("5.0", "USD"))
  {
    SplitAt("5", "USD");
    assert "5" + "USD" == "5USD";
    SplitAt("5.0", "USD");
    assert "5.0" + "USD" == "5.0USD";
  }

  /** "25", "25.0" and "25." have no symbol and fail. */
  lemma SplitWithoutSymbol()
    ensures SplitAmountAsset("25").Err? && SplitAmountAsset("25.0").Err? && SplitAmountAsset("25.").Err?
  {
  }

  /** "0.1USD" is a positive amount of one tenth of a dollar. */
  lemma ParsePositiveAccepts()
    ensures ParsePositive("0.1USD", Usd) == Ok(PositiveAsset(Usd, 100_000))
  {
    var amount := "0.1";
    assert Unsigned.Parse(amount) == Ok(100_000) by {
      Unsigned.ParseOneDecimal('0', '1');
      assert amount == ['0', '.', '1'];
    }
    assert amount + Symbol(Usd) == "0.1USD";
    ParsePositiveTagged(amount, Usd);
  }

  /** "0USD" is zero and is refused. */
  lemma ParsePositiveRejectsZero()
    ensures ParsePositive("0USD", Usd).Err?
  {
    assert Unsigned.Parse("0") == Ok(0) by {
      Unsigned.ParseWhole("0");
      assert "0"[..0] == [];
    }
    assert "0" + Symbol(Usd) == "0USD";
    ParsePositiveTagged("0", Usd);
  }

  /** "0.aUSD" ends in "aUSD", which is no symbol. */
  lemma ParsePositiveRejectsLetter()
    ensures ParsePositive("0.aUSD", Usd).Err?
  {
    assert "0." + "aUSD" == "0.aUSD";
    SplitAt("0.", "aUSD");
  }

  /** "-5000USD" is refused as an unsigned amount. */
  lemma ParseUnsignedRejectsNegative()
    ensures ParseUnsigned("-5000USD", Usd).Err?
  {
    ParseUnsignedTagged("-5000", Usd);
    assert "-5000" + Symbol(Usd) == "-5000USD";
    Unsigned.ParseWhole("-5000");
    assert !IsDigit("-5000"[0]);
  }

  /** "5000USD" is 5000 dollars. */
  lemma ParseUnsignedAccepts()
    ensures ParseUnsigned("5000USD", Usd) == Ok(UnsignedAsset(Usd, 5000 * Unsigned.Multiplier))
  {
    assert NatToString(5000) == "5000" by {
      AppendZero(5);
      AppendZero(50);
      AppendZero(500);
      assert NatToString(5) == "5";
      assert "5" + "0" + "0" + "0" == "5000";
    }
    Unsigned.FormatWhole(5000);
    assert RenderUnsigned(UnsignedAsset(Usd, 5_000_000_000)) == "5000USD" by {
      assert "5000" + "USD" == "5000USD";
    }
    ParseRenderUnsigned(UnsignedAsset(Usd, 5_000_000_000));
  }

  /** The fraction 0.456 keeps its leading digit and loses its trailing zeros. */
  lemma FractionDigitsExample()
    ensures TrimTrailingZeros(FixedDigits(456_000, 6)) == "456"
  {
    assert Pow10(5) == 100_000 && Pow10(6) == 1_000_000;
    Unsigned.TrimFixedIsStripped(456_000, 6);
    assert Unsigned.StripZeros(456_000) == 456;
    assert NatToString(456) == "456";
  }

  /** 123.456 renders as "123.456", in either rendering. */
  lemma FormatExample()
    ensures Unsigned.Format(123_456_000) == "123.456"
    ensures Unsigned.FormatPadded(123_456_000) == "123.456"
  {
    assert Unsigned.FormatPadded(123_456_000) == NatToString(123) + "." + TrimTrailingZeros(FixedDigits(456_000, 6)) by {
      assert 123_456_000 / Unsigned.Multiplier == 123 && 123_456_000 % Unsigned.Multiplier == 456_000;
    }
    FractionDigitsExample();
    assert NatToString(123) == "123";
    Unsigned.FormatPaddedAgrees(123_456_000);
  }

  /** 123.456 dollars render as "123.456USD". */
  lemma RenderExample()
    ensures RenderPositive(PositiveAsset(Usd, 123_456_000)) == "123.456USD"
  {
    FormatExample();
    assert "123.456" + Symbol(Usd) == "123.456USD";
  }
}
