/** The exchange server's state (`main.rs`): every owner's dollar and euro
    balances plus a dollar pool and a euro pool that trade against each
    other at a constant product. The lock around the state is left out: each
    method below runs as one step on the class's fields. */
module Ledger {
  import opened Outcome
  import Unsigned
  import Positive
  import PositiveOps
  import UnsignedOps
  import opened Assets
  import Prices
  import opened KeyOrder
  import Text

  type Owner = string

  /** One account: dollars and euros, both zero by default. */
  datatype Balances = Balances(usd: Unsigned.UnsignedDecimal, euro: Unsigned.UnsignedDecimal)

  datatype Currency = Dollars | Euros

  function Amount(b: Balances, c: Currency): nat {
    match c
    case Dollars => b.usd
    case Euros => b.euro
  }

  /** An owner's balances, or the default for an owner without an account. */
  function Lookup(accounts: map<Owner, Balances>, owner: Owner): (b: Balances)
    ensures owner in accounts ==> b == accounts[owner]
    ensures owner !in accounts ==> b == Balances(0, 0)
  {
    if owner in accounts then accounts[owner] else Balances(0, 0)
  }

  ghost function Pick(keys: set<Owner>): Owner
    requires keys != {}
  {
    var k :| k in keys; k
  }

  /** The total held in currency `c` by the accounts named in `keys`. */
  ghost function Sum(accounts: map<Owner, Balances>, keys: set<Owner>, c: Currency): nat
    requires keys <= accounts.Keys
    decreases keys
  {
    if keys == {} then 0
    else
      var k := Pick(keys);
      Amount(accounts[k], c) + Sum(accounts, keys - {k}, c)
  }

  /** Any one account can be taken out of a sum first. */
  lemma {:induction false} SumRemove(accounts: map<Owner, Balances>, keys: set<Owner>, k: Owner, c: Currency)
    requires keys <= accounts.Keys && k in keys
    ensures Sum(accounts, keys, c) == Amount(accounts[k], c) + Sum(accounts, keys - {k}, c)
    decreases keys
  {
    var p := Pick(keys);
    if p != k {
      SumRemove(accounts, keys - {p}, k, c);
      SumRemove(accounts, keys - {k}, p, c);
      assert keys - {p} - {k} == keys - {k} - {p};
    }
  }

  /** Sums only depend on the amounts summed. */
  lemma {:induction false} SumAgree(a: map<Owner, Balances>, b: map<Owner, Balances>, keys: set<Owner>, c: Currency)
    requires keys <= a.Keys && keys <= b.Keys
    requires forall k :: k in keys ==> Amount(a[k], c) == Amount(b[k], c)
    ensures Sum(a, keys, c) == Sum(b, keys, c)
    decreases keys
  {
    if keys != {} {
      SumAgree(a, b, keys - {Pick(keys)}, c);
    }
  }

  /** Everything the accounts hold in currency `c`. */
  ghost function Holdings(accounts: map<Owner, Balances>, c: Currency): nat {
    Sum(accounts, accounts.Keys, c)
  }

  /** Replacing one account's balances (creating it if absent) changes the
      holdings by exactly the difference. */
  lemma SumUpdate(accounts: map<Owner, Balances>, k: Owner, b: Balances, c: Currency)
    ensures Holdings(accounts[k := b], c) + Amount(Lookup(accounts, k), c)
            == Holdings(accounts, c) + Amount(b, c)
  {
    var updated := accounts[k := b];
    SumRemove(updated, updated.Keys, k, c);
    SumAgree(updated, accounts, updated.Keys - {k}, c);
    if k in accounts {
      SumRemove(accounts, accounts.Keys, k, c);
      assert updated.Keys - {k} == accounts.Keys - {k};
    } else {
      assert updated.Keys - {k} == accounts.Keys;
    }
  }

  /** The pool arithmetic of both sales: K is the product of the two pools,
      the amount sold joins the input pool, and the output pool becomes K
      divided by the new input pool, which must not round down to 0. */
  function Swap(poolIn: Positive.PositiveDecimal, poolOut: Positive.PositiveDecimal, amountIn: Positive.PositiveDecimal)
    : (r: Result<Positive.PositiveDecimal>)
    ensures r.Ok? <==> poolIn + amountIn <= UnsignedOps.Mul(poolIn, poolOut) * Unsigned.Multiplier
    ensures r.Err? ==> r.error == ZeroPositive
  {
    var k := UnsignedOps.Mul(PositiveOps.IntoUnsigned(poolIn), PositiveOps.IntoUnsigned(poolOut));
    var newIn := Positive.Add(poolIn, amountIn);
    PositiveOps.New(UnsignedOps.IntoDecimal(UnsignedOps.Div(k, newIn)))
  }

  /** The steps of a sale compute `Swap`, whichever pool is named first in
      the product. */
  lemma SwapSteps(poolIn: Positive.PositiveDecimal, poolOut: Positive.PositiveDecimal, amountIn: Positive.PositiveDecimal)
    ensures Swap(poolIn, poolOut, amountIn) == PositiveOps.New(UnsignedOps.IntoDecimal(UnsignedOps.Div(
      UnsignedOps.Mul(PositiveOps.IntoUnsigned(poolIn), PositiveOps.IntoUnsigned(poolOut)),
      Positive.Add(poolIn, amountIn))))
    ensures Swap(poolIn, poolOut, amountIn) == PositiveOps.New(UnsignedOps.IntoDecimal(UnsignedOps.Div(
      UnsignedOps.Mul(PositiveOps.IntoUnsigned(poolOut), PositiveOps.IntoUnsigned(poolIn)),
      Positive.Add(poolIn, amountIn))))
  {
    assert poolIn * poolOut == poolOut * poolIn;
  }

  /** A successful swap keeps the product of the pools from growing, so the
      output pool strictly shrinks. */
  lemma SwapBounds(poolIn: Positive.PositiveDecimal, poolOut: Positive.PositiveDecimal, amountIn: Positive.PositiveDecimal)
    requires Swap(poolIn, poolOut, amountIn).Ok?
    ensures Swap(poolIn, poolOut, amountIn).value * (poolIn + amountIn) <= poolIn * poolOut
    ensures Swap(poolIn, poolOut, amountIn).value < poolOut
  {
    var newIn := poolIn + amountIn;
    var newOut := Swap(poolIn, poolOut, amountIn).value;
    var k := UnsignedOps.Mul(poolIn, poolOut);
    assert newOut * newIn <= k * Unsigned.Multiplier;
    assert k * Unsigned.Multiplier <= poolIn * poolOut;
    assert poolIn * poolOut < poolOut * newIn by {
      assert poolOut * newIn == poolOut * poolIn + poolOut * amountIn;
    }
    Unsigned.LessAfterScaling(newOut, poolOut, newIn);
  }

  /** Whenever the swap succeeds, `checked_sub` of the new output pool from
      the old one succeeds too: the trader always receives a positive amount. */
  lemma SwapLeavesPositiveProceeds(poolIn: Positive.PositiveDecimal, poolOut: Positive.PositiveDecimal,
                                   amountIn: Positive.PositiveDecimal)
    requires Swap(poolIn, poolOut, amountIn).Ok?
    ensures PositiveOps.CheckedSub(poolOut, Swap(poolIn, poolOut, amountIn).value).Ok?
    ensures PositiveOps.CheckedSubAsWritten(poolOut, Swap(poolIn, poolOut, amountIn).value).Ok?
  {
    SwapBounds(poolIn, poolOut, amountIn);
  }

  function Other(c: Currency): Currency {
    match c
    case Dollars => Euros
    case Euros => Dollars
  }

  /** `b` with its amount in currency `c` replaced by `x`. */
  function WithAmount(b: Balances, c: Currency, x: nat): (r: Balances)
    ensures Amount(r, c) == x && Amount(r, Other(c)) == Amount(b, Other(c))
  {
    match c
    case Dollars => b.(usd := x)
    case Euros => b.(euro := x)
  }

  /** What a sale leaves behind: its result, the accounts, and the pool of
      the currency sold (`poolIn`) and of the currency bought (`poolOut`). */
  datatype Sale = Sale(result: Result<Positive.PositiveDecimal>, accounts: map<Owner, Balances>,
                       poolIn: Positive.PositiveDecimal, poolOut: Positive.PositiveDecimal)

  /** Selling `amount` of currency `c` out of `trader`'s account: the account
      is opened, the amount debited (`Underflow` if the balance is short),
      the pools swapped (`ZeroPositive` if the output pool would round down
      to 0, the debit being kept), and the trader credited with what the
      output pool lost. */
  function Sell(accounts: map<Owner, Balances>, poolIn: Positive.PositiveDecimal, poolOut: Positive.PositiveDecimal,
                trader: Owner, amount: Positive.PositiveDecimal, c: Currency): (s: Sale)
    ensures trader in s.accounts && s.accounts == accounts[trader := s.accounts[trader]]
    ensures s.result == Err(Underflow) <==> Amount(Lookup(accounts, trader), c) < amount
    ensures s.result == Err(ZeroPositive) <==>
      amount <= Amount(Lookup(accounts, trader), c) && Swap(poolIn, poolOut, amount).Err?
    ensures s.result.Err? ==> s.poolIn == poolIn && s.poolOut == poolOut
    ensures s.result.Ok? ==>
      s.poolIn == poolIn + amount && s.poolOut < poolOut &&
      s.result.value == poolOut - s.poolOut && s.poolIn * s.poolOut <= poolIn * poolOut
  {
    var owner := Lookup(accounts, trader);
    if Amount(owner, c) < amount then
      Sale(Err(Underflow), accounts[trader := owner], poolIn, poolOut)
    else
      var debited := WithAmount(owner, c, Amount(owner, c) - amount);
      var swap := Swap(poolIn, poolOut, amount);
      if swap.Err? then
        Sale(Err(swap.error), accounts[trader := debited], poolIn, poolOut)
      else
        SwapBounds(poolIn, poolOut, amount);
        var bought: Positive.PositiveDecimal := poolOut - swap.value;
        var credited := WithAmount(debited, Other(c), Amount(debited, Other(c)) + bought);
        Sale(Ok(bought), accounts[trader := credited], poolIn + amount, swap.value)
  }

  /** Writing an account twice leaves the second write. */
  lemma Overwrite(m: map<Owner, Balances>, k: Owner, a: Balances, b: Balances)
    ensures m[k := a][k := b] == m[k := b]
  {
  }

  /** The three ways a sale ends, each as the state it leaves. */
  lemma SellShort(accounts: map<Owner, Balances>, poolIn: Positive.PositiveDecimal, poolOut: Positive.PositiveDecimal,
                  trader: Owner, amount: Positive.PositiveDecimal, c: Currency)
    requires Amount(Lookup(accounts, trader), c) < amount
    ensures Sell(accounts, poolIn, poolOut, trader, amount, c)
            == Sale(Err(Underflow), accounts[trader := Lookup(accounts, trader)], poolIn, poolOut)
  {
  }

  lemma SellStuck(accounts: map<Owner, Balances>, poolIn: Positive.PositiveDecimal, poolOut: Positive.PositiveDecimal,
                  trader: Owner, amount: Positive.PositiveDecimal, c: Currency, debited: Balances)
    requires amount <= Amount(Lookup(accounts, trader), c) && Swap(poolIn, poolOut, amount).Err?
    requires debited == WithAmount(Lookup(accounts, trader), c, Amount(Lookup(accounts, trader), c) - amount)
    ensures Sell(accounts, poolIn, poolOut, trader, amount, c)
            == Sale(Err(ZeroPositive), accounts[trader := debited], poolIn, poolOut)
  {
  }

  lemma SellDone(accounts: map<Owner, Balances>, poolIn: Positive.PositiveDecimal, poolOut: Positive.PositiveDecimal,
                 trader: Owner, amount: Positive.PositiveDecimal, c: Currency, debited: Balances,
                 bought: Positive.PositiveDecimal, credited: Balances)
    requires amount <= Amount(Lookup(accounts, trader), c) && Swap(poolIn, poolOut, amount).Ok?
    requires debited == WithAmount(Lookup(accounts, trader), c, Amount(Lookup(accounts, trader), c) - amount)
    requires bought == poolOut - Swap(poolIn, poolOut, amount).value
    requires credited == WithAmount(debited, Other(c), Amount(debited, Other(c)) + bought)
    ensures Sell(accounts, poolIn, poolOut, trader, amount, c)
            == Sale(Ok(bought), accounts[trader := credited], poolIn + amount, Swap(poolIn, poolOut, amount).value)
  {
  }

  /** A sale moves money and creates or destroys none: on success and on
      `Underflow` the accounts plus the pools hold what they held before in
      each currency; on `ZeroPositive` the debited amount is gone. */
  lemma SellConserves(accounts: map<Owner, Balances>, poolIn: Positive.PositiveDecimal, poolOut: Positive.PositiveDecimal,
                      trader: Owner, amount: Positive.PositiveDecimal, c: Currency)
    ensures var s := Sell(accounts, poolIn, poolOut, trader, amount, c);
      s.result.Ok? || s.result == Err(Underflow) ==>
        Holdings(s.accounts, c) + s.poolIn == Holdings(accounts, c) + poolIn &&
        Holdings(s.accounts, Other(c)) + s.poolOut == Holdings(accounts, Other(c)) + poolOut
    ensures var s := Sell(accounts, poolIn, poolOut, trader, amount, c);
      s.result == Err(ZeroPositive) ==>
        Holdings(s.accounts, c) + amount == Holdings(accounts, c) &&
        Holdings(s.accounts, Other(c)) == Holdings(accounts, Other(c))
  {
    var s := Sell(accounts, poolIn, poolOut, trader, amount, c);
    var b := s.accounts[trader];
    SumUpdate(accounts, trader, b, c);
    SumUpdate(accounts, trader, b, Other(c));
  }

  /** With the initial pools of 103000 dollars and 100000 euros, selling
      10300000000000000 dollars rounds the new euro pool down to 0. */
  lemma SwapCanEmptyPool()
    ensures Swap(103_000_000_000, 100_000_000_000, 10_300_000_000_000_000_000_000) == Err(ZeroPositive)
  {
  }

  /** Selling one dollar into the initial pools. */
  lemma SwapExample()
    ensures Swap(103_000_000_000, 100_000_000_000, 1_000_000) == Ok(99_999_029_135)
  {
  }

  /** The server starts with pools of "103000USD" and "100000EURO". */
  lemma InitialDollarPool()
    ensures RenderPositive(PositiveAsset(Usd, 103_000_000_000)) == "103000USD"
    ensures ParsePositive("103000USD", Usd) == Ok(PositiveAsset(Usd, 103_000_000_000))
  {
    assert Text.NatToString(103_000) == "103000" by {
      assert Text.NatToString(103) == "103";
      assert Text.NatToString(1030) == "103" + "0";
      assert Text.NatToString(10300) == "1030" + "0";
    }
    Unsigned.FormatWhole(103_000);
    assert "103000" + "USD" == "103000USD";
    ParseRenderPositive(PositiveAsset(Usd, 103_000_000_000));
  }

  lemma InitialEuroPool()
    ensures RenderPositive(PositiveAsset(Euro, 100_000_000_000)) == "100000EURO"
    ensures ParsePositive("100000EURO", Euro) == Ok(PositiveAsset(Euro, 100_000_000_000))
  {
    assert Text.NatToString(100_000) == "100000" by {
      assert Text.NatToString(100) == "100";
      assert Text.NatToString(1000) == "100" + "0";
      assert Text.NatToString(10000) == "1000" + "0";
    }
    Unsigned.FormatWhole(100_000);
    assert "100000" + "EURO" == "100000EURO";
    ParseRenderPositive(PositiveAsset(Euro, 100_000_000_000));
  }

  /** The initial prices: a dollar costs 0.970873 euros, a euro 1.03 dollars. */
  lemma InitialPrices()
    ensures Prices.FromAssetRatios(PositiveAsset(Usd, 103_000_000_000), PositiveAsset(Euro, 100_000_000_000))
            == Ok(Prices.Price(Usd, Euro, 970_873))
    ensures Prices.FromAssetRatios(PositiveAsset(Euro, 100_000_000_000), PositiveAsset(Usd, 103_000_000_000))
            == Ok(Prices.Price(Euro, Usd, 1_030_000))
  {
  }

  /** `list_owners` returns at most this many owners. */
  const Limit: nat := 10

  function Take(r: seq<Owner>, n: nat): (t: seq<Owner>)
    ensures |t| <= n && |t| <= |r| && t == r[..|t|]
    ensures |r| <= n ==> t == r
    ensures n < |r| ==> |t| == n
  {
    if |r| <= n then r else r[..n]
  }

  /** The owners `list_owners` reports: the keys in order, those up to the
      cursor skipped, the first `Limit` of the rest. */
  ghost function Page(keys: set<Owner>, startAfter: Option<Owner>): seq<Owner> {
    match startAfter
    case None => Take(Sorted(keys), Limit)
    case Some(cursor) => Take(SkipAtMost(Sorted(keys), cursor), Limit)
  }

  /** The keys strictly after the cursor (all of them without one). */
  ghost function After(keys: set<Owner>, startAfter: Option<Owner>): set<Owner> {
    match startAfter
    case None => keys
    case Some(cursor) => Above(keys, cursor)
  }

  /** A page lists, in increasing order, the first owners after the cursor. */
  lemma PageIsPrefix(keys: set<Owner>, startAfter: Option<Owner>)
    ensures Page(keys, startAfter) == Take(Sorted(After(keys, startAfter)), Limit)
    ensures StrictlyIncreasing(Page(keys, startAfter))
    ensures forall k :: k in Page(keys, startAfter) ==> k in After(keys, startAfter)
  {
    var r := Sorted(After(keys, startAfter));
    assert Page(keys, startAfter) == Take(r, Limit) by {
      if startAfter.Some? {
        SkipSorted(keys, startAfter.value);
      }
    }
    SortedListing(After(keys, startAfter));
    TakeIncreasing(r, Limit);
  }

  lemma TakeIncreasing(r: seq<Owner>, n: nat)
    requires StrictlyIncreasing(r)
    ensures StrictlyIncreasing(Take(r, n))
    ensures forall k :: k in Take(r, n) ==> k in r
  {
    var t := Take(r, n);
    assert forall i :: 0 <= i < |t| ==> t[i] == r[i];
  }

  /** A page shorter than `Limit` holds everything after its cursor. */
  lemma LastPage(keys: set<Owner>, startAfter: Option<Owner>)
    ensures |Page(keys, startAfter)| < Limit ==> Page(keys, startAfter) == Sorted(After(keys, startAfter))
  {
    PageIsPrefix(keys, startAfter);
  }

  /** Paging through the owners skips and repeats no one: after a full page
      the rest follows on the page whose cursor is that page's last owner. */
  lemma NextPage(keys: set<Owner>, startAfter: Option<Owner>)
    ensures var p := Page(keys, startAfter);
      |p| == Limit ==> Sorted(After(keys, startAfter)) == p + Sorted(After(keys, Some(p[Limit - 1])))
  {
    if |Page(keys, startAfter)| == Limit {
      PageIsPrefix(keys, startAfter);
      FullPage(keys, startAfter, Limit);
    }
  }

  /** The first `n` owners after the cursor are followed by the owners after
      the `n`-th of them. */
  lemma FullPage(keys: set<Owner>, startAfter: Option<Owner>, n: nat)
    requires 0 < n <= |Sorted(After(keys, startAfter))|
    ensures var r := Sorted(After(keys, startAfter));
      r == Take(r, n) + Sorted(After(keys, Some(Take(r, n)[n - 1])))
  {
    var s := After(keys, startAfter);
    var r := Sorted(s);
    var last := r[n - 1];
    assert r[n..] == Sorted(After(keys, Some(last))) by {
      SortedListing(s);
      SortedSuffix(s, n - 1);
      AboveCursor(keys, startAfter, last);
    }
    TakeThenDrop(r, n);
  }

  lemma TakeThenDrop(r: seq<Owner>, n: nat)
    requires 0 < n <= |r|
    ensures r == Take(r, n) + r[n..] && Take(r, n)[n - 1] == r[n - 1]
  {
    assert Take(r, n) == r[..n];
    assert r == r[..n] + r[n..];
  }

  /** The keys after a key that itself lies after the cursor are the keys
      after that key. */
  lemma AboveCursor(keys: set<Owner>, startAfter: Option<Owner>, last: Owner)
    requires last in After(keys, startAfter)
    ensures Above(After(keys, startAfter), last) == After(keys, Some(last))
  {
    if startAfter.Some? {
      forall k | k in keys && Less(last, k)
        ensures Less(startAfter.value, k)
      {
        LessTransitive(startAfter.value, last, k);
      }
    }
  }

  class AppState {
    var accounts: map<Owner, Balances>
    var poolUsd: Positive.PositiveDecimal
    var poolEuro: Positive.PositiveDecimal

    /** The server's start: no accounts, and the two pools given. */
    constructor(poolUsd: Positive.PositiveDecimal, poolEuro: Positive.PositiveDecimal)
      ensures accounts == map[] && this.poolUsd == poolUsd && this.poolEuro == poolEuro
    {
      accounts := map[];
      this.poolUsd := poolUsd;
      this.poolEuro := poolEuro;
    }

    function Pool(c: Currency): Positive.PositiveDecimal
      reads this
    {
      match c
      case Dollars => poolUsd
      case Euros => poolEuro
    }

    /** Everything in circulation in currency `c`: the accounts and the pool. */
    ghost function Total(c: Currency): nat
      reads this
    {
      Holdings(accounts, c) + Pool(c)
    }

    /** `status`: the totals in circulation, and the price of each currency
        in the other, computed from the pools. */
    method Status() returns (totalUsd: Unsigned.UnsignedDecimal, totalEuro: Unsigned.UnsignedDecimal,
                             priceUsd: Result<Prices.Price>, priceEuro: Result<Prices.Price>)
      ensures totalUsd == Total(Dollars) && totalEuro == Total(Euros)
      ensures priceUsd == Prices.FromAssetRatios(PositiveAsset(Usd, poolUsd), PositiveAsset(Euro, poolEuro))
      ensures priceEuro == Prices.FromAssetRatios(PositiveAsset(Euro, poolEuro), PositiveAsset(Usd, poolUsd))
    {
      totalUsd := UnsignedOps.Zero();
      totalEuro := UnsignedOps.Zero();
      var todo := accounts.Keys;
      while todo != {}
        invariant todo <= accounts.Keys
        invariant totalUsd + Sum(accounts, todo, Dollars) == Holdings(accounts, Dollars)
        invariant totalEuro + Sum(accounts, todo, Euros) == Holdings(accounts, Euros)
        decreases |todo|
      {
        var owner :| owner in todo;
        SumRemove(accounts, todo, owner, Dollars);
        SumRemove(accounts, todo, owner, Euros);
        totalUsd := UnsignedOps.AddAssign(totalUsd, accounts[owner].usd);
        totalEuro := UnsignedOps.AddAssign(totalEuro, accounts[owner].euro);
        todo := todo - {owner};
      }
      totalUsd := UnsignedOps.AddAssign(totalUsd, PositiveOps.IntoUnsigned(poolUsd));
      totalEuro := UnsignedOps.AddAssign(totalEuro, PositiveOps.IntoUnsigned(poolEuro));
      priceUsd := Prices.FromAssetRatios(PositiveAsset(Usd, poolUsd), PositiveAsset(Euro, poolEuro));
      priceEuro := Prices.FromAssetRatios(PositiveAsset(Euro, poolEuro), PositiveAsset(Usd, poolUsd));
    }

    /** `balance`: the owner's balances, zero for an unknown owner. */
    method Balance(owner: Owner) returns (b: Balances)
      ensures b == Lookup(accounts, owner)
      ensures owner !in accounts ==> b.usd == 0 && b.euro == 0
    {
      if owner in accounts {
        b := accounts[owner];
      } else {
        b := Balances(0, 0);
      }
    }

    /** `mint_funds`: credits the recipient, opening the account if needed.
        Minting is the only way money enters circulation. */
    method MintFunds(recipient: Owner, usdAmount: Unsigned.UnsignedDecimal, euroAmount: Unsigned.UnsignedDecimal)
      modifies this
      ensures accounts == old(accounts)[recipient := Balances(
                old(Lookup(accounts, recipient)).usd + usdAmount,
                old(Lookup(accounts, recipient)).euro + euroAmount)]
      ensures poolUsd == old(poolUsd) && poolEuro == old(poolEuro)
      ensures Total(Dollars) == old(Total(Dollars)) + usdAmount
      ensures Total(Euros) == old(Total(Euros)) + euroAmount
    {
      var owner := Lookup(accounts, recipient);
      var usd := UnsignedOps.AddAssign(owner.usd, usdAmount);
      var euro := UnsignedOps.AddAssign(owner.euro, euroAmount);
      SumUpdate(accounts, recipient, Balances(usd, euro), Dollars);
      SumUpdate(accounts, recipient, Balances(usd, euro), Euros);
      accounts := accounts[recipient := Balances(usd, euro)];
    }

    /** `sell_dollars`: the trader pays `dollars` into the dollar pool and
        receives what the euro pool loses; the new state is the one `Sell`
        describes, so `SellConserves` applies to it. As in the source, the
        account is opened and debited before the pool arithmetic, so a swap
        that fails keeps the debit. */
    method SellDollars(trader: Owner, dollars: Positive.PositiveDecimal) returns (r: Result<Positive.PositiveDecimal>)
      modifies this
      ensures var s := Sell(old(accounts), old(poolUsd), old(poolEuro), trader, dollars, Dollars);
        r == s.result && accounts == s.accounts && poolUsd == s.poolIn && poolEuro == s.poolOut
      ensures r.Ok? || r == Err(Underflow) ==>
        Total(Dollars) == old(Total(Dollars)) && Total(Euros) == old(Total(Euros))
      ensures r == Err(ZeroPositive) ==>
        Total(Dollars) + dollars == old(Total(Dollars)) && Total(Euros) == old(Total(Euros))
    {
      SellConserves(accounts, poolUsd, poolEuro, trader, dollars, Dollars);
      var poolUsd0 := poolUsd;
      var poolEuro0 := poolEuro;
      var owner := Lookup(accounts, trader);
      accounts := accounts[trader := owner];
      var debit, usd := UnsignedOps.CheckedSubAssign(owner.usd, PositiveOps.IntoUnsigned(dollars));
      if debit.Err? {
        SellShort(old(accounts), poolUsd0, poolEuro0, trader, dollars, Dollars);
        return Err(debit.error);
      }
      Overwrite(old(accounts), trader, owner, owner.(usd := usd));
      owner := owner.(usd := usd);
      accounts := accounts[trader := owner];

      var k := UnsignedOps.Mul(PositiveOps.IntoUnsigned(poolUsd0), PositiveOps.IntoUnsigned(poolEuro0));
      var newPoolUsd := PositiveOps.AddAssign(poolUsd0, dollars);
      var newPoolEuro := PositiveOps.New(UnsignedOps.IntoDecimal(UnsignedOps.Div(k, newPoolUsd)));
      SwapSteps(poolUsd0, poolEuro0, dollars);
      if newPoolEuro.Err? {
        SellStuck(old(accounts), poolUsd0, poolEuro0, trader, dollars, Dollars, owner);
        return Err(newPoolEuro.error);
      }
      SwapBounds(poolUsd0, poolEuro0, dollars);
      var eurosBought := PositiveOps.CheckedSub(poolEuro0, newPoolEuro.value).Extract();
      var euro := UnsignedOps.AddAssign(owner.euro, PositiveOps.IntoUnsigned(eurosBought));
      ghost var debited := owner;
      Overwrite(old(accounts), trader, owner, owner.(euro := euro));
      owner := owner.(euro := euro);
      SellDone(old(accounts), poolUsd0, poolEuro0, trader, dollars, Dollars, debited, eurosBought, owner);
      accounts := accounts[trader := owner];
      poolUsd := newPoolUsd;
      poolEuro := newPoolEuro.value;
      r := Ok(eurosBought);
    }

    /** `sell_euros`: `sell_dollars` with the currencies swapped. */
    method SellEuros(trader: Owner, euros: Positive.PositiveDecimal) returns (r: Result<Positive.PositiveDecimal>)
      modifies this
      ensures var s := Sell(old(accounts), old(poolEuro), old(poolUsd), trader, euros, Euros);
        r == s.result && accounts == s.accounts && poolEuro == s.poolIn && poolUsd == s.poolOut
      ensures r.Ok? || r == Err(Underflow) ==>
        Total(Dollars) == old(Total(Dollars)) && Total(Euros) == old(Total(Euros))
      ensures r == Err(ZeroPositive) ==>
        Total(Dollars) == old(Total(Dollars)) && Total(Euros) + euros == old(Total(Euros))
    {
      SellConserves(accounts, poolEuro, poolUsd, trader, euros, Euros);
      var poolUsd0 := poolUsd;
      var poolEuro0 := poolEuro;
      var owner := Lookup(accounts, trader);
      accounts := accounts[trader := owner];
      var debit, euro := UnsignedOps.CheckedSubAssign(owner.euro, PositiveOps.IntoUnsigned(euros));
      if debit.Err? {
        SellShort(old(accounts), poolEuro0, poolUsd0, trader, euros, Euros);
        return Err(debit.error);
      }
      Overwrite(old(accounts), trader, owner, owner.(euro := euro));
      owner := owner.(euro := euro);
      accounts := accounts[trader := owner];

      var k := UnsignedOps.Mul(PositiveOps.IntoUnsigned(poolUsd0), PositiveOps.IntoUnsigned(poolEuro0));
      var newPoolEuro := PositiveOps.AddAssign(poolEuro0, euros);
      var newPoolUsd := PositiveOps.New(UnsignedOps.IntoDecimal(UnsignedOps.Div(k, newPoolEuro)));
      SwapSteps(poolEuro0, poolUsd0, euros);
      if newPoolUsd.Err? {
        SellStuck(old(accounts), poolEuro0, poolUsd0, trader, euros, Euros, owner);
        return Err(newPoolUsd.error);
      }
      SwapBounds(poolEuro0, poolUsd0, euros);
      var dollarsBought := PositiveOps.CheckedSub(poolUsd0, newPoolUsd.value).Extract();
      var usd := UnsignedOps.AddAssign(owner.usd, PositiveOps.IntoUnsigned(dollarsBought));
      ghost var debited := owner;
      Overwrite(old(accounts), trader, owner, owner.(usd := usd));
      owner := owner.(usd := usd);
      SellDone(old(accounts), poolEuro0, poolUsd0, trader, euros, Euros, debited, dollarsBought, owner);
      accounts := accounts[trader := owner];
      poolUsd := newPoolUsd.value;
      poolEuro := newPoolEuro;
      r := Ok(dollarsBought);
    }

    /** `list_owners`: up to `Limit` owners in key order, starting after the
        cursor when one is given. */
    method ListOwners(startAfter: Option<Owner>) returns (owners: seq<Owner>)
      ensures owners == Page(accounts.Keys, startAfter)
    {
      var rest := match startAfter
        case None => accounts.Keys
        case Some(cursor) => set k | k in accounts.Keys && Less(cursor, k);
      ghost var all := rest;
      assert all == After(accounts.Keys, startAfter);
      owners := [];
      while |owners| < Limit && rest != {}
        invariant |owners| <= Limit
        invariant owners + Sorted(rest) == Sorted(all)
        decreases |rest|
      {
        LeastExists(rest);
        var next :| IsLeast(next, rest);
        ListingStep(owners, rest, all, next);
        owners := owners + [next];
        rest := rest - {next};
      }
      TakeStopped(owners, Sorted(rest), Limit);
      PageIsPrefix(accounts.Keys, startAfter);
    }
  }

  /** A sorted listing starts with the least element. */
  lemma SortedFromLeast(s: set<Owner>, m: Owner)
    requires IsLeast(m, s)
    ensures Sorted(s) == [m] + Sorted(s - {m})
  {
    LeastUnique(m, Least(s), s);
  }

  /** One step of the listing loop: moving the least remaining owner to the
      listed ones keeps the listed and the remaining owners, in that order,
      equal to the sorted listing. */
  lemma ListingStep(listed: seq<Owner>, rest: set<Owner>, all: set<Owner>, next: Owner)
    requires listed + Sorted(rest) == Sorted(all) && IsLeast(next, rest)
    ensures (listed + [next]) + Sorted(rest - {next}) == Sorted(all)
  {
    SortedFromLeast(rest, next);
    assert (listed + [next]) + Sorted(rest - {next}) == listed + ([next] + Sorted(rest - {next}));
  }

  /** Where the listing loop stops, it holds the first `n` owners or all. */
  lemma TakeStopped(taken: seq<Owner>, rest: seq<Owner>, n: nat)
    requires |taken| <= n && (|taken| == n || rest == [])
    ensures Take(taken + rest, n) == taken
  {
    assert (taken + rest)[..|taken|] == taken;
  }
}
