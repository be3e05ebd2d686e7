/** Decimal digit strings and the small string operations of Rust's standard
    library that the parsers and formatters rely on: `u128::from_str`, the
    `{}` rendering of an integer, `str::split_once` and `str::trim`. */
module Text {
  import opened Outcome

  function Pow10(n: nat): (r: nat)
    ensures r > 0
  {
    if n == 0 then 1 else 10 * Pow10(n - 1)
  }

  lemma Pow10Grows(m: nat, n: nat)
    requires m <= n
    ensures Pow10(m) <= Pow10(n)
  {
    if m < n {
      Pow10Grows(m, n - 1);
    }
  }

  predicate IsDigit(c: char) {
    '0' <= c <= '9'
  }

  predicate AllDigits(s: string) {
    forall i :: 0 <= i < |s| ==> IsDigit(s[i])
  }

  function DigitValue(c: char): (d: nat)
    requires IsDigit(c)
    ensures d < 10
  {
    c as int - '0' as int
  }

  function DigitChar(d: nat): (c: char)
    requires d < 10
    ensures IsDigit(c) && DigitValue(c) == d
  {
    ('0' as int + d) as char
  }

  /** The number denoted by a string of decimal digits, most significant first. */
  function DigitsValue(s: string): nat
    requires AllDigits(s)
  {
    if s == [] then 0 else DigitsValue(s[..|s| - 1]) * 10 + DigitValue(s[|s| - 1])
  }

  /** A string of `n` digits denotes a number below 10^n. */
  lemma {:induction false} DigitsValueBound(s: string)
    requires AllDigits(s)
    ensures DigitsValue(s) < Pow10(|s|)
  {
    if s != [] {
      DigitsValueBound(s[..|s| - 1]);
    }
  }

  /** Rust's `u128::from_str` on unbounded integers: the text must be a
      non-empty run of ASCII digits (leading zeros allowed). */
  function ParseNat(s: string): (r: Result<nat>)
    ensures r.Ok? <==> s != [] && AllDigits(s)
  {
    if s != [] && AllDigits(s) then Ok(DigitsValue(s)) else Err(InvalidDigit)
  }

  /** Rust's `{}` rendering of an unsigned integer: decimal digits without
      leading zeros ("0" for zero). */
  function NatToString(n: nat): (s: string)
    ensures 1 <= |s| && AllDigits(s)
  {
    if n < 10 then [DigitChar(n)] else NatToString(n / 10) + [DigitChar(n % 10)]
  }

  /** Multiplying a positive number by ten appends a '0' to its digits. */
  lemma AppendZero(n: nat)
    requires n > 0
    ensures NatToString(n * 10) == NatToString(n) + "0"
  {
    assert (n * 10) / 10 == n && (n * 10) % 10 == 0;
    assert DigitChar(0) == '0';
  }

  lemma {:induction false} NatToStringValue(n: nat)
    ensures DigitsValue(NatToString(n)) == n
  {
    var s := NatToString(n);
    if n >= 10 {
      assert s[..|s| - 1] == NatToString(n / 10);
      NatToStringValue(n / 10);
    }
  }

  lemma ParseNatToString(n: nat)
    ensures ParseNat(NatToString(n)) == Ok(n)
  {
    NatToStringValue(n);
  }

  /** A number below 10^d renders in at most `d` digits. */
  lemma {:induction false} NatToStringShort(n: nat, d: nat)
    requires 1 <= d && n < Pow10(d)
    ensures |NatToString(n)| <= d
  {
    if n >= 10 {
      NatToStringShort(n / 10, d - 1);
    }
  }

  /** A number of exactly `d` digits renders in exactly `d` characters. */
  lemma {:induction false} NatToStringLength(n: nat, d: nat)
    requires 1 <= d && Pow10(d - 1) <= n < Pow10(d)
    ensures |NatToString(n)| == d
  {
    if n >= 10 {
      NatToStringLength(n / 10, d - 1);
    }
  }

  /** The last `w` decimal digits of `n`, zero-padded on the left. */
  function FixedDigits(n: nat, w: nat): (s: string)
    ensures |s| == w && AllDigits(s)
  {
    if w == 0 then [] else FixedDigits(n / 10, w - 1) + [DigitChar(n % 10)]
  }

  lemma {:induction false} FixedDigitsValue(n: nat, w: nat)
    requires n < Pow10(w)
    ensures DigitsValue(FixedDigits(n, w)) == n
  {
    if w > 0 {
      var s := FixedDigits(n, w);
      var prefix := FixedDigits(n / 10, w - 1);
      assert s == prefix + [DigitChar(n % 10)];
      assert s[..w - 1] == prefix;
      assert n / 10 < Pow10(w - 1);
      FixedDigitsValue(n / 10, w - 1);
      assert DigitsValue(s) == DigitsValue(prefix) * 10 + n % 10;
    }
  }

  /** Without leading zeros to pad, the fixed-width rendering is the ordinary one. */
  lemma {:induction false} FixedDigitsIsNatToString(n: nat, w: nat)
    requires 1 <= w && Pow10(w - 1) <= n < Pow10(w)
    ensures FixedDigits(n, w) == NatToString(n)
  {
    if w > 1 {
      FixedDigitsIsNatToString(n / 10, w - 1);
    }
  }

  /** Arithmetic helper for the power-of-ten proofs: regrouping a factor of ten. */
  lemma TimesTen(a: nat, b: nat)
    ensures a * (10 * b) == (a * b) * 10
  {
  }

  /** `s` with every trailing '0' removed. */
  function TrimTrailingZeros(s: string): (t: string)
    ensures |t| <= |s| && t == s[..|t|]
  {
    if s != [] && s[|s| - 1] == '0' then TrimTrailingZeros(s[..|s| - 1]) else s
  }

  /** Dropping trailing zeros divides the denoted number by a power of ten. */
  lemma {:induction false} TrimTrailingZerosValue(s: string)
    requires AllDigits(s)
    ensures AllDigits(TrimTrailingZeros(s))
    ensures DigitsValue(TrimTrailingZeros(s)) * Pow10(|s| - |TrimTrailingZeros(s)|) == DigitsValue(s)
    ensures DigitsValue(s) != 0 ==> TrimTrailingZeros(s) != []
  {
    var t := TrimTrailingZeros(s);
    if s != [] && s[|s| - 1] == '0' {
      var p := s[..|s| - 1];
      TrimTrailingZerosValue(p);
      assert t == TrimTrailingZeros(p);
      var k := |p| - |t|;
      assert |s| - |t| == k + 1;
      TimesTen(DigitsValue(t), Pow10(k));
      calc {
        DigitsValue(t) * Pow10(|s| - |t|);
        DigitsValue(t) * Pow10(k + 1);
        DigitsValue(t) * (10 * Pow10(k));
        (DigitsValue(t) * Pow10(k)) * 10;
        DigitsValue(p) * 10;
        DigitsValue(s);
      }
    }
  }

  /** The first index of `c` in `s`, if any. */
  function IndexOf(s: string, c: char): (r: Option<nat>)
    ensures r.None? <==> c !in s
    ensures r.Some? ==> r.value < |s| && s[r.value] == c && c !in s[..r.value]
  {
    if s == [] then None
    else if s[0] == c then Some(0)
    else match IndexOf(s[1..], c)
      case None => None
      case Some(i) => assert s[1..][..i] == s[1..i + 1]; Some(i + 1)
  }

  /** Rust's `str::split_once`: the text before and after the first `c`. */
  function SplitOnce(s: string, c: char): (r: Option<(string, string)>)
    ensures r.None? <==> c !in s
  {
    match IndexOf(s, c)
    case None => None
    case Some(i) => Some((s[..i], s[i + 1..]))
  }

  lemma SplitOnceAt(a: string, c: char, b: string)
    requires c !in a
    ensures SplitOnce(a + [c] + b, c) == Some((a, b))
  {
    var s := a + [c] + b;
    assert s[..|a|] == a && s[|a|] == c && s[|a| + 1..] == b;
  }

  /** The pieces of a split join back, around the separator, to the text. */
  lemma SplitOnceJoin(s: string, c: char)
    requires c in s
    ensures SplitOnce(s, c).Some? && c !in SplitOnce(s, c).value.0
    ensures s == SplitOnce(s, c).value.0 + [c] + SplitOnce(s, c).value.1
  {
    var i := IndexOf(s, c).value;
    assert s == s[..i] + [c] + s[i + 1..];
  }

  /** The ASCII characters Rust's `char::is_whitespace` accepts. */
  predicate IsWhitespace(c: char) {
    c == ' ' || c == '\t' || c == '\n' || c == '\r' || c == '\U{0B}' || c == '\U{0C}'
  }

  function TrimStart(s: string): (t: string)
    ensures |t| <= |s| && t == s[|s| - |t|..]
    ensures t != [] ==> !IsWhitespace(t[0])
    ensures forall k :: 0 <= k < |s| - |t| ==> IsWhitespace(s[k])
  {
    if s != [] && IsWhitespace(s[0]) then TrimStart(s[1..]) else s
  }

  function TrimEnd(s: string): (t: string)
    ensures |t| <= |s| && t == s[..|t|]
    ensures t != [] ==> !IsWhitespace(t[|t| - 1])
    ensures forall k :: |t| <= k < |s| ==> IsWhitespace(s[k])
  {
    if s != [] && IsWhitespace(s[|s| - 1]) then TrimEnd(s[..|s| - 1]) else s
  }

  /** Rust's `str::trim`, for the whitespace characters above: the slice of
      the text left after dropping whitespace, and only whitespace, from both
      ends, with no whitespace left at either end. */
  function Trim(s: string): (t: string)
    ensures |t| <= |s|
    ensures
      exists i, j :: 0 <= i <= j <= |s| && t == s[i..j] &&
        (forall k :: 0 <= k < i ==> IsWhitespace(s[k])) &&
        (forall k :: j <= k < |s| ==> IsWhitespace(s[k]))
    ensures t != [] ==> !IsWhitespace(t[0]) && !IsWhitespace(t[|t| - 1])
    ensures s != [] && !IsWhitespace(s[0]) && !IsWhitespace(s[|s| - 1]) ==> t == s
  {
    var u := TrimStart(s);
    var t := TrimEnd(u);
    TrimSlice(s, u, t, |s| - |u|);
    t
  }

  /** Helper for Trim: removing whitespace from the start of `s`, then from
      the end of what remains, leaves a slice of `s` with only whitespace
      around it. */
  lemma TrimSlice(s: string, u: string, t: string, start: nat)
    requires start <= |s| && u == s[start..] && |t| <= |u| && t == u[..|t|]
    requires forall k :: 0 <= k < start ==> IsWhitespace(s[k])
    requires forall k :: |t| <= k < |u| ==> IsWhitespace(u[k])
    ensures
      exists i, j :: 0 <= i <= j <= |s| && t == s[i..j] &&
        (forall k :: 0 <= k < i ==> IsWhitespace(s[k])) &&
        (forall k :: j <= k < |s| ==> IsWhitespace(s[k]))
  {
    var j := start + |t|;
    assert t == s[start..j];
    forall k | j <= k < |s|
      ensures IsWhitespace(s[k])
    {
      assert s[k] == u[k - start];
    }
  }
}
