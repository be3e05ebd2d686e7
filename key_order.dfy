/** The order in which a `BTreeMap<String, _>` keeps its keys. Rust compares
    strings byte by byte, which for UTF-8 text is the order of code points:
    here, the lexicographic order on characters. */
module KeyOrder {

  /** `a < b` on strings: a proper prefix is smaller, otherwise the first
      differing character decides. */
  predicate Less(a: string, b: string) {
    if a == [] then b != []
    else b != [] && (a[0] < b[0] || (a[0] == b[0] && Less(a[1..], b[1..])))
  }

  lemma {:induction false} LessIrreflexive(a: string)
    ensures !Less(a, a)
  {
    if a != [] {
      LessIrreflexive(a[1..]);
    }
  }

  lemma {:induction false} LessTransitive(a: string, b: string, c: string)
    requires Less(a, b) && Less(b, c)
    ensures Less(a, c)
  {
    if a != [] && a[0] == b[0] && b[0] == c[0] {
      LessTransitive(a[1..], b[1..], c[1..]);
    }
  }

  lemma {:induction false} LessTotal(a: string, b: string)
    requires a != b
    ensures Less(a, b) || Less(b, a)
  {
    if a != [] && b != [] && a[0] == b[0] {
      assert a == [a[0]] + a[1..] && b == [b[0]] + b[1..];
      LessTotal(a[1..], b[1..]);
    }
  }

  lemma LessAsymmetric(a: string, b: string)
    requires Less(a, b)
    ensures !Less(b, a)
  {
    if Less(b, a) {
      LessTransitive(a, b, a);
      LessIrreflexive(a);
    }
  }

  predicate IsLeast(m: string, s: set<string>) {
    m in s && forall k :: k in s ==> !Less(k, m)
  }

  /** Every non-empty finite set of strings has a least element. */
  lemma {:induction false} LeastExists(s: set<string>)
    requires s != {}
    ensures exists m :: IsLeast(m, s)
    decreases |s|
  {
    var x :| x in s;
    if s - {x} == {} {
      assert s == {x};
      LessIrreflexive(x);
      assert IsLeast(x, s);
    } else {
      LeastExists(s - {x});
      var m :| IsLeast(m, s - {x});
      if Less(x, m) {
        forall k | k in s
          ensures !Less(k, x)
        {
          LessIrreflexive(x);
          if k != x && Less(k, x) {
            LessTransitive(k, x, m);
          }
        }
        LessIrreflexive(x);
        assert IsLeast(x, s);
      } else {
        assert IsLeast(m, s);
      }
    }
  }

  /** The least element is unique, and below every other element. */
  lemma LeastUnique(m: string, n: string, s: set<string>)
    requires IsLeast(m, s) && IsLeast(n, s)
    ensures m == n
  {
    if m != n {
      LessTotal(m, n);
    }
  }

  lemma LeastBelowOthers(m: string, s: set<string>)
    requires IsLeast(m, s)
    ensures forall k :: k in s && k != m ==> Less(m, k)
  {
    forall k | k in s && k != m
      ensures Less(m, k)
    {
      LessTotal(m, k);
    }
  }

  ghost function Least(s: set<string>): (m: string)
    requires s != {}
    ensures IsLeast(m, s)
  {
    LeastExists(s);
    var m :| IsLeast(m, s); m
  }

  predicate StrictlyIncreasing(r: seq<string>) {
    forall i, j :: 0 <= i < j < |r| ==> Less(r[i], r[j])
  }

  /** The elements of `s` in increasing order: the order in which a
      `BTreeMap` with key set `s` yields its keys. `SortedListing` states
      that it is increasing and lists exactly `s`. */
  ghost function Sorted(s: set<string>): (r: seq<string>)
    ensures |r| == |s|
    decreases |s|
  {
    if s == {} then [] else [Least(s)] + Sorted(s - {Least(s)})
  }

  lemma {:induction false} SortedListing(s: set<string>)
    ensures StrictlyIncreasing(Sorted(s))
    ensures forall k :: k in Sorted(s) <==> k in s
    decreases |s|
  {
    if s != {} {
      var m := Least(s);
      var rest := Sorted(s - {m});
      SortedListing(s - {m});
      LeastBelowOthers(m, s);
      assert Sorted(s) == [m] + rest;
      forall i, j | 0 <= i < j < |Sorted(s)|
        ensures Less(Sorted(s)[i], Sorted(s)[j])
      {
        if i > 0 {
          assert Sorted(s)[i] == rest[i - 1];
        }
        assert Sorted(s)[j] == rest[j - 1] && rest[j - 1] in s - {m};
      }
    }
  }

  /** A strictly increasing listing of exactly the elements of `s` is the
      sorted one. */
  lemma {:induction false} SortedUnique(r: seq<string>, s: set<string>)
    requires StrictlyIncreasing(r)
    requires forall k :: k in r <==> k in s
    ensures r == Sorted(s)
    decreases |r|
  {
    if r == [] {
      assert s == {};
    } else {
      var m := r[0];
      forall k | k in s
        ensures !Less(k, m)
      {
        var j :| 0 <= j < |r| && r[j] == k;
        if j > 0 {
          LessAsymmetric(m, k);
        } else {
          LessIrreflexive(m);
        }
      }
      assert m in s;
      LeastUnique(m, Least(s), s);
      forall j | 1 <= j < |r|
        ensures r[j] != m
      {
        LessIrreflexive(m);
      }
      assert forall k :: k in r[1..] <==> k in s - {m} by {
        assert r == [m] + r[1..];
      }
      SortedUnique(r[1..], s - {m});
    }
  }

  /** The elements of `s` strictly above `bound`. */
  ghost function Above(s: set<string>, bound: string): (a: set<string>)
    ensures a <= s
  {
    set k | k in s && Less(bound, k)
  }

  lemma SuffixIncreasing(r: seq<string>, n: nat)
    requires StrictlyIncreasing(r) && n <= |r|
    ensures StrictlyIncreasing(r[n..])
  {
    forall i, j | 0 <= i < j < |r| - n
      ensures Less(r[n..][i], r[n..][j])
    {
      assert r[n..][i] == r[n + i] && r[n..][j] == r[n + j];
    }
  }

  /** In a strictly increasing listing, what follows position `i` is
      exactly what lies above `r[i]`. */
  lemma SuffixElements(r: seq<string>, i: nat)
    requires StrictlyIncreasing(r) && i < |r|
    ensures forall k :: k in r[i + 1..] <==> k in r && Less(r[i], k)
  {
    forall k | k in r && Less(r[i], k)
      ensures k in r[i + 1..]
    {
      var j :| 0 <= j < |r| && r[j] == k;
      if j < i {
        LessAsymmetric(r[j], r[i]);
      } else if j == i {
        LessIrreflexive(k);
      }
      assert r[i + 1..][j - i - 1] == k;
    }
  }

  /** The part of a sorted listing after position `i` is the sorted listing
      of the elements above `Sorted(s)[i]`. */
  lemma SortedSuffix(s: set<string>, i: nat)
    requires i < |s|
    ensures Sorted(s)[i + 1..] == Sorted(Above(s, Sorted(s)[i]))
  {
    var r := Sorted(s);
    var a := Above(s, r[i]);
    assert StrictlyIncreasing(r[i + 1..]) by {
      SortedListing(s);
      SuffixIncreasing(r, i + 1);
    }
    assert forall k :: k in r[i + 1..] <==> k in a by {
      SortedListing(s);
      SuffixElements(r, i);
    }
    SortedUnique(r[i + 1..], a);
  }

  /** `skip_while(|k| k <= bound)` over a listing. */
  function SkipAtMost(r: seq<string>, bound: string): (t: seq<string>)
    ensures |t| <= |r| && t == r[|r| - |t|..]
  {
    if r != [] && !Less(bound, r[0]) then SkipAtMost(r[1..], bound) else r
  }

  /** Skipping looks at the head of the listing first. */
  lemma SkipCons(m: string, rest: seq<string>, bound: string)
    ensures !Less(bound, m) ==> SkipAtMost([m] + rest, bound) == SkipAtMost(rest, bound)
    ensures Less(bound, m) ==> SkipAtMost([m] + rest, bound) == [m] + rest
  {
    assert ([m] + rest)[0] == m && ([m] + rest)[1..] == rest;
  }

  /** Skipping the keys up to `bound` in the sorted listing leaves the sorted
      listing of the keys above `bound`. */
  lemma {:induction false} SkipSorted(s: set<string>, bound: string)
    ensures SkipAtMost(Sorted(s), bound) == Sorted(Above(s, bound))
    decreases |s|
  {
    if s == {} {
      assert Above(s, bound) == {};
    } else {
      var m := Least(s);
      var rest := Sorted(s - {m});
      assert Sorted(s) == [m] + rest;
      SkipCons(m, rest, bound);
      if !Less(bound, m) {
        SkipSorted(s - {m}, bound);
        AboveWithout(s, m, bound);
      } else {
        AboveLeast(s, m, bound);
      }
    }
  }

  lemma AboveWithout(s: set<string>, m: string, bound: string)
    requires !Less(bound, m)
    ensures Above(s - {m}, bound) == Above(s, bound)
  {
  }

  /** Everything lies above a bound below the least element. */
  lemma AboveLeast(s: set<string>, m: string, bound: string)
    requires IsLeast(m, s) && Less(bound, m)
    ensures Above(s, bound) == s
  {
    LeastBelowOthers(m, s);
    forall k | k in s
      ensures Less(bound, k)
    {
      if k != m {
        LessTransitive(bound, m, k);
      }
    }
  }
}
