/**
 * Shared vocabulary of the model: optional values and errors (Ruby's nil and
 * exceptions), decimal rendering of integers (Ruby's Integer#to_s) and the
 * ordering of strings (Ruby's String#<=>).
 */
module Common {

  /** Ruby's nil or a value. */
  datatype Option<+T> = None | Some(value: T) {
    function GetOr(default: T): T {
      match this
      case Some(v) => v
      case None => default
    }
  }

  /** A value, or the exception the Ruby code raises (or the exit it takes). */
  datatype Result<+T, +E> = Ok(value: T) | Err(error: E)

  /** No `${` anywhere in `s`, so no template placeholder can start in it. */
  predicate NoOpening(s: string)
  {
    forall i :: 0 <= i < |s| - 1 ==> !(s[i] == '$' && s[i + 1] == '{')
  }

  lemma NoOpeningConcat(a: string, b: string)
    requires NoOpening(a) && NoOpening(b)
    requires a == [] || b == [] || a[|a| - 1] != '$' || b[0] != '{'
    ensures NoOpening(a + b)
  {
    forall i | 0 <= i < |a + b| - 1
      ensures !((a + b)[i] == '$' && (a + b)[i + 1] == '{')
    {
      if i + 1 < |a| {
        assert (a + b)[i] == a[i] && (a + b)[i + 1] == a[i + 1];
      } else if i >= |a| {
        assert (a + b)[i] == b[i - |a|] && (a + b)[i + 1] == b[i + 1 - |a|];
      }
    }
  }

  // ---------------------------------------------------------------------
  // Decimal rendering, as "#{n}" renders a non-negative Integer
  // ---------------------------------------------------------------------

  predicate IsDigit(c: char) { '0' <= c <= '9' }

  function DigitChar(d: nat): (c: char)
    requires d < 10
    ensures IsDigit(c)
  {
    ['0', '1', '2', '3', '4', '5', '6', '7', '8', '9'][d]
  }

  function DigitValue(c: char): (d: nat)
    requires IsDigit(c)
    ensures d < 10 && DigitChar(d) == c
  {
    (c as int - '0' as int)
  }

  /** The decimal digits of `n`, most significant first, no leading zero. */
  function Decimal(n: nat): (s: string)
    ensures |s| >= 1
    ensures forall i :: 0 <= i < |s| ==> IsDigit(s[i])
    ensures |s| > 1 ==> s[0] != '0'
  {
    if n < 10 then [DigitChar(n)] else Decimal(n / 10) + [DigitChar(n % 10)]
  }

  /** The value of a string of decimal digits. */
  function DecimalValue(s: string): nat
    requires forall i :: 0 <= i < |s| ==> IsDigit(s[i])
  {
    if s == [] then 0 else 10 * DecimalValue(s[..|s| - 1]) + DigitValue(s[|s| - 1])
  }

  /** Reading back a rendered decimal gives the number: "#{n}" loses nothing. */
  lemma {:induction false} DecimalRoundTrip(n: nat)
    ensures DecimalValue(Decimal(n)) == n
  {
    var s := Decimal(n);
    if n >= 10 {
      DecimalRoundTrip(n / 10);
      assert s[..|s| - 1] == Decimal(n / 10);
      assert DigitValue(s[|s| - 1]) == n % 10;
    } else {
      assert DigitValue(s[0]) == n by { assert DigitChar(DigitValue(s[0])) == DigitChar(n); }
    }
  }

  /** Distinct numbers render as distinct strings. */
  lemma DecimalInjective(m: nat, n: nat)
    requires Decimal(m) == Decimal(n)
    ensures m == n
  {
    DecimalRoundTrip(m);
    DecimalRoundTrip(n);
  }

  // ---------------------------------------------------------------------
  // String ordering (String#<=>: character by character, a proper prefix first)
  // ---------------------------------------------------------------------

  predicate StrLe(a: string, b: string)
    decreases |a|
  {
    if a == [] then true
    else if b == [] then false
    else if a[0] != b[0] then a[0] < b[0]
    else StrLe(a[1..], b[1..])
  }

  lemma {:induction false} StrLeRefl(a: string)
    ensures StrLe(a, a)
    decreases |a|
  {
    if a != [] { StrLeRefl(a[1..]); }
  }

  lemma {:induction false} StrLeTotal(a: string, b: string)
    ensures StrLe(a, b) || StrLe(b, a)
    decreases |a|
  {
    if a != [] && b != [] && a[0] == b[0] { StrLeTotal(a[1..], b[1..]); }
  }

  lemma {:induction false} StrLeTrans(a: string, b: string, c: string)
    requires StrLe(a, b) && StrLe(b, c)
    ensures StrLe(a, c)
    decreases |a|
  {
    if a != [] && b != [] && c != [] && a[0] == b[0] && b[0] == c[0] {
      StrLeTrans(a[1..], b[1..], c[1..]);
    }
  }

  lemma {:induction false} StrLeAntisym(a: string, b: string)
    requires StrLe(a, b) && StrLe(b, a)
    ensures a == b
    decreases |a|
  {
    if a != [] && b != [] {
      StrLeAntisym(a[1..], b[1..]);
      assert a == [a[0]] + a[1..] && b == [b[0]] + b[1..];
    }
  }

  lemma NoOpeningSlice(s: string, i: nat, j: nat)
    requires NoOpening(s) && i <= j <= |s|
    ensures NoOpening(s[i..j])
  {
    forall k | 0 <= k < |s[i..j]| - 1 ensures !(s[i..j][k] == '$' && s[i..j][k + 1] == '{') {
      assert s[i..j][k] == s[i + k] && s[i..j][k + 1] == s[i + k + 1];
    }
  }

  /** The longest suffix of `s` without `sep` (all of `s` when `sep` does not occur). */
  function AfterLast(s: string, sep: char): (seg: string)
    ensures |seg| <= |s| && s[|s| - |seg|..] == seg
    ensures forall k :: 0 <= k < |seg| ==> seg[k] != sep
    ensures |seg| < |s| ==> s[|s| - |seg| - 1] == sep
  {
    if s == [] || s[|s| - 1] == sep then []
    else
      var init := s[..|s| - 1];
      var prev := AfterLast(init, sep);
      var seg := prev + [s[|s| - 1]];
      assert s == init + [s[|s| - 1]];
      assert s[|s| - |seg|..] == init[|init| - |prev|..] + [s[|s| - 1]];
      assert |seg| < |s| ==> s[|s| - |seg| - 1] == init[|init| - |prev| - 1];
      seg
  }

  /** After `p + [sep] + t`, with no `sep` in `t`, the part after the last `sep` is `t`. */
  lemma {:induction false} AfterLastOfJoin(p: string, sep: char, t: string)
    requires forall k :: 0 <= k < |t| ==> t[k] != sep
    ensures AfterLast(p + [sep] + t, sep) == t
    decreases |t|
  {
    var s := p + [sep] + t;
    if t == [] {
      assert s[|s| - 1] == sep;
    } else {
      var n := |t| - 1;
      assert s[..|s| - 1] == p + [sep] + t[..n];
      AfterLastOfJoin(p, sep, t[..n]);
      assert t[..n] + [t[n]] == t;
    }
  }

  // ---------------------------------------------------------------------
  // Array#- : every element of `a` that does not occur in `b`, in order
  // ---------------------------------------------------------------------

  function Minus<T(==, !new)>(a: seq<T>, b: seq<T>): seq<T>
  {
    if a == [] then []
    else if a[|a| - 1] in b then Minus(a[..|a| - 1], b)
    else Minus(a[..|a| - 1], b) + [a[|a| - 1]]
  }

  /** `a - b` keeps exactly the elements of `a` that are not in `b`, and is no longer than `a`. */
  lemma {:induction false} MinusSpec<T(!new)>(a: seq<T>, b: seq<T>)
    ensures forall x :: x in Minus(a, b) <==> x in a && x !in b
    ensures |Minus(a, b)| <= |a|
  {
    if a != [] {
      var n := |a| - 1;
      MinusSpec(a[..n], b);
      assert a == a[..n] + [a[n]];
    }
  }

  /** Removing elements that are not there changes nothing. */
  lemma {:induction false} MinusDisjoint<T(!new)>(a: seq<T>, b: seq<T>)
    requires forall x :: x in a ==> x !in b
    ensures Minus(a, b) == a
  {
    if a != [] {
      MinusDisjoint(a[..|a| - 1], b);
      assert a[..|a| - 1] + [a[|a| - 1]] == a;
    }
  }

  /** Removing a superset of `a`'s elements leaves nothing. */
  lemma {:induction false} MinusCovered<T(!new)>(a: seq<T>, b: seq<T>)
    requires forall x :: x in a ==> x in b
    ensures Minus(a, b) == []
  {
    if a != [] {
      assert a[|a| - 1] in a;
      MinusCovered(a[..|a| - 1], b);
    }
  }

  lemma {:induction false} MinusConcat<T(!new)>(a: seq<T>, c: seq<T>, b: seq<T>)
    ensures Minus(a + c, b) == Minus(a, b) + Minus(c, b)
    decreases |c|
  {
    if c == [] {
      assert a + c == a;
    } else {
      var n := |c| - 1;
      assert (a + c)[..|a + c| - 1] == a + c[..n];
      MinusConcat(a, c[..n], b);
    }
  }

  // ---------------------------------------------------------------------
  // sort_by with a string key
  // ---------------------------------------------------------------------

  predicate SortedBy<T>(s: seq<T>, key: T -> string)
  {
    forall i, j :: 0 <= i < j < |s| ==> StrLe(key(s[i]), key(s[j]))
  }

  /** Inserting into a sorted list keeps it sorted and adds exactly the one element. */
  function InsertBy<T>(x: T, s: seq<T>, key: T -> string): (r: seq<T>)
    requires SortedBy(s, key)
    ensures SortedBy(r, key)
    ensures multiset(r) == multiset(s) + multiset{x} && |r| == |s| + 1
  {
    if s == [] then [x]
    else if StrLe(key(x), key(s[0])) then
      forall j | 0 <= j < |s| ensures StrLe(key(x), key(s[j])) {
        if j > 0 { StrLeTrans(key(x), key(s[0]), key(s[j])); }
      }
      ConsSorted(x, s, key);
      [x] + s
    else
      var rest := InsertBy(x, s[1..], key);
      StrLeTotal(key(x), key(s[0]));
      KeyLowerBound(s[0], rest, s[1..], x, key);
      ConsSorted(s[0], rest, key);
      assert s == [s[0]] + s[1..];
      [s[0]] + rest
  }

  /** A sorted list stays sorted with an element in front that is at most all of it. */
  lemma ConsSorted<T>(y: T, s: seq<T>, key: T -> string)
    requires SortedBy(s, key) && forall k :: 0 <= k < |s| ==> StrLe(key(y), key(s[k]))
    ensures SortedBy([y] + s, key)
  {
    forall i, j | 0 <= i < j < |[y] + s| ensures StrLe(key(([y] + s)[i]), key(([y] + s)[j])) {
      assert ([y] + s)[j] == s[j - 1];
      if i > 0 { assert ([y] + s)[i] == s[i - 1]; }
    }
  }

  /** A bound on `x` and on every element of `s` bounds every element of a permutation of both. */
  lemma KeyLowerBound<T>(y: T, rest: seq<T>, s: seq<T>, x: T, key: T -> string)
    requires multiset(rest) == multiset(s) + multiset{x}
    requires StrLe(key(y), key(x)) && SortedBy([y] + s, key)
    ensures forall k :: 0 <= k < |rest| ==> StrLe(key(y), key(rest[k]))
  {
    forall k | 0 <= k < |rest| ensures StrLe(key(y), key(rest[k])) {
      assert rest[k] in multiset(rest);
      if rest[k] != x {
        assert rest[k] in multiset(s);
        var j :| 0 <= j < |s| && s[j] == rest[k];
        assert ([y] + s)[0] == y && ([y] + s)[j + 1] == rest[k];
      }
    }
  }

  /** Insertion sort on `key`: sorted, and a permutation of the input. */
  function SortBy<T>(xs: seq<T>, key: T -> string): (r: seq<T>)
    ensures SortedBy(r, key)
    ensures multiset(r) == multiset(xs) && |r| == |xs|
  {
    if xs == [] then []
    else
      var n := |xs| - 1;
      var sorted := SortBy(xs[..n], key);
      var r := InsertBy(xs[n], sorted, key);
      assert xs == xs[..n] + [xs[n]];
      assert multiset(xs) == multiset(xs[..n]) + multiset{xs[n]};
      r
  }

  /** Dropping a suffix from a sorted list leaves only elements ordered before all of the suffix. */
  lemma MinusSuffixBefore<T(!new)>(s: seq<T>, start: nat, key: T -> string)
    requires SortedBy(s, key) && start <= |s|
    ensures forall x, y :: x in Minus(s, s[start..]) && y in s[start..] ==> StrLe(key(x), key(y))
  {
    MinusSpec(s, s[start..]);
    forall x, y | x in Minus(s, s[start..]) && y in s[start..] ensures StrLe(key(x), key(y)) {
      var i :| 0 <= i < |s| && s[i] == x;
      var j :| 0 <= j < |s| - start && s[start..][j] == y;
      assert s[start + j] == y;
    }
  }

  /** Splitting the last element off a list without repeats. */
  lemma UniqueSnoc<T>(s: seq<T>)
    requires |s| > 0 && forall i, j :: 0 <= i < j < |s| ==> s[i] != s[j]
    ensures var k := |s| - 1;
      && (forall y :: y in s <==> y in s[..k] || y == s[k])
      && s[k] !in s[..k]
      && forall i, j :: 0 <= i < j < k ==> s[..k][i] != s[..k][j]
  {
    var k := |s| - 1;
    assert s == s[..k] + [s[k]];
  }

  /** No value occurs twice. */
  ghost predicate Distinct<T(!new)>(s: seq<T>)
  {
    forall x :: multiset(s)[x] <= 1
  }

  /** `select { ... }.first` as a position: the first element satisfying `p`. */
  function FirstWhere<T>(xs: seq<T>, p: T -> bool): (r: Option<nat>)
    ensures r.None? <==> forall j :: 0 <= j < |xs| ==> !p(xs[j])
    ensures r.Some? ==> r.value < |xs| && p(xs[r.value])
    ensures r.Some? ==> forall j :: 0 <= j < r.value ==> !p(xs[j])
  {
    if xs == [] then None
    else if p(xs[0]) then Some(0)
    else
      match FirstWhere(xs[1..], p)
      case None => None
      case Some(i) => Some(i + 1)
  }
}
