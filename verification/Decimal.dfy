/**
 Number tokens: the canonical form the strict decoder accepts, and the 64-bit conversion of
 `strconv.ParseUint` with its overflow tests on wrapping arithmetic.
 */
module Decimal {
  import opened Strings

  const TWO_64: nat := 0x1_0000_0000_0000_0000

  predicate IsDigit(c: char) {
    '0' <= c <= '9'
  }

  function DigitValue(c: char): (d: nat)
    requires IsDigit(c)
    ensures d < 10
  {
    c as int - '0' as int
  }

  function DigitOf(d: nat): (c: char)
    requires d < 10
    ensures IsDigit(c) && DigitValue(c) == d
  {
    ('0' as int + d) as char
  }

  /** The decimal printing of a natural number. */
  function Print(n: nat): (s: string)
    ensures s != [] && AllDigits(s)
  {
    if n < 10 then [DigitOf(n)] else Print(n / 10) + [DigitOf(n % 10)]
  }

  predicate AllDigits(s: string) {
    forall i | 0 <= i < |s| :: IsDigit(s[i])
  }

  /** The number a digit string denotes, leading zeros included. */
  function Value(s: string): nat
    requires AllDigits(s)
  {
    if s == [] then 0 else 10 * Value(s[..|s| - 1]) + DigitValue(s[|s| - 1])
  }

  predicate Canonical(s: string) {
    s != [] && AllDigits(s) && (s[0] == '0' ==> s == "0")
  }

  /** `s` is the printing of some natural number. */
  ghost predicate IsPrinted(s: string) {
    exists n: nat :: Print(n) == s
  }

  lemma {:induction false} ValueOfPrint(n: nat)
    ensures Value(Print(n)) == n && Canonical(Print(n))
    ensures Print(n)[0] == '0' ==> n == 0
  {
    if n >= 10 {
      ValueOfPrint(n / 10);
      assert Print(n)[..|Print(n)| - 1] == Print(n / 10);
      assert Print(n)[0] == Print(n / 10)[0];
    }
  }

  lemma {:induction false} PrintOfValue(s: string)
    requires Canonical(s)
    ensures Print(Value(s)) == s
    ensures s[0] != '0' ==> Value(s) > 0
  {
    if |s| == 1 {
      assert s[..0] == [] && s == [s[0]];
      assert DigitOf(DigitValue(s[0])) == s[0];
    } else {
      var front, last := s[..|s| - 1], s[|s| - 1];
      PrintOfValue(front);
      assert Value(s) / 10 == Value(front) && Value(s) % 10 == DigitValue(last);
      assert DigitOf(DigitValue(last)) == last;
      assert s == front + [last];
    }
  }

  /** Canonical number strings and naturals correspond one to one. */
  lemma {:induction false} CanonicalBijection(s: string, m: nat, n: nat)
    ensures Canonical(s) <==> IsPrinted(s)
    ensures Print(m) == Print(n) ==> m == n
  {
    ValueOfPrint(m);
    ValueOfPrint(n);
    if Canonical(s) { PrintOfValue(s); }
    forall k: nat | Print(k) == s ensures Canonical(s) { ValueOfPrint(k); }
  }

  method CanonicalUnsignedNumber(value: string) returns (ok: bool)
    ensures ok <==> IsPrinted(value)
  {
    CanonicalBijection(value, 0, 0);
    if value == "0" {
      return true;
    }
    if |value| == 0 || value[0] < '1' || value[0] > '9' {
      return false;
    }
    var index := 1;
    while index < |value|
      invariant 1 <= index <= |value|
      invariant forall i | 0 <= i < index :: IsDigit(value[i])
    {
      if value[index] < '0' || value[index] > '9' {
        return false;
      }
      index := index + 1;
    }
    return true;
  }

  /** A digit string denotes at least what its prefixes denote. */
  lemma {:induction false} PrefixValue(s: string, n: nat)
    requires n <= |s| && AllDigits(s)
    ensures Value(s[..n]) <= Value(s)
  {
    if n == |s| {
      assert s[..n] == s;
    } else {
      var front := s[..|s| - 1];
      PrefixValue(front, n);
      assert front[..n] == s[..n];
    }
  }

  const CUTOFF: nat := (TWO_64 - 1) / 10 + 1

  /**
   `strconv.ParseUint(s, 10, 64)`: the product cannot wrap below CUTOFF, and a wrapped sum shows
   as a decrease.
   */
  method ParseUint(s: string) returns (r: Option<nat>)
    ensures r.Some? <==> s != [] && AllDigits(s) && Value(s) < TWO_64
    ensures r.Some? ==> r.value == Value(s)
  {
    if s == [] {
      return None;
    }
    var n, i := 0, 0;
    assert s[..0] == [];
    while i < |s|
      invariant 0 <= i <= |s| && AllDigits(s[..i])
      invariant n == Value(s[..i]) < TWO_64
    {
      if !IsDigit(s[i]) {
        return None;
      }
      assert s[..i + 1][..i] == s[..i] && s[..i + 1][i] == s[i];
      assert Value(s[..i + 1]) == 10 * n + DigitValue(s[i]);
      ghost var overflow := Value(s[..i + 1]) >= TWO_64 && AllDigits(s);
      if overflow { PrefixValue(s, i + 1); }
      if n >= CUTOFF {
        return None;
      }
      var product := n * 10;
      var sum := (product + DigitValue(s[i])) % TWO_64;
      if sum < product {
        return None;
      }
      n, i := sum, i + 1;
    }
    assert s[..i] == s;
    return Some(n);
  }

  /** On canonical tokens `ParseUint` accepts exactly the printings of the numbers below 2^64. */
  lemma {:induction false} AcceptedTokens(token: string, n: nat)
    requires Canonical(token)
    ensures Value(token) == n <==> Print(n) == token
  {
    PrintOfValue(token);
    ValueOfPrint(n);
  }
}
