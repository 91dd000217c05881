/**
 The bytes of a string. Go measures and compares strings by their bytes; `ByteLength` and `Below`
 say the same of the characters, and so do the two character predicates of the configuration.
 */
module Utf8 {
  import opened Strings

  function CharBytes(c: char): (bytes: seq<nat>)
    ensures |bytes| == ByteWidth(c)
  {
    var n := c as int;
    if n < 0x80 then [n]
    else if n < 0x800 then [0xc0 + n / 64, 0x80 + n % 64]
    else if n < 0x1_0000 then [0xe0 + n / 64 / 64, 0x80 + n / 64 % 64, 0x80 + n % 64]
    else [0xf0 + n / 64 / 64 / 64, 0x80 + n / 64 / 64 % 64, 0x80 + n / 64 % 64, 0x80 + n % 64]
  }

  function Bytes(s: string): (bytes: seq<nat>)
    ensures |bytes| == ByteLength(s)
  {
    if s == [] then [] else CharBytes(s[0]) + Bytes(s[1..])
  }

  /** The order of byte strings. */
  predicate BytesBelow(a: seq<nat>, b: seq<nat>) {
    b != [] && (a == [] || a[0] < b[0] || (a[0] == b[0] && BytesBelow(a[1..], b[1..])))
  }

  lemma {:induction false} BytesIrreflexive(a: seq<nat>)
    ensures !BytesBelow(a, a)
  {
    if a != [] { BytesIrreflexive(a[1..]); }
  }

  lemma {:induction false} BytesAsymmetric(a: seq<nat>, b: seq<nat>)
    requires BytesBelow(a, b)
    ensures !BytesBelow(b, a)
  {
    if a != [] && a[0] == b[0] { BytesAsymmetric(a[1..], b[1..]); }
  }

  lemma {:induction false} CommonPrefix(p: seq<nat>, a: seq<nat>, b: seq<nat>)
    ensures BytesBelow(p + a, p + b) <==> BytesBelow(a, b)
  {
    if p == [] {
      assert p + a == a && p + b == b;
    } else {
      assert (p + a)[1..] == p[1..] + a && (p + b)[1..] == p[1..] + b;
      CommonPrefix(p[1..], a, b);
    }
  }

  /** The first difference decides. */
  lemma {:induction false} FirstDifference(x: seq<nat>, y: seq<nat>, k: nat, a: seq<nat>, b: seq<nat>)
    requires k < |x| && k < |y| && x[..k] == y[..k] && x[k] < y[k]
    ensures BytesBelow(x + a, y + b)
  {
    assert x + a == x[..k] + (x[k..] + a) && y + b == x[..k] + (y[k..] + b);
    CommonPrefix(x[..k], x[k..] + a, y[k..] + b);
  }

  lemma {:induction false} DigitOrder(m: nat, n: nat)
    requires m < n
    ensures m / 64 <= n / 64 && (m / 64 == n / 64 ==> m % 64 < n % 64)
  {
  }

  lemma {:induction false} WiderIsLarger(c: char, d: char)
    requires c < d && ByteWidth(c) != ByteWidth(d)
    ensures CharBytes(c)[0] < CharBytes(d)[0]
  {
  }

  lemma {:induction false} TwoBytes(c: char, d: char, a: seq<nat>, b: seq<nat>)
    requires c < d && ByteWidth(c) == ByteWidth(d) == 2
    ensures BytesBelow(CharBytes(c) + a, CharBytes(d) + b)
  {
    var m, n := c as int, d as int;
    DigitOrder(m, n);
    FirstDifference(CharBytes(c), CharBytes(d), if m / 64 == n / 64 then 1 else 0, a, b);
  }

  lemma {:induction false} ThreeBytes(c: char, d: char, a: seq<nat>, b: seq<nat>)
    requires c < d && ByteWidth(c) == ByteWidth(d) == 3
    ensures BytesBelow(CharBytes(c) + a, CharBytes(d) + b)
  {
    var m, n := c as int, d as int;
    DigitOrder(m, n);
    if m / 64 == n / 64 {
      FirstDifference(CharBytes(c), CharBytes(d), 2, a, b);
    } else {
      DigitOrder(m / 64, n / 64);
      FirstDifference(CharBytes(c), CharBytes(d), if m / 64 / 64 == n / 64 / 64 then 1 else 0, a, b);
    }
  }

  lemma {:induction false} FourBytes(c: char, d: char, a: seq<nat>, b: seq<nat>)
    requires c < d && ByteWidth(c) == ByteWidth(d) == 4
    ensures BytesBelow(CharBytes(c) + a, CharBytes(d) + b)
  {
    var m, n := c as int, d as int;
    DigitOrder(m, n);
    if m / 64 == n / 64 {
      FirstDifference(CharBytes(c), CharBytes(d), 3, a, b);
    } else {
      DigitOrder(m / 64, n / 64);
      if m / 64 / 64 == n / 64 / 64 {
        FirstDifference(CharBytes(c), CharBytes(d), 2, a, b);
      } else {
        DigitOrder(m / 64 / 64, n / 64 / 64);
        FirstDifference(CharBytes(c), CharBytes(d), if m / 64 / 64 / 64 == n / 64 / 64 / 64 then 1 else 0, a, b);
      }
    }
  }

  /** A smaller character has smaller bytes, whatever follows. */
  lemma {:induction false} CharOrder(c: char, d: char, a: seq<nat>, b: seq<nat>)
    requires c < d
    ensures BytesBelow(CharBytes(c) + a, CharBytes(d) + b)
  {
    if ByteWidth(c) != ByteWidth(d) {
      WiderIsLarger(c, d);
      FirstDifference(CharBytes(c), CharBytes(d), 0, a, b);
    } else if ByteWidth(c) == 1 {
      FirstDifference(CharBytes(c), CharBytes(d), 0, a, b);
    } else if ByteWidth(c) == 2 {
      TwoBytes(c, d, a, b);
    } else if ByteWidth(c) == 3 {
      ThreeBytes(c, d, a, b);
    } else {
      FourBytes(c, d, a, b);
    }
  }

  lemma {:induction false} BelowInBytes(a: string, b: string)
    requires Below(a, b)
    ensures BytesBelow(Bytes(a), Bytes(b))
  {
    if a == [] {
      assert |Bytes(b)| > 0;
    } else if a[0] < b[0] {
      CharOrder(a[0], b[0], Bytes(a[1..]), Bytes(b[1..]));
    } else {
      BelowInBytes(a[1..], b[1..]);
      CommonPrefix(CharBytes(a[0]), Bytes(a[1..]), Bytes(b[1..]));
    }
  }

  /** Comparing characters is comparing bytes. */
  lemma {:induction false} BelowIsBytewise(a: string, b: string)
    ensures Below(a, b) <==> BytesBelow(Bytes(a), Bytes(b))
  {
    BelowTotal(a, b);
    if Below(a, b) {
      BelowInBytes(a, b);
    } else if a == b {
      BytesIrreflexive(Bytes(a));
    } else {
      BelowInBytes(b, a);
      BytesAsymmetric(Bytes(b), Bytes(a));
    }
  }

  // ----- The character predicates -----

  const LOWER: string := "abcdefghijklmnopqrstuvwxyz"
  const UPPER: string := "ABCDEFGHIJKLMNOPQRSTUVWXYZ"
  const DIGITS: string := "0123456789"
  const NAME_ALPHABET: string := LOWER + UPPER + DIGITS + "._-"

  lemma {:induction false} LowerListed(c: char)
    ensures 'a' <= c <= 'z' <==> c in LOWER
  {
    if 'a' <= c <= 'z' { assert LOWER[c as int - 'a' as int] == c; }
  }

  lemma {:induction false} UpperListed(c: char)
    ensures 'A' <= c <= 'Z' <==> c in UPPER
  {
    if 'A' <= c <= 'Z' { assert UPPER[c as int - 'A' as int] == c; }
  }

  lemma {:induction false} DigitListed(c: char)
    ensures '0' <= c <= '9' <==> c in DIGITS
  {
    if '0' <= c <= '9' { assert DIGITS[c as int - '0' as int] == c; }
  }

  lemma {:induction false} NameCharacters(c: char)
    ensures NameCharacter(c) <==> c in NAME_ALPHABET
  {
    LowerListed(c);
    UpperListed(c);
    DigitListed(c);
    assert c in "._-" <==> c == '.' || c == '_' || c == '-';
    assert c in NAME_ALPHABET <==> c in LOWER || c in UPPER || c in DIGITS || c in "._-";
  }

  lemma {:induction false} NameBytes(value: string)
    requires forall i | 0 <= i < |value| :: NameCharacter(value[i])
    ensures ByteLength(value) == |value|
  {
    if value != [] {
      assert NameCharacter(value[0]);
      NameBytes(value[1..]);
    }
  }

  /** A name is a listed text of bounded bytes that is neither of the two special directories. */
  lemma {:induction false} NameExactly(value: string, maximum: nat)
    ensures ValidName(value, maximum)
       <==> && 1 <= |Bytes(value)| <= maximum && (forall c | c in value :: c in NAME_ALPHABET)
            && value !in {".", ".."}
  {
    forall c ensures NameCharacter(c) <==> c in NAME_ALPHABET { NameCharacters(c); }
    if forall i | 0 <= i < |value| :: NameCharacter(value[i]) { NameBytes(value); }
  }

  predicate Plain(bytes: seq<nat>) {
    forall i | 0 <= i < |bytes| :: 0x20 <= bytes[i] && bytes[i] != 0x7f
  }

  lemma {:induction false} PlainBytes(value: string)
    ensures Plain(Bytes(value)) <==> forall i | 0 <= i < |value| :: 0x20 <= value[i] as int && value[i] as int != 0x7f
  {
    if value != [] {
      PlainBytes(value[1..]);
      PlainCharacter(value[0]);
      PlainTogether(CharBytes(value[0]), Bytes(value[1..]));
      assert value == [value[0]] + value[1..];
    }
  }

  lemma {:induction false} PlainCharacter(c: char)
    ensures Plain(CharBytes(c)) <==> 0x20 <= c as int && c as int != 0x7f
  {
    if ByteWidth(c) == 1 { assert CharBytes(c)[0] == c as int; }
  }

  lemma {:induction false} PlainTogether(a: seq<nat>, b: seq<nat>)
    ensures Plain(a + b) <==> Plain(a) && Plain(b)
  {
    if Plain(a + b) {
      forall i | 0 <= i < |b| ensures 0x20 <= b[i] && b[i] != 0x7f { assert b[i] == (a + b)[|a| + i]; }
      forall i | 0 <= i < |a| ensures 0x20 <= a[i] && a[i] != 0x7f { assert a[i] == (a + b)[i]; }
    }
  }

  /** A secret is a bounded number of bytes with no control byte among them. */
  lemma {:induction false} SecretExactly(value: string, maximum: nat)
    ensures ValidOpaqueSecret(value, maximum) <==> 1 <= |Bytes(value)| <= maximum && Plain(Bytes(value))
  {
    PlainBytes(value);
  }
}
