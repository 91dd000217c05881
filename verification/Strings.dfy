/**
 Strings as the broker handles them. Every string it stores or compares came out of a JSON
 decoder, so it is valid UTF-8 and a sequence of Unicode scalars describes it exactly:
 `ByteLength` is Go's `len`, and Go's bytewise `<` is the code-point order `Below`.
 */
module Strings {

  datatype Option<+T> = None | Some(value: T)

  function ByteWidth(c: char): nat {
    if c as int < 0x80 then 1 else if c as int < 0x800 then 2 else if c as int < 0x1_0000 then 3 else 4
  }

  function ByteLength(s: string): nat {
    if s == [] then 0 else ByteWidth(s[0]) + ByteLength(s[1..])
  }

  lemma {:induction false} ByteLengthConcat(a: string, b: string)
    ensures ByteLength(a + b) == ByteLength(a) + ByteLength(b)
  {
    if a == [] {
      assert a + b == b;
    } else {
      assert (a + b)[1..] == a[1..] + b;
      ByteLengthConcat(a[1..], b);
    }
  }

  /** A name character is one byte, so the length bound of `validName` counts characters. */
  predicate NameCharacter(c: char) {
    'a' <= c <= 'z' || 'A' <= c <= 'Z' || '0' <= c <= '9' || c == '.' || c == '_' || c == '-'
  }

  predicate ValidName(value: string, maximum: nat) {
    && value != "" && value != "." && value != ".." && |value| <= maximum
    && forall i | 0 <= i < |value| :: NameCharacter(value[i])
  }

  predicate ValidOpaqueSecret(value: string, maximum: nat) {
    && value != "" && ByteLength(value) <= maximum
    && forall i | 0 <= i < |value| :: 0x20 <= value[i] as int && value[i] as int != 0x7f
  }

  /** The strict lexicographic order in which Go compares strings. */
  predicate Below(a: string, b: string) {
    b != [] && (a == [] || a[0] < b[0] || (a[0] == b[0] && Below(a[1..], b[1..])))
  }

  lemma {:induction false} BelowIrreflexive(a: string)
    ensures !Below(a, a)
  {
    if a != [] { BelowIrreflexive(a[1..]); }
  }

  lemma {:induction false} BelowTransitive(a: string, b: string, c: string)
    requires Below(a, b) && Below(b, c)
    ensures Below(a, c)
  {
    if a != [] && a[0] == b[0] && b[0] == c[0] {
      BelowTransitive(a[1..], b[1..], c[1..]);
    }
  }

  lemma {:induction false} BelowTotal(a: string, b: string)
    ensures Below(a, b) || a == b || Below(b, a)
  {
    if a != [] && b != [] && a[0] == b[0] {
      BelowTotal(a[1..], b[1..]);
      assert a == [a[0]] + a[1..] && b == [b[0]] + b[1..];
    }
  }

  ghost predicate StrictlyIncreasing(s: seq<string>) {
    forall i, j | 0 <= i < j < |s| :: Below(s[i], s[j])
  }

  ghost function Elements<T>(s: seq<T>): set<T> {
    set x | x in s
  }

  lemma {:induction false} SubsetSize<T>(a: set<T>, b: set<T>)
    requires a <= b
    ensures |a| <= |b|
  {
    if a != {} {
      var x :| x in a;
      SubsetSize(a - {x}, b - {x});
    }
  }

  lemma {:induction false} NoElements<T>(s: seq<T>)
    ensures s == [] <==> Elements(s) == {}
  {
    if s != [] { assert s[0] in Elements(s); }
  }

  /** A set has one strictly increasing enumeration. */
  lemma {:induction false} EnumerationUnique(a: seq<string>, b: seq<string>)
    requires StrictlyIncreasing(a) && StrictlyIncreasing(b)
    requires Elements(a) == Elements(b)
    ensures a == b
  {
    NoElements(a);
    NoElements(b);
    if a != [] && b != [] {
      assert a[0] in Elements(b) && b[0] in Elements(a);
      var i :| 0 <= i < |b| && b[i] == a[0];
      var j :| 0 <= j < |a| && a[j] == b[0];
      if i > 0 && j > 0 {
        BelowTransitive(a[0], b[0], a[0]);
      }
      BelowIrreflexive(a[0]);
      assert a[0] == b[0];
      assert Elements(a[1..]) == Elements(a) - {a[0]} by { TailElements(a); }
      assert Elements(b[1..]) == Elements(b) - {b[0]} by { TailElements(b); }
      EnumerationUnique(a[1..], b[1..]);
      assert a == [a[0]] + a[1..] && b == [b[0]] + b[1..];
    }
  }

  lemma {:induction false} TailElements(a: seq<string>)
    requires a != [] && StrictlyIncreasing(a)
    ensures Elements(a[1..]) == Elements(a) - {a[0]}
  {
    forall x ensures x in Elements(a[1..]) <==> x in Elements(a) - {a[0]} {
      if x in a[1..] {
        var i :| 0 <= i < |a| - 1 && a[1..][i] == x;
        assert Below(a[0], a[i + 1]);
        BelowIrreflexive(x);
      }
      if x in a && x != a[0] {
        var i :| 0 <= i < |a| && a[i] == x;
        assert a[1..][i - 1] == x;
      }
    }
  }
}
