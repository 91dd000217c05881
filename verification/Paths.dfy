/**
 The file fields of an issue request: where the workload's file goes, who owns it and its mode.
 `path.Clean` is the lexical normalisation of the standard library.
 */
module Paths {
  import opened Strings
  import opened Decimal

  const MAX_PATH_BYTES: nat := 240
  const MAX_PARTS: nat := 16

  // ----- Parts -----

  /** `strings.Split(s, "/")`. */
  function Split(s: string): (parts: seq<string>)
    ensures parts != []
  {
    if s == [] then [""]
    else
      var rest := Split(s[1..]);
      if s[0] == '/' then [""] + rest else [[s[0]] + rest[0]] + rest[1..]
  }

  function Join(parts: seq<string>): string {
    if parts == [] then ""
    else if |parts| == 1 then parts[0]
    else parts[0] + "/" + Join(parts[1..])
  }

  lemma {:induction false} JoinSplit(s: string)
    ensures Join(Split(s)) == s
  {
    if s != [] {
      JoinSplit(s[1..]);
      var rest := Split(s[1..]);
      assert Split(s)[1..] == if s[0] == '/' then rest else rest[1..];
      assert s == [s[0]] + s[1..];
    }
  }

  /** The characters are those of the parts and the separators. */
  lemma {:induction false} SplitCharacters(s: string)
    requires forall p | p in Split(s) :: forall i | 0 <= i < |p| :: NameCharacter(p[i])
    ensures forall i | 0 <= i < |s| :: NameCharacter(s[i]) || s[i] == '/'
    ensures s != [] && s[0] == '/' ==> "" in Split(s)
  {
    if s != [] {
      var rest := Split(s[1..]);
      assert Split(s)[0] in Split(s);
      forall p | p in rest ensures forall i | 0 <= i < |p| :: NameCharacter(p[i]) {
        var k :| 0 <= k < |rest| && rest[k] == p;
        if s[0] == '/' {
          assert Split(s)[k + 1] == p;
        } else if k > 0 {
          assert Split(s)[k] == p;
        } else {
          assert forall i | 0 <= i < |p| :: Split(s)[0][i + 1] == p[i];
        }
      }
      SplitCharacters(s[1..]);
      assert s[0] != '/' ==> Split(s)[0][0] == s[0];
      assert s[0] == '/' ==> Split(s)[0] == "";
    }
  }

  // ----- Normalisation -----

  /** The elements of a path, resolved one by one below `out`. */
  function Resolve(parts: seq<string>, rooted: bool, out: seq<string>): seq<string> {
    if parts == [] then out
    else
      var p := parts[0];
      var next :=
        if p == "" || p == "." then out
        else if p == ".." then
          if out != [] && out[|out| - 1] != ".." then out[..|out| - 1] else if rooted then out else out + [".."]
        else out + [p];
      Resolve(parts[1..], rooted, next)
  }

  /** `path.Clean`. */
  function Clean(value: string): string {
    if value == "" then "."
    else
      var rooted := value[0] == '/';
      var out := Join(Resolve(Split(value), rooted, []));
      if rooted then "/" + out else if out == "" then "." else out
  }

  /** Proper names only ever lead downwards. */
  lemma {:induction false} ResolveDescends(parts: seq<string>, rooted: bool, out: seq<string>)
    requires forall p | p in parts :: ValidName(p, 64)
    ensures Resolve(parts, rooted, out) == out + parts
  {
    if parts == [] {
      assert out + parts == out;
    } else {
      assert parts[0] in parts;
      forall p | p in parts[1..] ensures ValidName(p, 64) { assert p in parts; }
      ResolveDescends(parts[1..], rooted, out + [parts[0]]);
      assert out + parts == out + [parts[0]] + parts[1..];
    }
  }

  // ----- Relative paths -----

  /** At most 16 parts, each a proper name of at most 64 bytes, and at most 240 bytes. */
  ghost predicate SafePath(value: string) {
    ByteLength(value) <= MAX_PATH_BYTES && |Split(value)| <= MAX_PARTS && forall p | p in Split(value) :: ValidName(p, 64)
  }

  lemma {:induction false} SafeIsClean(value: string)
    requires SafePath(value)
    ensures value != "" && value[0] != '/' && '\\' !in value && Clean(value) == value
  {
    var parts := Split(value);
    assert parts[0] in parts;
    forall p | p in parts ensures forall i | 0 <= i < |p| :: NameCharacter(p[i]) { assert ValidName(p, 64); }
    SplitCharacters(value);
    JoinSplit(value);
    ResolveDescends(parts, false, []);
    assert [] + parts == parts;
  }

  /** `validRelativePath`: its tests on the whole value add nothing to those on the parts. */
  method ValidRelativePath(value: string) returns (ok: bool)
    ensures ok <==> SafePath(value)
  {
    if SafePath(value) { SafeIsClean(value); }
    if value == "" || ByteLength(value) > MAX_PATH_BYTES || '\\' in value || value[0] == '/' || Clean(value) != value {
      return false;
    }
    var parts := Split(value);
    if |parts| > MAX_PARTS {
      return false;
    }
    for i := 0 to |parts|
      invariant forall j | 0 <= j < i :: ValidName(parts[j], 64)
    {
      if !ValidName(parts[i], 64) || parts[i] == "." || parts[i] == ".." {
        assert parts[i] in parts;
        return false;
      }
    }
    return true;
  }

  /** Resolved from any directory, an accepted path ends strictly below it. */
  lemma {:induction false} AcceptedStaysBelow(value: string, rooted: bool, directory: seq<string>)
    requires SafePath(value)
    ensures directory < Resolve(Split(value), rooted, directory)
  {
    ResolveDescends(Split(value), rooted, directory);
  }

  // ----- Ownership and mode -----

  const INT32_LIMIT: nat := 0x8000_0000

  function Unsigned(value: string): string {
    if value != "" && (value[0] == '+' || value[0] == '-') then value[1..] else value
  }

  /** A number from 0 to 2^31 - 1, with leading zeros or a sign if it likes; `-0` is one. */
  predicate Ownership(value: string) {
    var digits := Unsigned(value);
    && digits != "" && AllDigits(digits) && Decimal.Value(digits) < INT32_LIMIT
    && (value[0] == '-' ==> Decimal.Value(digits) == 0)
  }

  /** `validOwnership`: `strconv.ParseInt` with 32 bits, and the test that the result is not negative. */
  method ValidOwnership(value: string) returns (ok: bool)
    ensures ok <==> Ownership(value)
  {
    if value == "" {
      return false;
    }
    var negative := value[0] == '-';
    var n := ParseUint(Unsigned(value));
    if n.None? || n.value >= 2 * INT32_LIMIT {
      return false;
    }
    if (!negative && n.value >= INT32_LIMIT) || (negative && n.value > INT32_LIMIT) {
      return false;
    }
    var parsed := if negative then -n.value else n.value;
    return parsed >= 0;
  }

  predicate ReadOnlyMode(value: string) {
    value == "0400" || value == "0440" || value == "0444"
  }

  // ----- What the parts and the mode mean -----

  lemma {:induction false} PartsHaveNoSlash(s: string)
    ensures forall i | 0 <= i < |Split(s)| :: '/' !in Split(s)[i]
  {
    if s != [] {
      PartsHaveNoSlash(s[1..]);
    }
  }

  lemma {:induction false} SplitPart(part: string, rest: string)
    requires '/' !in part
    ensures Split(part) == [part] && Split(part + "/" + rest) == [part] + Split(rest)
  {
    if part == [] {
      assert part + "/" + rest == "/" + rest && ("/" + rest)[1..] == rest;
    } else {
      SplitPart(part[1..], rest);
      assert (part + "/" + rest)[1..] == part[1..] + "/" + rest;
      assert part == [part[0]] + part[1..];
    }
  }

  /** The parts are the one way to write the text as slash-free pieces with slashes between them. */
  lemma {:induction false} SplitExactly(s: string, parts: seq<string>)
    ensures parts == Split(s)
       <==> parts != [] && Join(parts) == s && forall i | 0 <= i < |parts| :: '/' !in parts[i]
  {
    JoinSplit(s);
    PartsHaveNoSlash(s);
    if parts != [] && Join(parts) == s && forall i | 0 <= i < |parts| :: '/' !in parts[i] {
      SplitJoin(parts);
    }
  }

  lemma {:induction false} SplitJoin(parts: seq<string>)
    requires parts != [] && forall i | 0 <= i < |parts| :: '/' !in parts[i]
    ensures Split(Join(parts)) == parts
  {
    if |parts| == 1 {
      SplitPart(parts[0], "");
    } else {
      SplitJoin(parts[1..]);
      SplitPart(parts[0], Join(parts[1..]));
      assert parts == [parts[0]] + parts[1..];
    }
  }

  /** The class may read or may do nothing. */
  predicate ReadsOrNothing(digit: char) {
    digit == '0' || digit == '4'
  }

  /** The owner reads, nobody writes or executes, and others read only if the group does. */
  predicate OnlyReads(mode: string) {
    && |mode| == 4 && mode[0] == '0' && mode[1] == '4'
    && ReadsOrNothing(mode[2]) && ReadsOrNothing(mode[3]) && (mode[3] == '4' ==> mode[2] == '4')
  }

  lemma {:induction false} ModeExactly(mode: string)
    ensures ReadOnlyMode(mode) <==> OnlyReads(mode)
  {
    if OnlyReads(mode) {
      assert mode == [mode[0], mode[1], mode[2], mode[3]];
    }
  }

  // ----- Spellings of an owner -----

  /** Any number of zeros and the decimal printing of `n`. */
  ghost predicate Spells(digits: string, n: nat) {
    digits != "" && AllDigits(digits) && Decimal.Value(digits) == n
  }

  /** An owner is a number below 2^31 after an optional plus sign, or zero after a minus sign. */
  lemma {:induction false} OwnershipExactly(value: string)
    ensures Ownership(value)
       <==> || (exists n: nat :: n < 2147483648 && Spells(value, n))
            || (exists n: nat :: n < 2147483648 && value != "" && value[0] == '+' && Spells(value[1..], n))
            || (value != "" && value[0] == '-' && Spells(value[1..], 0))
  {
    if value != "" {
      var rest := value[1..];
      if AllDigits(rest) && rest != "" { assert Spells(rest, Decimal.Value(rest)); }
      if AllDigits(value) { assert Spells(value, Decimal.Value(value)) && IsDigit(value[0]); }
    }
  }
}
