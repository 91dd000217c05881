/**
 The two array algorithms of the safety scanner: removing duplicates from the sorted findings inside
 the slice that holds them, and the search for a word with boundaries on both sides.
 */
module Findings {
  import opened Strings
  import Utf8

  datatype Finding = Finding(path: string, code: string)

  // ----- The order -----

  /** The comparison handed to `sort.Slice`. */
  predicate Before(a: Finding, b: Finding) {
    if a.path == b.path then Below(a.code, b.code) else Below(a.path, b.path)
  }

  lemma {:induction false} BeforeIrreflexive(a: Finding)
    ensures !Before(a, a)
  {
    BelowIrreflexive(a.code);
  }

  lemma {:induction false} BeforeTransitive(a: Finding, b: Finding, c: Finding)
    requires Before(a, b) && Before(b, c)
    ensures Before(a, c)
  {
    BelowIrreflexive(a.path);
    if a.path == b.path == c.path {
      BelowTransitive(a.code, b.code, c.code);
    } else if a.path != b.path && b.path != c.path {
      BelowTransitive(a.path, b.path, c.path);
    }
  }

  lemma {:induction false} BeforeTotal(a: Finding, b: Finding)
    ensures Before(a, b) || a == b || Before(b, a)
  {
    BelowTotal(a.path, b.path);
    BelowTotal(a.code, b.code);
  }

  /** What `sort.Slice` guarantees of its result: no later element belongs before an earlier one. */
  ghost predicate Sorted(s: seq<Finding>) {
    forall i, j | 0 <= i < j < |s| :: !Before(s[j], s[i])
  }

  ghost predicate Increasing(s: seq<Finding>) {
    forall i, j | 0 <= i < j < |s| :: Before(s[i], s[j])
  }

  // ----- Removing duplicates -----

  /** Each finding that differs from the one before it. */
  function Deduplicated(s: seq<Finding>): (r: seq<Finding>)
    ensures |r| <= |s|
    ensures s != [] ==> r != [] && r[|r| - 1] == s[|s| - 1]
  {
    if |s| < 2 then s
    else
      var front := Deduplicated(s[..|s| - 1]);
      if s[|s| - 1] == s[|s| - 2] then front else front + [s[|s| - 1]]
  }

  /**
   `uniqueFindings`: the result is a prefix of the slice it reads. Slots past the write position
   still hold their old values when they are read, and slots past the result keep what the loop left.
   */
  method UniqueFindings(findings: array<Finding>) returns (length: nat)
    modifies findings
    ensures length <= findings.Length
    ensures findings[..length] == Deduplicated(old(findings[..]))
    ensures findings[length..] == old(findings[length..])
  {
    if findings.Length < 2 {
      return findings.Length;
    }
    ghost var was := findings[..];
    length := 1;
    for i := 1 to findings.Length
      invariant 1 <= length <= i
      invariant findings[..length] == Deduplicated(was[..i])
      invariant forall j | length <= j < findings.Length :: findings[j] == was[j]
    {
      NextDeduplicated(was, i);
      length := Keep(findings, length, i);
    }
    assert was[..findings.Length] == was;
  }

  /** One turn of the loop: the finding at `i` is appended to the result unless it repeats its last. */
  method Keep(findings: array<Finding>, length: nat, i: nat) returns (next: nat)
    requires 1 <= length <= i < findings.Length
    modifies findings
    ensures next == if findings[i] == old(findings[length - 1]) then length else length + 1
    ensures findings[..next] == old(findings[..length]) + old(if findings[i] == findings[length - 1] then [] else [findings[i]])
    ensures forall j | next <= j < findings.Length :: findings[j] == old(findings[j])
  {
    var finding := findings[i];
    var last := findings[length - 1];
    next := length;
    if finding.path != last.path || finding.code != last.code {
      findings[length] := finding;
      next := length + 1;
    }
  }

  lemma {:induction false} NextDeduplicated(s: seq<Finding>, i: nat)
    requires 1 <= i < |s|
    ensures Deduplicated(s[..i + 1]) == Deduplicated(s[..i]) + if s[i] == s[i - 1] then [] else [s[i]]
    ensures Deduplicated(s[..i]) != [] && Deduplicated(s[..i])[|Deduplicated(s[..i])| - 1] == s[i - 1]
  {
    assert s[..i + 1][..i] == s[..i];
  }

  /** Sorted and then deduplicated: the strictly increasing enumeration of the set of findings. */
  lemma {:induction false} DeduplicatedEnumerates(s: seq<Finding>)
    requires Sorted(s)
    ensures Increasing(Deduplicated(s))
    ensures Elements(Deduplicated(s)) == Elements(s)
  {
    if |s| >= 2 {
      var n := |s| - 1;
      var before, x := s[..n], s[n];
      DeduplicatedEnumerates(before);
      assert s == before + [x];
      var front := Deduplicated(before);
      if x != s[n - 1] {
        BeforeTotal(s[n - 1], x);
        assert !Before(s[n], s[n - 1]);
        forall i | 0 <= i < |front| ensures Before(front[i], x) {
          if i < |front| - 1 { BeforeTransitive(front[i], front[|front| - 1], x); }
        }
      } else {
        assert x in before;
      }
      AppendedElements(before, x);
      AppendedElements(front, x);
    }
  }

  lemma {:induction false} AppendedElements<T>(s: seq<T>, x: T)
    ensures Elements(s + [x]) == Elements(s) + {x}
  {
  }

  lemma {:induction false} IncreasingTail(a: seq<Finding>)
    requires a != [] && Increasing(a)
    ensures Increasing(a[1..]) && Elements(a[1..]) == Elements(a) - {a[0]}
  {
    assert a == [a[0]] + a[1..];
    forall i | 0 <= i < |a| - 1 ensures a[1..][i] != a[0] {
      BeforeIrreflexive(a[0]);
      assert Before(a[0], a[i + 1]);
    }
  }

  lemma {:induction false} FirstIsLeast(a: seq<Finding>, b: seq<Finding>)
    requires a != [] && b != [] && Increasing(a) && Increasing(b) && Elements(a) == Elements(b)
    ensures a[0] == b[0]
  {
    assert a[0] in Elements(b) && b[0] in Elements(a);
    var i :| 0 <= i < |b| && b[i] == a[0];
    var j :| 0 <= j < |a| && a[j] == b[0];
    if i > 0 && j > 0 {
      BeforeTransitive(a[0], b[0], a[0]);
    }
    BeforeIrreflexive(a[0]);
  }

  /** A set of findings has one strictly increasing enumeration. */
  lemma {:induction false} IncreasingUnique(a: seq<Finding>, b: seq<Finding>)
    requires Increasing(a) && Increasing(b) && Elements(a) == Elements(b)
    ensures a == b
  {
    NoElements(a);
    NoElements(b);
    if a != [] && b != [] {
      FirstIsLeast(a, b);
      IncreasingTail(a);
      IncreasingTail(b);
      IncreasingUnique(a[1..], b[1..]);
      assert a == [a[0]] + a[1..] && b == [b[0]] + b[1..];
    }
  }

  /** By path, and by code within a path, each finding once. */
  ghost predicate InReportOrder(s: seq<Finding>) {
    forall i, j | 0 <= i < j < |s| ::
      Below(s[i].path, s[j].path) || (s[i].path == s[j].path && Below(s[i].code, s[j].code))
  }

  lemma {:induction false} IncreasingIsReportOrder(s: seq<Finding>)
    ensures Increasing(s) <==> InReportOrder(s)
  {
    forall i, j | 0 <= i < j < |s|
      ensures Before(s[i], s[j]) <==> Below(s[i].path, s[j].path) || (s[i].path == s[j].path && Below(s[i].code, s[j].code))
    {
      BelowIrreflexive(s[i].path);
    }
  }

  /**
   Main result for scanner output: from any discovery order with any repetitions, and whatever sorted
   permutation the sort returns, the report lists the findings once each, by path and then by code.
   */
  lemma {:induction false} ReportIsTheEnumeration(found: seq<Finding>, sorted: seq<Finding>, report: seq<Finding>)
    requires Sorted(sorted) && multiset(sorted) == multiset(found)
    ensures report == Deduplicated(sorted) <==> InReportOrder(report) && Elements(report) == Elements(found)
  {
    SameElements(sorted, found);
    DeduplicatedEnumerates(sorted);
    IncreasingIsReportOrder(report);
    if Increasing(report) && Elements(report) == Elements(found) {
      IncreasingUnique(report, Deduplicated(sorted));
    }
  }

  lemma {:induction false} SameElements<T>(a: seq<T>, b: seq<T>)
    requires multiset(a) == multiset(b)
    ensures Elements(a) == Elements(b)
  {
    forall x ensures x in Elements(a) <==> x in Elements(b) {
      assert x in multiset(a) <==> x in multiset(b);
    }
  }

  /** Two scans that find the same things report the same, in whatever order and how often. */
  lemma {:induction false} DiscoveryIrrelevant(found: seq<Finding>, again: seq<Finding>, s: seq<Finding>, t: seq<Finding>)
    requires Sorted(s) && multiset(s) == multiset(found)
    requires Sorted(t) && multiset(t) == multiset(again)
    ensures Deduplicated(s) == Deduplicated(t) <==> Elements(found) == Elements(again)
  {
    ReportIsTheEnumeration(found, s, Deduplicated(s));
    ReportIsTheEnumeration(again, t, Deduplicated(t));
    ReportIsTheEnumeration(again, t, Deduplicated(s));
  }

  // ----- Words -----

  newtype byte = x: int | 0 <= x < 256

  predicate AsciiAlphaNumeric(value: byte) {
    'a' as int <= value as int <= 'z' as int || '0' as int <= value as int <= '9' as int
  }

  predicate OccursAt<T(==)>(s: seq<T>, token: seq<T>, at: int) {
    0 <= at <= |s| - |token| && s[at..at + |token|] == token
  }

  /** `bytes.Index`: the first occurrence, if there is one. */
  function Index(s: seq<byte>, token: seq<byte>): (r: Option<nat>)
    ensures r.Some? ==> OccursAt(s, token, r.value) && forall k | 0 <= k < r.value :: !OccursAt(s, token, k)
    ensures r.None? ==> forall k | 0 <= k <= |s| :: !OccursAt(s, token, k)
  {
    FirstFrom(s, token, 0)
  }

  function FirstFrom(s: seq<byte>, token: seq<byte>, from: nat): (r: Option<nat>)
    requires from <= |s|
    ensures r.Some? ==> from <= r.value && OccursAt(s, token, r.value) && forall k | from <= k < r.value :: !OccursAt(s, token, k)
    ensures r.None? ==> forall k | from <= k <= |s| :: !OccursAt(s, token, k)
    decreases |s| - from
  {
    if OccursAt(s, token, from) then Some(from)
    else if from == |s| then None
    else FirstFrom(s, token, from + 1)
  }

  /** An occurrence with no letter or digit on either side of it. */
  predicate WordAt(content: seq<byte>, token: seq<byte>, at: int) {
    && OccursAt(content, token, at)
    && (at == 0 || !AsciiAlphaNumeric(content[at - 1]))
    && (at + |token| == |content| || !AsciiAlphaNumeric(content[at + |token|]))
  }

  ghost predicate HasWord(content: seq<byte>, token: seq<byte>) {
    exists at :: WordAt(content, token, at)
  }

  lemma {:induction false} OccursLater(content: seq<byte>, token: seq<byte>, consumed: nat, k: int)
    requires consumed <= |content| && k >= consumed
    ensures OccursAt(content[consumed..], token, k - consumed) <==> OccursAt(content, token, k)
  {
    if consumed <= k <= |content| - |token| {
      assert content[consumed..][k - consumed..k - consumed + |token|] == content[k..k + |token|];
    }
  }

  /**
   `containsASCIIToken`. It decides whether the word occurs, overlapping candidates included; only for
   an empty token that occurs nowhere does it slice past the end of the content (None).
   */
  method ContainsAsciiToken(content: seq<byte>, token: seq<byte>) returns (r: Option<bool>)
    ensures r == Some(true) <==> HasWord(content, token)
    ensures r == None <==> token == [] && !HasWord(content, token)
  {
    var remaining := content;
    var consumed := 0;
    while true
      invariant 0 <= consumed <= |content| && remaining == content[consumed..]
      invariant forall k | 0 <= k < consumed :: !WordAt(content, token, k)
      decreases |remaining|
    {
      forall k | consumed <= k
        ensures OccursAt(remaining, token, k - consumed) <==> OccursAt(content, token, k)
      {
        OccursLater(content, token, consumed, k);
      }
      var index := Index(remaining, token);
      if index.None? {
        forall k ensures !WordAt(content, token, k) {
          if k >= consumed { assert !OccursAt(remaining, token, k - consumed); }
        }
        return Some(false);
      }
      var absolute := consumed + index.value;
      assert OccursAt(content, token, absolute);
      var leftBoundary := absolute == 0 || !AsciiAlphaNumeric(content[absolute - 1]);
      var right := absolute + |token|;
      var rightBoundary := right == |content| || !AsciiAlphaNumeric(content[right]);
      if leftBoundary && rightBoundary {
        assert WordAt(content, token, absolute);
        return Some(true);
      }
      forall k | consumed <= k <= absolute ensures !WordAt(content, token, k) {
        if k < absolute { assert !OccursAt(remaining, token, k - consumed); }
      }
      var step := index.value + 1;
      if step > |remaining| {
        return None;
      }
      remaining := remaining[step..];
      consumed := consumed + step;
    }
  }

  // ----- What a word is -----

  predicate AlphaNumericCode(value: byte) {
    value as int < 0x80 && (value as int as char in Utf8.LOWER || value as int as char in Utf8.DIGITS)
  }

  lemma {:induction false} AlphaNumericListed(value: byte)
    ensures AsciiAlphaNumeric(value) <==> AlphaNumericCode(value)
  {
    Utf8.LowerListed(value as int as char);
    Utf8.DigitListed(value as int as char);
  }

  /** The content is `before`, the token, and `after`, and neither neighbour of the token is a letter or digit. */
  predicate Splits(content: seq<byte>, token: seq<byte>, before: seq<byte>, after: seq<byte>) {
    && content == before + token + after
    && (before == [] || !AlphaNumericCode(before[|before| - 1]))
    && (after == [] || !AlphaNumericCode(after[0]))
  }

  ghost predicate StandsAlone(content: seq<byte>, token: seq<byte>) {
    exists before, after :: Splits(content, token, before, after)
  }

  lemma {:induction false} WordSplits(content: seq<byte>, token: seq<byte>, at: int)
    requires WordAt(content, token, at)
    ensures StandsAlone(content, token)
  {
    var before, after := content[..at], content[at + |token|..];
    if before != [] { AlphaNumericListed(content[at - 1]); }
    if after != [] { AlphaNumericListed(after[0]); }
    assert content == before + content[at..at + |token|] + after;
    assert Splits(content, token, before, after);
  }

  lemma {:induction false} SplitIsWord(content: seq<byte>, token: seq<byte>, before: seq<byte>, after: seq<byte>)
    requires Splits(content, token, before, after)
    ensures WordAt(content, token, |before|)
  {
    var at := |before|;
    assert content[at..at + |token|] == token;
    if before != [] { assert content[at - 1] == before[at - 1]; AlphaNumericListed(before[at - 1]); }
    if after != [] { assert content[at + |token|] == after[0]; AlphaNumericListed(after[0]); }
  }

  /** The search finds the token exactly when it stands alone somewhere in the content. */
  lemma {:induction false} WordsStandAlone(content: seq<byte>, token: seq<byte>)
    ensures HasWord(content, token) <==> StandsAlone(content, token)
  {
    if HasWord(content, token) {
      var at :| WordAt(content, token, at);
      WordSplits(content, token, at);
    }
    if StandsAlone(content, token) {
      var before, after :| Splits(content, token, before, after);
      SplitIsWord(content, token, before, after);
    }
  }
}
