/**
 The manifest check: the records of a manifest against a table of expected records, matched by
 deleting from a map. The table of this repository is constant data and a parameter here.
 */
module Legal {
  import opened Strings
  import opened Findings

  datatype Artifact = Artifact(
    id: string, file: string, package: string, originalPath: string,
    classification: string, bytes: int, sha256: string)

  datatype Manifest = Manifest(
    schemaVersion: nat, status: string, notice: string,
    mod: string, dependencyModel: string, usedAtRuntime: bool,
    rootLicense: Artifact, artifacts: seq<Artifact>, toolchainNotices: seq<Artifact>)

  const PATH := "LICENSES/HISTORICAL-MANIFEST.json"
  const BOUNDARY := Finding(PATH, "legal-manifest-boundary")
  const IMPLEMENTATION := Finding(PATH, "legal-manifest-current-implementation")
  const ROOT_LICENSE := Finding(PATH, "root-license-record-mismatch")
  const COUNT := Finding(PATH, "legal-manifest-record-count")
  const MISMATCH := Finding(PATH, "legal-manifest-record-mismatch")
  const MISSING := Finding(PATH, "legal-manifest-record-missing")

  // ----- Records -----

  predicate Attributed(a: Artifact) {
    a.package != "" && a.originalPath != ""
  }

  /** The seven comparisons of `sameLegalRecord` leave no field out. */
  predicate SameLegalRecord(actual: Artifact, expected: Artifact, historical: bool)
    ensures SameLegalRecord(actual, expected, historical) <==> actual == expected && (historical ==> Attributed(expected))
  {
    if actual.id != expected.id || actual.file != expected.file || actual.classification != expected.classification
      || actual.bytes != expected.bytes || actual.sha256 != expected.sha256
    then false
    else if historical
    then
      && actual.package == expected.package && actual.originalPath == expected.originalPath
      && actual.package != "" && actual.originalPath != ""
    else actual.package == expected.package && actual.originalPath == expected.originalPath
  }

  predicate RequiresAttribution(id: string) {
    "dependency-" <= id
  }

  type Table = map<string, Artifact>

  /** The map built from the expected records; a later record replaces one with the same ID. */
  function TableOf(expected: seq<Artifact>): Table {
    if expected == [] then map[]
    else var last := expected[|expected| - 1]; TableOf(expected[..|expected| - 1])[last.id := last]
  }

  /** The record is the one the table holds under its ID. */
  predicate Agrees(table: Table, a: Artifact) {
    a.id in table && SameLegalRecord(a, table[a.id], RequiresAttribution(table[a.id].id))
  }

  /** The record agrees with the table and is the first with its ID. */
  predicate Matched(table: Table, actual: seq<Artifact>, i: int)
    requires 0 <= i < |actual|
  {
    Agrees(table, actual[i]) && forall j | 0 <= j < i :: actual[j].id != actual[i].id
  }

  function IdsOf(records: seq<Artifact>): set<string> {
    set a | a in records :: a.id
  }

  /** One mismatch for each record among the first `n` that is not matched. */
  function Mismatches(table: Table, actual: seq<Artifact>, n: nat): seq<Finding>
    requires n <= |actual|
  {
    if n == 0 then []
    else Mismatches(table, actual, n - 1) + if Matched(table, actual, n - 1) then [] else [MISMATCH]
  }

  function RecordFindings(table: Table, actual: seq<Artifact>): seq<Finding> {
    (if |actual| != |table| then [COUNT] else [])
    + Mismatches(table, actual, |actual|)
    + (if table.Keys <= IdsOf(actual) then [] else [MISSING])
  }

  /** The loop over the actual records, which deletes every ID it meets from the map. */
  method MatchRecords(table: Table, actual: seq<Artifact>) returns (findings: seq<Finding>, remaining: Table)
    ensures findings == Mismatches(table, actual, |actual|)
    ensures remaining.Keys == table.Keys - IdsOf(actual)
  {
    findings := [];
    remaining := table;
    for i := 0 to |actual|
      invariant remaining == table - IdsOf(actual[..i])
      invariant findings == Mismatches(table, actual, i)
    {
      var a := actual[i];
      NextRecord(table, actual, i);
      if !Agrees(remaining, a) {
        findings := findings + [MISMATCH];
      }
      remaining := remaining - {a.id};
    }
    assert actual[..|actual|] == actual;
  }

  method CheckRecords(table: Table, actual: seq<Artifact>) returns (findings: seq<Finding>)
    ensures findings == RecordFindings(table, actual)
  {
    findings := [];
    if |actual| != |table| {
      findings := findings + [COUNT];
    }
    var mismatches, remaining := MatchRecords(table, actual);
    findings := findings + mismatches;
    assert |remaining.Keys| == |remaining|;
    if |remaining| != 0 {
      findings := findings + [MISSING];
    }
  }

  method BuildTable(expected: seq<Artifact>) returns (table: Table)
    ensures table == TableOf(expected)
  {
    table := map[];
    for i := 0 to |expected|
      invariant table == TableOf(expected[..i])
    {
      assert expected[..i + 1][..i] == expected[..i];
      table := table[expected[i].id := expected[i]];
    }
    assert expected[..|expected|] == expected;
  }

  /** A record agrees with what is left of the table when it is matched. */
  lemma {:induction false} NextRecord(table: Table, actual: seq<Artifact>, i: nat)
    requires i < |actual|
    ensures IdsOf(actual[..i + 1]) == IdsOf(actual[..i]) + {actual[i].id}
    ensures Agrees(table - IdsOf(actual[..i]), actual[i]) <==> Matched(table, actual, i)
  {
    assert actual[..i + 1] == actual[..i] + [actual[i]];
    assert actual[i].id in IdsOf(actual[..i]) <==> exists j :: 0 <= j < i && actual[j].id == actual[i].id;
  }

  predicate Contains(s: string, part: string) {
    exists i | 0 <= i <= |s| :: OccursAt(s, part, i)
  }

  predicate BoundaryHolds(m: Manifest) {
    && m.schemaVersion == 1 && m.status == "historical-only"
    && Contains(m.notice, "standard-library-only") && Contains(m.notice, "does not import or use")
  }

  predicate ImplementationHolds(m: Manifest) {
    && m.mod == "github.com/PastureStack/vault-secrets-bridge"
    && m.dependencyModel == "Go standard library only" && !m.usedAtRuntime
  }

  function Unless(holds: bool, finding: Finding): seq<Finding> {
    if holds then [] else [finding]
  }

  function HeaderFindings(m: Manifest, license: Artifact): seq<Finding> {
    Unless(BoundaryHolds(m), BOUNDARY) + Unless(ImplementationHolds(m), IMPLEMENTATION)
    + Unless(m.rootLicense == license, ROOT_LICENSE)
  }

  /** `verifyLegalManifest`: the first expected record is the root licence. */
  method VerifyLegalManifest(m: Manifest, expected: seq<Artifact>) returns (findings: seq<Finding>)
    requires expected != []
    ensures findings == HeaderFindings(m, expected[0]) + RecordFindings(TableOf(expected[1..]), m.artifacts + m.toolchainNotices)
  {
    findings := [];
    if !BoundaryHolds(m) {
      findings := findings + [BOUNDARY];
    }
    if !ImplementationHolds(m) {
      findings := findings + [IMPLEMENTATION];
    }
    if !SameLegalRecord(m.rootLicense, expected[0], false) {
      findings := findings + [ROOT_LICENSE];
    }
    assert findings == HeaderFindings(m, expected[0]);
    var table := BuildTable(expected[1..]);
    var records := CheckRecords(table, m.artifacts + m.toolchainNotices);
    findings := findings + records;
  }

  predicate Around(s: string, part: string, before: string, after: string) {
    s == before + part + after
  }

  /** The text contains the part exactly when it is something, the part, and something. */
  lemma {:induction false} ContainsExactly(s: string, part: string)
    ensures Contains(s, part) <==> exists before, after :: Around(s, part, before, after)
  {
    if i :| 0 <= i <= |s| && OccursAt(s, part, i) {
      assert s == s[..i] + s[i..i + |part|] + s[i + |part|..];
      assert Around(s, part, s[..i], s[i + |part|..]);
    }
    if before, after :| Around(s, part, before, after) {
      assert s[|before|..|before| + |part|] == part;
      assert OccursAt(s, part, |before|);
    }
  }

  // ----- What a silent check means -----

  predicate Silent(findings: seq<Finding>) {
    MISMATCH !in findings && MISSING !in findings
  }

  ghost predicate DistinctIds(records: seq<Artifact>) {
    forall i, j | 0 <= i < j < |records| :: records[i].id != records[j].id
  }

  lemma {:induction false} MismatchesSilent(table: Table, actual: seq<Artifact>, n: nat)
    requires n <= |actual|
    ensures MISMATCH in Mismatches(table, actual, n) <==> exists i :: 0 <= i < n && !Matched(table, actual, i)
    ensures MISSING !in Mismatches(table, actual, n) && COUNT !in Mismatches(table, actual, n)
  {
    Codes();
    if n > 0 {
      MismatchesSilent(table, actual, n - 1);
    }
  }

  lemma {:induction false} Codes()
    ensures MISMATCH != MISSING && MISMATCH != COUNT && COUNT != MISSING
  {
    assert |MISMATCH.code| == 30 && |MISSING.code| == 29 && |COUNT.code| == 27;
  }

  lemma {:induction false} SilentRecords(table: Table, actual: seq<Artifact>)
    ensures Silent(RecordFindings(table, actual))
       <==> table.Keys <= IdsOf(actual) && forall i | 0 <= i < |actual| :: Matched(table, actual, i)
    ensures COUNT in RecordFindings(table, actual) <==> |actual| != |table|
  {
    Codes();
    MismatchesSilent(table, actual, |actual|);
  }

  lemma {:induction false} TableIds(expected: seq<Artifact>)
    ensures TableOf(expected).Keys == IdsOf(expected)
  {
    if expected != [] {
      var before, last := expected[..|expected| - 1], expected[|expected| - 1];
      TableIds(before);
      assert expected == before + [last];
      assert IdsOf(expected) == IdsOf(before) + {last.id};
    }
  }

  lemma {:induction false} TableKeys(expected: seq<Artifact>)
    requires DistinctIds(expected)
    ensures TableOf(expected).Keys == IdsOf(expected) && |TableOf(expected)| == |expected|
  {
    TableIds(expected);
    DistinctCounts(expected);
    assert |TableOf(expected).Keys| == |TableOf(expected)|;
  }

  /** With distinct IDs the table holds every expected record under its ID. */
  lemma {:induction false} TableHolds(expected: seq<Artifact>, i: nat)
    requires DistinctIds(expected) && i < |expected|
    ensures expected[i].id in TableOf(expected) && TableOf(expected)[expected[i].id] == expected[i]
  {
    var n := |expected| - 1;
    if i < n {
      TableHolds(expected[..n], i);
      assert expected[..n][i] == expected[i];
    }
  }

  lemma {:induction false} TableHoldsAll(expected: seq<Artifact>)
    requires DistinctIds(expected)
    ensures forall i | 0 <= i < |expected| :: expected[i].id in TableOf(expected) && TableOf(expected)[expected[i].id] == expected[i]
  {
    forall i | 0 <= i < |expected|
      ensures expected[i].id in TableOf(expected) && TableOf(expected)[expected[i].id] == expected[i]
    {
      TableHolds(expected, i);
    }
  }

  lemma {:induction false} DistinctCounts(s: seq<Artifact>)
    requires DistinctIds(s)
    ensures forall a :: multiset(s)[a] == if a in s then 1 else 0
    ensures |IdsOf(s)| == |s|
  {
    if s != [] {
      var before, last := s[..|s| - 1], s[|s| - 1];
      assert s == before + [last];
      DistinctCounts(before);
      assert last.id !in IdsOf(before);
      assert IdsOf(s) == IdsOf(before) + {last.id};
    }
  }

  /** Sequences with distinct IDs and the same records are permutations of each other. */
  lemma {:induction false} SameRecordsPermute(a: seq<Artifact>, b: seq<Artifact>)
    requires DistinctIds(a) && DistinctIds(b) && Elements(a) == Elements(b)
    ensures multiset(a) == multiset(b)
  {
    DistinctCounts(a);
    DistinctCounts(b);
    forall x ensures multiset(a)[x] == multiset(b)[x] {
      assert x in a <==> x in Elements(b);
    }
  }

  ghost predicate Attributable(expected: seq<Artifact>) {
    forall i | 0 <= i < |expected| && RequiresAttribution(expected[i].id) :: Attributed(expected[i])
  }

  lemma {:induction false} SilentMeansPermutation(expected: seq<Artifact>, actual: seq<Artifact>)
    requires DistinctIds(expected) && Silent(RecordFindings(TableOf(expected), actual))
    ensures multiset(actual) == multiset(expected) && Attributable(expected)
  {
    var table := TableOf(expected);
    SilentRecords(table, actual);
    TableKeys(expected);
    TableHoldsAll(expected);
    assert DistinctIds(actual) by {
      forall i, j | 0 <= i < j < |actual| ensures actual[i].id != actual[j].id { assert Matched(table, actual, j); }
    }
    forall i | 0 <= i < |actual| ensures actual[i] in expected {
      assert Matched(table, actual, i);
      assert actual[i].id in IdsOf(expected);
    }
    forall i | 0 <= i < |expected|
      ensures expected[i] in actual && (RequiresAttribution(expected[i].id) ==> Attributed(expected[i]))
    {
      assert expected[i].id in IdsOf(actual);
      var j :| 0 <= j < |actual| && actual[j].id == expected[i].id;
      assert Matched(table, actual, j);
    }
    SameRecordsPermute(actual, expected);
  }

  lemma {:induction false} PermutationIsSilent(expected: seq<Artifact>, actual: seq<Artifact>)
    requires DistinctIds(expected) && Attributable(expected) && multiset(actual) == multiset(expected)
    ensures Silent(RecordFindings(TableOf(expected), actual)) && |actual| == |expected|
  {
    var table := TableOf(expected);
    TableKeys(expected);
    TableHoldsAll(expected);
    SameElements(actual, expected);
    PermutationDistinct(expected, actual);
    forall i | 0 <= i < |actual| ensures Matched(table, actual, i) {
      assert actual[i] in Elements(expected);
    }
    forall id | id in table ensures id in IdsOf(actual) {
      var e :| e in expected && e.id == id;
      assert e in Elements(actual);
    }
    SilentRecords(table, actual);
    assert |multiset(actual)| == |multiset(expected)|;
  }

  lemma {:induction false} PermutationDistinct(expected: seq<Artifact>, actual: seq<Artifact>)
    requires DistinctIds(expected) && multiset(actual) == multiset(expected)
    ensures DistinctIds(actual)
  {
    DistinctCounts(expected);
    forall i, j | 0 <= i < j < |actual| ensures actual[i].id != actual[j].id {
      var rest := actual[..i] + actual[i + 1..];
      assert actual == actual[..i] + [actual[i]] + actual[i + 1..];
      assert multiset(actual) == multiset(rest) + multiset{actual[i]};
      assert rest[j - 1] == actual[j];
      assert actual[j] in multiset(rest);
      assert multiset(actual)[actual[i]] <= 1;
      assert actual[i] in multiset(expected) && actual[j] in multiset(expected);
    }
  }

  /**
   Main result for the manifest: with distinct expected IDs the check reports no mismatched and no
   missing record exactly when the actual records are a permutation of the expected ones and the
   expected ones carry the attribution they need; the record count is then right as well.
   */
  lemma {:induction false} SilentExactly(expected: seq<Artifact>, actual: seq<Artifact>)
    requires DistinctIds(expected)
    ensures var findings := RecordFindings(TableOf(expected), actual);
            && (Silent(findings) <==> multiset(actual) == multiset(expected) && Attributable(expected))
            && (Silent(findings) ==> COUNT !in findings)
  {
    var findings := RecordFindings(TableOf(expected), actual);
    TableKeys(expected);
    SilentRecords(TableOf(expected), actual);
    if Silent(findings) {
      SilentMeansPermutation(expected, actual);
    }
    if multiset(actual) == multiset(expected) && Attributable(expected) {
      PermutationIsSilent(expected, actual);
    }
    assert multiset(actual) == multiset(expected) ==> |multiset(actual)| == |multiset(expected)|;
  }

  lemma {:induction false} NoMismatches(table: Table, actual: seq<Artifact>, n: nat)
    requires n <= |actual|
    ensures Mismatches(table, actual, n) == [] <==> MISMATCH !in Mismatches(table, actual, n)
  {
    if n > 0 { NoMismatches(table, actual, n - 1); }
  }

  lemma {:induction false} NoRecordFindings(table: Table, actual: seq<Artifact>)
    ensures var findings := RecordFindings(table, actual);
            findings == [] <==> Silent(findings) && COUNT !in findings
  {
    Codes();
    NoMismatches(table, actual, |actual|);
  }

  ghost predicate Mentions(notice: string, words: string) {
    exists before, after :: Around(notice, words, before, after)
  }

  /** The whole check passes exactly for the manifests that say what they should. */
  lemma {:induction false} PassesExactly(m: Manifest, expected: seq<Artifact>)
    requires expected != [] && DistinctIds(expected[1..])
    ensures HeaderFindings(m, expected[0]) + RecordFindings(TableOf(expected[1..]), m.artifacts + m.toolchainNotices) == []
       <==> && m.schemaVersion == 1 && m.status == "historical-only"
            && Mentions(m.notice, "standard-library-only") && Mentions(m.notice, "does not import or use")
            && m.mod == "github.com/PastureStack/vault-secrets-bridge"
            && m.dependencyModel == "Go standard library only" && !m.usedAtRuntime
            && m.rootLicense == expected[0]
            && multiset(m.artifacts + m.toolchainNotices) == multiset(expected[1..]) && Attributable(expected[1..])
  {
    var records, actual := expected[1..], m.artifacts + m.toolchainNotices;
    SilentExactly(records, actual);
    NoRecordFindings(TableOf(records), actual);
    ContainsExactly(m.notice, "standard-library-only");
    ContainsExactly(m.notice, "does not import or use");
  }

  /** Which headers are reported, and as what. */
  lemma {:induction false} HeaderReported(m: Manifest, license: Artifact)
    ensures BOUNDARY in HeaderFindings(m, license)
       <==> !(&& m.schemaVersion == 1 && m.status == "historical-only"
              && Mentions(m.notice, "standard-library-only") && Mentions(m.notice, "does not import or use"))
    ensures IMPLEMENTATION in HeaderFindings(m, license)
       <==> !(&& m.mod == "github.com/PastureStack/vault-secrets-bridge"
              && m.dependencyModel == "Go standard library only" && !m.usedAtRuntime)
    ensures ROOT_LICENSE in HeaderFindings(m, license) <==> m.rootLicense != license
  {
    ContainsExactly(m.notice, "standard-library-only");
    ContainsExactly(m.notice, "does not import or use");
    assert |BOUNDARY.code| == 23 && |IMPLEMENTATION.code| == 37 && |ROOT_LICENSE.code| == 28;
  }

  /** Records of vendored dependencies, and no others, need a package and a path. */
  lemma {:induction false} AttributableExactly(expected: seq<Artifact>)
    ensures Attributable(expected)
       <==> forall e | e in expected && |e.id| >= 11 && e.id[..11] == "dependency-" :: e.package != "" && e.originalPath != ""
  {
    forall id: string ensures RequiresAttribution(id) <==> |id| >= 11 && id[..11] == "dependency-" { assert |"dependency-"| == 11; }
  }
}
