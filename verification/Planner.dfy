/**
 The offline lease planner: reading a strict JSON value into a request, and which requests are
 well formed. The result is that reading is exact and loses nothing.
 */
module Planner {
  import opened Strings
  import opened Decimal
  import opened StrictJson
  import opened Calendar

  datatype Operation = Issue | Renew | Rotate | Revoke

  datatype LeaseState = Absent | Active | Revoked

  datatype Lease = Lease(
    ref: string, state: LeaseState,
    observed: nat, expected: nat, target: nat, renewals: nat, policies: nat, ttl: nat, wrapTtl: nat,
    renewable: bool, notBefore: string, expiresAt: string)

  /** The five assertions are all true in an accepted request and are not repeated here. */
  datatype Request = Request(operation: Operation, refs: seq<string>, lease: Lease)

  const API_VERSION := "pasturestack.io/vault-secrets-bridge/v1alpha1"
  const MAX_UINT64: nat := TWO_64 - 1
  const MAX_RENEWALS: nat := 1000

  // ----- Objects read by key -----

  const ROOT_KEYS: seq<string> := [
    "apiVersion", "operation", "requestRef", "subjectRef", "roleRef",
    "policySetRef", "audienceRef", "idempotencyRef", "lease", "assertions"]

  const LEASE_KEYS: seq<string> := [
    "leaseRef", "currentState", "observedGeneration", "expectedGeneration",
    "targetGeneration", "renewalCount", "policyCount", "ttlSeconds",
    "wrapTTLSeconds", "renewable", "notBefore", "expiresAt"]

  const ASSERTION_KEYS: seq<string> := [
    "subjectAuthenticated", "policyAuthorized", "issuerAttested", "transportProtected", "requestFresh"]

  predicate Distinct<T(==)>(s: seq<T>) {
    forall i, j | 0 <= i < j < |s| :: s[i] != s[j]
  }

  predicate HasKeys(members: map<string, Value>, keys: seq<string>) {
    |members| == |keys| && forall i | 0 <= i < |keys| :: keys[i] in members
  }

  method ExactKeys(members: map<string, Value>, keys: seq<string>) returns (ok: bool)
    ensures ok <==> HasKeys(members, keys)
    ensures Distinct(keys) ==> (ok <==> members.Keys == Elements(keys))
  {
    if Distinct(keys) { ExactlyTheKeys(members, keys); }
    if |members| != |keys| {
      return false;
    }
    for i := 0 to |keys|
      invariant forall j | 0 <= j < i :: keys[j] in members
    {
      if keys[i] !in members {
        return false;
      }
    }
    return true;
  }

  lemma {:induction false} DistinctSize<T>(s: seq<T>)
    requires Distinct(s)
    ensures |Elements(s)| == |s|
  {
    if s != [] {
      var before, last := s[..|s| - 1], s[|s| - 1];
      DistinctSize(before);
      assert last !in before;
      assert Elements(s) == Elements(before) + {last} by {
        assert s == before + [last];
      }
    }
  }

  /** With distinct keys, the size test leaves no room for other keys. */
  lemma {:induction false} ExactlyTheKeys(members: map<string, Value>, keys: seq<string>)
    requires Distinct(keys)
    ensures HasKeys(members, keys) <==> members.Keys == Elements(keys)
  {
    DistinctSize(keys);
    if HasKeys(members, keys) {
      assert Elements(keys) <= members.Keys;
      SameSizeSubset(Elements(keys), members.Keys);
    }
    if members.Keys == Elements(keys) {
      forall i | 0 <= i < |keys| ensures keys[i] in members { assert keys[i] in Elements(keys); }
    }
  }

  lemma {:induction false} SameSizeSubset<T>(a: set<T>, b: set<T>)
    requires a <= b && |a| == |b|
    ensures a == b
  {
    if a != {} {
      var x :| x in a;
      SameSizeSubset(a - {x}, b - {x});
    } else {
      assert b == {};
    }
  }

  method AllUnique(values: seq<string>) returns (ok: bool)
    ensures ok <==> Distinct(values)
  {
    var seen: set<string> := {};
    for i := 0 to |values|
      invariant forall x :: x in seen <==> exists j :: 0 <= j < i && values[j] == x
      invariant Distinct(values[..i])
    {
      if values[i] in seen {
        return false;
      }
      assert forall j | 0 <= j < i :: values[j] in seen;
      seen := seen + {values[i]};
    }
    assert values[..|values|] == values;
    return true;
  }

  /** The members under `keys`, in that order, when the object has exactly these keys. */
  function Fields(v: Value, keys: seq<string>): Option<seq<Value>> {
    if v.Object? && HasKeys(v.members, keys)
    then Some(seq(|keys|, i requires 0 <= i < |keys| => v.members[keys[i]]))
    else None
  }

  lemma {:induction false} FieldsDetermine(v: Value, w: Value, keys: seq<string>)
    requires Distinct(keys) && Fields(v, keys).Some? && Fields(v, keys) == Fields(w, keys)
    ensures v == w
  {
    ExactlyTheKeys(v.members, keys);
    ExactlyTheKeys(w.members, keys);
    var f, g := Fields(v, keys).value, Fields(w, keys).value;
    forall k | k in v.members ensures v.members[k] == w.members[k] {
      assert k in Elements(keys);
      var i :| 0 <= i < |keys| && keys[i] == k;
      assert f[i] == v.members[k] && g[i] == w.members[k];
    }
    assert v.members == w.members;
  }

  // ----- Field values -----

  function UnsignedValue(v: Value): Option<nat> {
    if v.Num? && v.digits != [] && AllDigits(v.digits) && Decimal.Value(v.digits) < TWO_64
    then Some(Decimal.Value(v.digits)) else None
  }

  method ReadUnsigned(v: Value) returns (r: Option<nat>)
    ensures r == UnsignedValue(v)
  {
    if !v.Num? {
      return None;
    }
    r := ParseUint(v.digits);
  }

  predicate LowerHex(c: char) {
    '0' <= c <= '9' || 'a' <= c <= 'f'
  }

  predicate Reference(text: string) {
    |text| == 71 && "sha256:" <= text && forall i | 7 <= i < 71 :: LowerHex(text[i])
  }

  function Word(operation: Operation): string {
    match operation
    case Issue => "issue"
    case Renew => "renew"
    case Rotate => "rotate"
    case Revoke => "revoke"
  }

  function StateWord(state: LeaseState): string {
    match state
    case Absent => "absent"
    case Active => "active"
    case Revoked => "revoked"
  }

  function OperationOf(text: string): Option<Operation> {
    if text == "issue" then Some(Issue)
    else if text == "renew" then Some(Renew)
    else if text == "rotate" then Some(Rotate)
    else if text == "revoke" then Some(Revoke)
    else None
  }

  function StateOf(text: string): Option<LeaseState> {
    if text == "absent" then Some(Absent)
    else if text == "active" then Some(Active)
    else if text == "revoked" then Some(Revoked)
    else None
  }

  lemma {:induction false} WordsRead(operation: Operation, state: LeaseState, text: string)
    ensures OperationOf(text) == Some(operation) <==> text == Word(operation)
    ensures StateOf(text) == Some(state) <==> text == StateWord(state)
  {
    assert "issue"[0] == 'i' && "renew"[2] == 'n' && "rotate"[2] == 't' && "revoke"[2] == 'v';
    assert |"revoke"| == 6 && |"renew"| == 5 && |"rotate"| == 6;
    assert "absent"[1] == 'b' && "active"[1] == 'c' && "revoked"[1] == 'e';
  }

  // ----- Requests -----

  predicate LeaseBounds(lease: Lease) {
    && 1 <= lease.policies <= 64
    && 60 <= lease.ttl <= 43200
    && 30 <= lease.wrapTtl <= 600 && lease.wrapTtl <= lease.ttl
    && lease.renewals <= MAX_RENEWALS
  }

  predicate LeaseTimes(lease: Lease) {
    && CanonicalTime(lease.notBefore) && CanonicalTime(lease.expiresAt)
    && Instant(lease.notBefore) < Instant(lease.expiresAt)
    && Instant(lease.expiresAt) - Instant(lease.notBefore) == lease.ttl
  }

  /** The addition of `uint64` values. */
  function Add64(a: nat, b: nat): nat {
    (a + b) % TWO_64
  }

  predicate ValidTransition(operation: Operation, lease: Lease) {
    lease.expected == lease.observed &&
    match operation
    case Issue => lease.state.Absent? && lease.observed == 0 && lease.target == 1 && lease.renewals == 0
    case Renew =>
      && lease.state.Active? && lease.observed > 0 && lease.renewable
      && lease.target == lease.observed && lease.renewals < MAX_RENEWALS
    case Rotate =>
      && lease.state.Active? && lease.observed > 0 && lease.observed < MAX_UINT64
      && lease.target == Add64(lease.observed, 1)
    case Revoke => lease.state.Active? && lease.observed > 0 && lease.target == lease.observed
  }

  /** The seven numeric fields of a lease. */
  function ReadNumbers(f: seq<Value>): Option<seq<nat>> {
    if forall i | 0 <= i < |f| :: UnsignedValue(f[i]).Some?
    then Some(seq(|f|, i requires 0 <= i < |f| => UnsignedValue(f[i]).value))
    else None
  }

  /** The loop over the numeric targets. */
  method FillNumbers(f: seq<Value>) returns (r: Option<seq<nat>>)
    ensures r == ReadNumbers(f)
  {
    var numbers: seq<nat> := [];
    for i := 0 to |f|
      invariant |numbers| == i
      invariant forall j | 0 <= j < i :: UnsignedValue(f[j]) == Some(numbers[j])
    {
      var n := ReadUnsigned(f[i]);
      if n.None? {
        return None;
      }
      numbers := numbers + [n.value];
    }
    assert numbers == ReadNumbers(f).value;
    return Some(numbers);
  }

  /** The fields of a lease, each of its own kind. */
  function LeaseFrom(f: seq<Value>): Option<Lease>
    requires |f| == 12
  {
    if !f[0].String? || !Reference(f[0].text) || !f[1].String? || !f[9].Bool? || !f[10].String? || !f[11].String?
    then None
    else match (StateOf(f[1].text), ReadNumbers(f[2..9]))
      case (Some(state), Some(n)) =>
        Some(Lease(f[0].text, state, n[0], n[1], n[2], n[3], n[4], n[5], n[6], f[9].b, f[10].text, f[11].text))
      case _ => None
  }

  function ParseLease(v: Value): Option<Lease> {
    match Fields(v, LEASE_KEYS)
    case None => None
    case Some(f) =>
      match LeaseFrom(f)
      case None => None
      case Some(lease) => if LeaseBounds(lease) && LeaseTimes(lease) then Some(lease) else None
  }

  predicate AssertionsHold(v: Value) {
    match Fields(v, ASSERTION_KEYS)
    case None => false
    case Some(f) => forall i | 0 <= i < |f| :: f[i] == Bool(true)
  }

  function ParseRequest(v: Value): Option<Request> {
    match Fields(v, ROOT_KEYS)
    case None => None
    case Some(f) => RequestFrom(f)
  }

  function ReferenceValue(v: Value): Option<string> {
    if v.String? && Reference(v.text) then Some(v.text) else None
  }

  function ReadReferences(f: seq<Value>): Option<seq<string>> {
    if forall i | 0 <= i < |f| :: ReferenceValue(f[i]).Some?
    then Some(seq(|f|, i requires 0 <= i < |f| => ReferenceValue(f[i]).value))
    else None
  }

  /** The loop over the reference targets. */
  method FillReferences(f: seq<Value>) returns (r: Option<seq<string>>)
    ensures r == ReadReferences(f)
  {
    var refs: seq<string> := [];
    for i := 0 to |f|
      invariant |refs| == i
      invariant forall j | 0 <= j < i :: ReferenceValue(f[j]) == Some(refs[j])
    {
      var text := ReferenceValue(f[i]);
      if text.None? {
        return None;
      }
      refs := refs + [text.value];
    }
    assert refs == ReadReferences(f).value;
    return Some(refs);
  }

  function RequestFrom(f: seq<Value>): Option<Request>
    requires |f| == 10
  {
    if f[0] != String(API_VERSION) || !f[1].String? then None
    else match (OperationOf(f[1].text), ReadReferences(f[2..8]), ParseLease(f[8]))
      case (Some(operation), Some(refs), Some(lease)) =>
        if AssertionsHold(f[9]) && Distinct(refs + [lease.ref]) && ValidTransition(operation, lease)
        then Some(Request(operation, refs, lease)) else None
      case _ => None
  }

  predicate LeaseWidths(lease: Lease) {
    lease.observed < TWO_64 && lease.expected < TWO_64 && lease.target < TWO_64
  }

  predicate LeaseWellShaped(lease: Lease) {
    Reference(lease.ref) && LeaseBounds(lease) && LeaseTimes(lease)
  }

  /** What the transition rules say of a request, and the widths of its numbers. */
  predicate Admissible(r: Request) {
    LeaseWidths(r.lease) && r.lease.renewals <= MAX_RENEWALS && ValidTransition(r.operation, r.lease)
  }

  predicate WellShaped(r: Request) {
    && |r.refs| == 6 && (forall i | 0 <= i < 6 :: Reference(r.refs[i]))
    && Distinct(r.refs + [r.lease.ref])
    && LeaseWellShaped(r.lease)
  }

  /** What every accepted request satisfies. */
  predicate WellFormed(r: Request) {
    WellShaped(r) && Admissible(r)
  }

  // ----- Accepted requests exist -----

  function ReferenceOf(c: char): string {
    "sha256:" + seq(64, _ => c)
  }

  function SampleLease(c: char): Lease {
    Lease(ReferenceOf(c), Absent, 0, 0, 1, 0, 1, 3600, 60, true, NewYear(false), NewYear(true))
  }

  function SampleIssue(): Request {
    Request(Issue, [ReferenceOf('0'), ReferenceOf('1'), ReferenceOf('2'), ReferenceOf('3'), ReferenceOf('4'), ReferenceOf('5')],
            SampleLease('6'))
  }

  lemma {:induction false} ReferencesDiffer(c: char, d: char)
    requires LowerHex(c) && LowerHex(d)
    ensures Reference(ReferenceOf(c)) && (ReferenceOf(c) == ReferenceOf(d) <==> c == d)
  {
    assert ReferenceOf(c)[7] == c && ReferenceOf(d)[7] == d;
    assert ReferenceOf(c)[..7] == "sha256:";
  }

  lemma {:induction false} SampleLeaseShape(c: char)
    requires LowerHex(c)
    ensures LeaseWellShaped(SampleLease(c))
  {
    ReferencesDiffer(c, c);
    NewYearTimes();
  }

  lemma {:induction false} SampleReferences()
    ensures var r := SampleIssue(); (forall i | 0 <= i < 6 :: Reference(r.refs[i])) && Distinct(r.refs + [r.lease.ref])
  {
    var r := SampleIssue();
    var all := r.refs + [r.lease.ref];
    forall i | 0 <= i < 7 ensures Reference(all[i]) && all[i][7] == ('0' as int + i) as char {
      ReferencesDiffer(('0' as int + i) as char, '0');
    }
    assert forall i | 0 <= i < 6 :: all[i] == r.refs[i];
  }

  /** There are well-formed requests. */
  lemma {:induction false} SampleWellFormed()
    ensures WellFormed(SampleIssue())
  {
    SampleReferences();
    SampleLeaseShape('6');
  }

  // ----- Reading is exact -----

  /** Every number in the value is a canonical token, as the strict decoder ensures. */
  ghost predicate CanonicalValue(v: Value) {
    match v
    case Object(members) => forall k | k in members :: CanonicalValue(members[k])
    case Array(elements) => forall i | 0 <= i < |elements| :: CanonicalValue(elements[i])
    case Num(digits) => Canonical(digits)
    case _ => true
  }

  lemma {:induction false} ProperIsCanonical(t: Tree)
    requires Proper(t)
    ensures CanonicalValue(ValueOf(t))
    decreases t, 1
  {
    match t
    case ObjectTree(ms) => ProperMembers(ms);
    case ArrayTree(es) => ProperElements(es);
    case NumberTree(s) => CanonicalBijection(s, 0, 0);
    case _ =>
  }

  lemma {:induction false} ProperMembers(ms: seq<Member>)
    requires forall i | 0 <= i < |ms| :: Proper(ms[i].tree)
    ensures forall k | k in MembersOf(ms) :: CanonicalValue(MembersOf(ms)[k])
    decreases ms, 0
  {
    if ms != [] {
      ProperMembers(ms[..|ms| - 1]);
      ProperIsCanonical(ms[|ms| - 1].tree);
    }
  }

  lemma {:induction false} ProperElements(es: seq<Tree>)
    requires forall i | 0 <= i < |es| :: Proper(es[i])
    ensures forall i | 0 <= i < |ElementsOf(es)| :: CanonicalValue(ElementsOf(es)[i])
    decreases es, 0
  {
    if es != [] {
      ProperElements(es[..|es| - 1]);
      ProperIsCanonical(es[|es| - 1]);
    }
  }

  function Numeral(n: nat): Value {
    Num(Decimal.Print(n))
  }

  function NumbersOf(l: Lease): seq<nat> {
    [l.observed, l.expected, l.target, l.renewals, l.policies, l.ttl, l.wrapTtl]
  }

  predicate Narrow(numbers: seq<nat>) {
    forall i | 0 <= i < |numbers| :: numbers[i] < TWO_64
  }

  /** The fields of a lease object say what the lease says. */
  ghost predicate LeaseSays(f: seq<Value>, l: Lease)
    requires |f| == 12
  {
    && f[0] == String(l.ref) && f[1] == String(StateWord(l.state))
    && (forall i | 0 <= i < 7 :: f[2..9][i] == Numeral(NumbersOf(l)[i]))
    && f[9] == Bool(l.renewable) && f[10] == String(l.notBefore) && f[11] == String(l.expiresAt)
  }

  /** The fields before the two nested objects. */
  ghost predicate HeadSays(f: seq<Value>, r: Request)
    requires |f| == 10
  {
    && f[0] == String(API_VERSION) && f[1] == String(Word(r.operation))
    && |r.refs| == 6 && forall i | 0 <= i < 6 :: f[2..8][i] == String(r.refs[i])
  }

  ghost predicate LeaseRepresents(v: Value, l: Lease) {
    Fields(v, LEASE_KEYS).Some? && LeaseSays(Fields(v, LEASE_KEYS).value, l)
  }

  ghost predicate FieldsSay(f: seq<Value>, r: Request)
    requires |f| == 10
  {
    HeadSays(f, r) && LeaseRepresents(f[8], r.lease) && AssertionsHold(f[9])
  }

  /** The value says exactly what the request says, under exactly the keys of the schema. */
  ghost predicate Represents(v: Value, r: Request) {
    match Fields(v, ROOT_KEYS)
    case None => false
    case Some(f) => FieldsSay(f, r)
  }

  lemma {:induction false} FieldCanonical(v: Value, keys: seq<string>)
    requires CanonicalValue(v) && Fields(v, keys).Some?
    ensures forall i | 0 <= i < |keys| :: CanonicalValue(Fields(v, keys).value[i])
  {
  }

  lemma {:induction false} NumeralRead(v: Value, n: nat)
    requires CanonicalValue(v)
    ensures UnsignedValue(v) == Some(n) <==> n < TWO_64 && v == Numeral(n)
  {
    ValueOfPrint(n);
    if v.Num? { AcceptedTokens(v.digits, n); }
  }

  lemma {:induction false} NumbersRead(f: seq<Value>, n: seq<nat>)
    requires |f| == |n| && forall i | 0 <= i < |f| :: CanonicalValue(f[i])
    ensures ReadNumbers(f) == Some(n) <==> forall i | 0 <= i < |n| :: n[i] < TWO_64 && f[i] == Numeral(n[i])
  {
    forall i | 0 <= i < |n|
      ensures UnsignedValue(f[i]) == Some(n[i]) <==> n[i] < TWO_64 && f[i] == Numeral(n[i])
    {
      NumeralRead(f[i], n[i]);
    }
    if forall i | 0 <= i < |n| :: n[i] < TWO_64 && f[i] == Numeral(n[i]) {
      assert ReadNumbers(f).value == n;
    }
  }

  lemma {:induction false} LeaseNumbers(f: seq<Value>, l: Lease)
    requires |f| == 12 && LeaseFrom(f) == Some(l)
    ensures ReadNumbers(f[2..9]) == Some(NumbersOf(l))
  {
    assert ReadNumbers(f[2..9]).value == NumbersOf(l);
  }

  lemma {:induction false} LeaseReadsBack(f: seq<Value>, l: Lease)
    requires |f| == 12 && LeaseSays(f, l) && Reference(l.ref)
    requires ReadNumbers(f[2..9]) == Some(NumbersOf(l))
    ensures LeaseFrom(f) == Some(l)
  {
    WordsRead(Issue, l.state, StateWord(l.state));
  }

  lemma {:induction false} LeaseReadsOnly(f: seq<Value>, l: Lease)
    requires |f| == 12 && LeaseFrom(f) == Some(l)
    requires forall i | 0 <= i < 7 :: f[2..9][i] == Numeral(NumbersOf(l)[i])
    ensures LeaseSays(f, l) && Reference(l.ref)
  {
    WordsRead(Issue, l.state, f[1].text);
  }

  lemma {:induction false} LeaseReads(f: seq<Value>, l: Lease)
    requires |f| == 12 && forall i | 0 <= i < 12 :: CanonicalValue(f[i])
    ensures LeaseFrom(f) == Some(l)
       <==> LeaseSays(f, l) && Reference(l.ref) && Narrow(NumbersOf(l))
  {
    NumbersRead(f[2..9], NumbersOf(l));
    if LeaseFrom(f) == Some(l) {
      LeaseNumbers(f, l);
      LeaseReadsOnly(f, l);
    }
    if LeaseSays(f, l) && Reference(l.ref) && Narrow(NumbersOf(l)) {
      LeaseReadsBack(f, l);
    }
  }

  lemma {:induction false} ParseLeaseReads(v: Value, l: Lease)
    requires CanonicalValue(v)
    ensures ParseLease(v) == Some(l)
       <==> && Fields(v, LEASE_KEYS).Some? && LeaseSays(Fields(v, LEASE_KEYS).value, l) && Reference(l.ref)
            && Narrow(NumbersOf(l)) && LeaseBounds(l) && LeaseTimes(l)
  {
    if Fields(v, LEASE_KEYS).Some? {
      FieldCanonical(v, LEASE_KEYS);
      LeaseReads(Fields(v, LEASE_KEYS).value, l);
    }
  }

  lemma {:induction false} ReferencesRead(f: seq<Value>, refs: seq<string>)
    requires |f| == |refs|
    ensures ReadReferences(f) == Some(refs)
       <==> forall i | 0 <= i < |refs| :: f[i] == String(refs[i]) && Reference(refs[i])
  {
    if ReadReferences(f) == Some(refs) {
      forall i | 0 <= i < |refs| ensures f[i] == String(refs[i]) && Reference(refs[i]) {
        assert ReferenceValue(f[i]) == Some(refs[i]);
      }
    }
    if forall i | 0 <= i < |refs| :: f[i] == String(refs[i]) && Reference(refs[i]) {
      assert forall i | 0 <= i < |refs| :: ReferenceValue(f[i]) == Some(refs[i]);
      assert ReadReferences(f).value == refs;
    }
  }

  ghost predicate BodySays(f: seq<Value>, r: Request)
    requires |f| == 10
  {
    ParseLease(f[8]) == Some(r.lease) && AssertionsHold(f[9])
  }

  lemma {:induction false} HeadReads(f: seq<Value>, r: Request)
    requires |f| == 10
    ensures RequestFrom(f) == Some(r)
       <==> && HeadSays(f, r) && (forall i | 0 <= i < 6 :: Reference(r.refs[i])) && BodySays(f, r)
            && Distinct(r.refs + [r.lease.ref]) && ValidTransition(r.operation, r.lease)
  {
    if f[1].String? { WordsRead(r.operation, Absent, f[1].text); }
    if |r.refs| == 6 { ReferencesRead(f[2..8], r.refs); }
  }

  lemma {:induction false} LeaseNumbersBounded(l: Lease)
    requires LeaseBounds(l)
    ensures Narrow(NumbersOf(l)) <==> LeaseWidths(l)
  {
    var n := NumbersOf(l);
    assert n[0] == l.observed && n[1] == l.expected && n[2] == l.target && n[3] == l.renewals;
    assert n[4] == l.policies && n[5] == l.ttl && n[6] == l.wrapTtl;
  }

  lemma {:induction false} LeaseFieldReads(v: Value, l: Lease)
    requires CanonicalValue(v)
    ensures ParseLease(v) == Some(l)
       <==> LeaseRepresents(v, l) && LeaseWellShaped(l) && LeaseWidths(l)
  {
    ParseLeaseReads(v, l);
    if LeaseBounds(l) { LeaseNumbersBounded(l); }
  }

  lemma {:induction false} FieldsRead(f: seq<Value>, r: Request)
    requires |f| == 10 && CanonicalValue(f[8])
    ensures RequestFrom(f) == Some(r) <==> WellFormed(r) && FieldsSay(f, r)
  {
    HeadReads(f, r);
    LeaseFieldReads(f[8], r.lease);
  }

  /**
   Main result for parsing: a canonical value is read as a request exactly when the request is well
   formed and the value represents it.
   */
  lemma {:induction false} RequestReads(v: Value, r: Request)
    requires CanonicalValue(v)
    ensures ParseRequest(v) == Some(r) <==> WellFormed(r) && Represents(v, r)
  {
    if Fields(v, ROOT_KEYS).Some? {
      var f := Fields(v, ROOT_KEYS).value;
      FieldCanonical(v, ROOT_KEYS);
      FieldsRead(f, r);
    }
  }

  // ----- A request has one representation -----

  lemma {:induction false} RootKeysDistinct()
    ensures Distinct(ROOT_KEYS)
  {
    assert |"apiVersion"| == 10 && |"requestRef"| == 10 && |"subjectRef"| == 10 && |"assertions"| == 10;
    assert "apiVersion"[1] == 'p' && "requestRef"[1] == 'e' && "subjectRef"[1] == 'u' && "assertions"[1] == 's';
    assert |"operation"| == 9 && |"roleRef"| == 7 && |"policySetRef"| == 12 && |"audienceRef"| == 11;
    assert |"idempotencyRef"| == 14 && |"lease"| == 5;
  }

  lemma {:induction false} LeaseKeysDistinct()
    ensures Distinct(LEASE_KEYS)
  {
    assert |"leaseRef"| == 8 && |"currentState"| == 12 && |"observedGeneration"| == 18 && |"expectedGeneration"| == 18;
    assert "observedGeneration"[0] == 'o' && "expectedGeneration"[0] == 'e' && |"targetGeneration"| == 16;
    assert "renewalCount"[0] == 'r' && "currentState"[0] == 'c' && |"renewalCount"| == 12;
    assert |"policyCount"| == 11 && |"ttlSeconds"| == 10 && |"wrapTTLSeconds"| == 14;
    assert |"renewable"| == 9 && "notBefore"[0] == 'n' && "expiresAt"[0] == 'e' && "renewable"[0] == 'r';
    assert |"notBefore"| == 9 && |"expiresAt"| == 9;
  }

  lemma {:induction false} AssertionKeysDistinct()
    ensures Distinct(ASSERTION_KEYS)
  {
    assert "subjectAuthenticated"[0] == 's' && "policyAuthorized"[0] == 'p' && "issuerAttested"[0] == 'i';
    assert "transportProtected"[0] == 't' && "requestFresh"[0] == 'r';
  }

  lemma {:induction false} SaidOnce(f: seq<Value>, g: seq<Value>, r: Request)
    requires |f| == 10 && |g| == 10 && HeadSays(f, r) && HeadSays(g, r) && f[8] == g[8] && f[9] == g[9]
    ensures f == g
  {
    forall i | 0 <= i < 10 ensures f[i] == g[i] {
      if 2 <= i < 8 {
        assert f[2..8][i - 2] == g[2..8][i - 2];
      }
    }
  }

  lemma {:induction false} LeaseSaidOnce(f: seq<Value>, g: seq<Value>, l: Lease)
    requires |f| == 12 && |g| == 12 && LeaseSays(f, l) && LeaseSays(g, l)
    ensures f == g
  {
    forall i | 0 <= i < 12 ensures f[i] == g[i] {
      if 2 <= i < 9 {
        assert f[2..9][i - 2] == g[2..9][i - 2];
      }
    }
  }

  lemma {:induction false} LeaseOnce(v: Value, w: Value, l: Lease)
    requires LeaseRepresents(v, l) && LeaseRepresents(w, l)
    ensures v == w
  {
    LeaseSaidOnce(Fields(v, LEASE_KEYS).value, Fields(w, LEASE_KEYS).value, l);
    LeaseKeysDistinct();
    FieldsDetermine(v, w, LEASE_KEYS);
  }

  lemma {:induction false} AssertionsOnce(v: Value, w: Value)
    requires AssertionsHold(v) && AssertionsHold(w)
    ensures v == w
  {
    AssertionKeysDistinct();
    assert Fields(v, ASSERTION_KEYS).value == Fields(w, ASSERTION_KEYS).value;
    FieldsDetermine(v, w, ASSERTION_KEYS);
  }

  /** Nothing in an accepted value escapes the request: the value is determined by what was read. */
  lemma {:induction false} ReadingLosesNothing(v: Value, w: Value, r: Request)
    requires Represents(v, r) && Represents(w, r)
    ensures v == w
  {
    var f, g := Fields(v, ROOT_KEYS).value, Fields(w, ROOT_KEYS).value;
    LeaseOnce(f[8], g[8], r.lease);
    AssertionsOnce(f[9], g[9]);
    SaidOnce(f, g, r);
    RootKeysDistinct();
    FieldsDetermine(v, w, ROOT_KEYS);
  }

  lemma {:induction false} SameNumbers(a: Lease, b: Lease)
    requires forall i | 0 <= i < 7 :: NumbersOf(a)[i] == NumbersOf(b)[i]
    ensures a.observed == b.observed && a.expected == b.expected && a.target == b.target && a.renewals == b.renewals
    ensures a.policies == b.policies && a.ttl == b.ttl && a.wrapTtl == b.wrapTtl
  {
    var m, n := NumbersOf(a), NumbersOf(b);
    assert m[0] == n[0] && m[1] == n[1] && m[2] == n[2] && m[3] == n[3] && m[4] == n[4] && m[5] == n[5] && m[6] == n[6];
  }

  lemma {:induction false} LeaseSaysOne(f: seq<Value>, a: Lease, b: Lease)
    requires |f| == 12 && LeaseSays(f, a) && LeaseSays(f, b)
    ensures a == b
  {
    WordsRead(Issue, a.state, StateWord(b.state));
    forall i | 0 <= i < 7 ensures NumbersOf(a)[i] == NumbersOf(b)[i] {
      assert f[2..9][i] == Numeral(NumbersOf(a)[i]) && f[2..9][i] == Numeral(NumbersOf(b)[i]);
      CanonicalBijection("", NumbersOf(a)[i], NumbersOf(b)[i]);
    }
    SameNumbers(a, b);
  }

  /** A value says one request only. */
  lemma {:induction false} RepresentsOne(v: Value, a: Request, b: Request)
    requires Represents(v, a) && Represents(v, b)
    ensures a == b
  {
    var f := Fields(v, ROOT_KEYS).value;
    WordsRead(a.operation, Absent, Word(b.operation));
    forall i | 0 <= i < 6 ensures a.refs[i] == b.refs[i] {
      assert f[2..8][i] == String(a.refs[i]) && f[2..8][i] == String(b.refs[i]);
    }
    assert a.refs == b.refs;
    LeaseSaysOne(Fields(f[8], LEASE_KEYS).value, a.lease, b.lease);
  }

  // ----- The reading code -----

  method ReadAssertions(v: Value) returns (ok: bool)
    ensures ok <==> AssertionsHold(v)
  {
    if !v.Object? {
      return false;
    }
    var exact := ExactKeys(v.members, ASSERTION_KEYS);
    if !exact {
      return false;
    }
    ghost var f := Fields(v, ASSERTION_KEYS).value;
    for i := 0 to |ASSERTION_KEYS|
      invariant forall j | 0 <= j < i :: f[j] == Bool(true)
    {
      var field := v.members[ASSERTION_KEYS[i]];
      assert field == f[i];
      if field != Bool(true) {
        return false;
      }
    }
    return true;
  }

  /** The members under `keys`, or nothing when the keys are not exactly these. */
  method ReadFields(v: Value, keys: seq<string>) returns (r: Option<seq<Value>>)
    ensures r == Fields(v, keys)
  {
    if !v.Object? {
      return None;
    }
    var exact := ExactKeys(v.members, keys);
    if !exact {
      return None;
    }
    return Some(seq(|keys|, i requires 0 <= i < |keys| => v.members[keys[i]]));
  }

  method ReadLease(v: Value) returns (r: Option<Lease>)
    ensures r == ParseLease(v)
  {
    var fields := ReadFields(v, LEASE_KEYS);
    if fields.None? {
      return None;
    }
    var f := fields.value;
    if !f[0].String? || !Reference(f[0].text) || !f[1].String? || StateOf(f[1].text).None? {
      return None;
    }
    var numbers := FillNumbers(f[2..9]);
    if numbers.None? || !f[9].Bool? || !f[10].String? || !f[11].String? {
      return None;
    }
    var n := numbers.value;
    var lease := Lease(
      f[0].text, StateOf(f[1].text).value, n[0], n[1], n[2], n[3], n[4], n[5], n[6], f[9].b, f[10].text, f[11].text);
    assert LeaseFrom(f) == Some(lease);
    if !LeaseBounds(lease) || !LeaseTimes(lease) {
      return None;
    }
    return Some(lease);
  }

  /** `Parse` of the planner after decoding. */
  method ReadRequest(v: Value) returns (r: Option<Request>)
    ensures r == ParseRequest(v)
  {
    var fields := ReadFields(v, ROOT_KEYS);
    if fields.None? {
      return None;
    }
    var f := fields.value;
    if f[0] != String(API_VERSION) || !f[1].String? {
      return None;
    }
    var operation := OperationOf(f[1].text);
    var refs := FillReferences(f[2..8]);
    var lease := ReadLease(f[8]);
    var asserted := ReadAssertions(f[9]);
    if operation.None? || refs.None? || lease.None? || !asserted {
      return None;
    }
    var unique := AllUnique(refs.value + [lease.value.ref]);
    if !unique || !ValidTransition(operation.value, lease.value) {
      return None;
    }
    return Some(Request(operation.value, refs.value, lease.value));
  }
}
