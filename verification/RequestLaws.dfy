/**
 What the planner accepts, field by field: the transition rules as one uniform law, and for every
 field of an accepted request the values that could stand in its place.
 */
module RequestLaws {
  import opened Decimal
  import opened Calendar
  import opened Planner
  import opened Strings
  import opened StrictJson
  import Hex

  // ----- Transitions -----

  predicate Creates(operation: Operation) {
    operation.Issue? || operation.Rotate?
  }

  /**
   The observed generation is the expected one; it is 0, and the lease absent, exactly for an issue,
   and the lease is active otherwise; the target is the next generation for an issue or a rotation
   and the same one for the others; an issue has no renewals behind it, and a renewal needs a
   renewable lease and room for one more.
   */
  predicate Lawful(operation: Operation, lease: Lease) {
    && lease.expected == lease.observed
    && (lease.observed == 0 <==> operation.Issue?)
    && lease.state == (if operation.Issue? then Absent else Active)
    && lease.target == lease.observed + (if Creates(operation) then 1 else 0)
    && (operation.Issue? ==> lease.renewals == 0)
    && (operation.Renew? ==> lease.renewable && lease.renewals < 1000)
  }

  lemma {:induction false} TransitionLaw(operation: Operation, lease: Lease)
    requires LeaseWidths(lease)
    ensures ValidTransition(operation, lease) <==> Lawful(operation, lease)
  {
  }

  // ----- Fields that could be otherwise -----

  lemma {:induction false} ShapeReplaced(r: Request, lease: Lease)
    requires WellShaped(r) && lease.ref == r.lease.ref
    ensures WellShaped(r.(lease := lease)) <==> LeaseBounds(lease) && LeaseTimes(lease)
  {
    assert r.(lease := lease).refs == r.refs;
  }

  lemma {:induction false} SameTimes(a: Lease, b: Lease)
    requires LeaseTimes(a) && b.notBefore == a.notBefore && b.expiresAt == a.expiresAt && b.ttl == a.ttl
    ensures LeaseTimes(b)
  {
  }

  /** Only a renewal cares whether the lease is renewable. */
  lemma {:induction false} RenewableRange(r: Request, b: bool)
    requires WellFormed(r.(lease := r.lease.(renewable := true)))
    ensures WellFormed(r.(lease := r.lease.(renewable := b))) <==> b || !r.operation.Renew?
  {
    var q, lease := r.(lease := r.lease.(renewable := true)), r.lease.(renewable := b);
    SameTimes(q.lease, lease);
    ShapeReplaced(q, lease);
    assert q.(lease := lease) == r.(lease := lease);
    TransitionLaw(r.operation, lease);
    TransitionLaw(r.operation, q.lease);
  }

  lemma {:induction false} PolicyRange(r: Request, n: nat)
    requires WellFormed(r)
    ensures WellFormed(r.(lease := r.lease.(policies := n))) <==> 1 <= n <= 64
  {
    var lease := r.lease.(policies := n);
    SameTimes(r.lease, lease);
    ShapeReplaced(r, lease);
    TransitionLaw(r.operation, lease);
    TransitionLaw(r.operation, r.lease);
  }

  lemma {:induction false} WrapRange(r: Request, n: nat)
    requires WellFormed(r)
    ensures WellFormed(r.(lease := r.lease.(wrapTtl := n))) <==> 30 <= n <= 600 && n <= r.lease.ttl
  {
    var lease := r.lease.(wrapTtl := n);
    SameTimes(r.lease, lease);
    ShapeReplaced(r, lease);
    TransitionLaw(r.operation, lease);
    TransitionLaw(r.operation, r.lease);
  }

  lemma {:induction false} RenewalRange(r: Request, n: nat)
    requires WellFormed(r)
    ensures WellFormed(r.(lease := r.lease.(renewals := n)))
       <==> if r.operation.Issue? then n == 0 else if r.operation.Renew? then n < 1000 else n <= 1000
  {
    var lease := r.lease.(renewals := n);
    SameTimes(r.lease, lease);
    ShapeReplaced(r, lease);
    TransitionLaw(r.operation, lease);
    TransitionLaw(r.operation, r.lease);
  }

  lemma {:induction false} TimesRange(l: Lease, n: nat, expiresAt: string)
    requires CanonicalTime(l.notBefore)
    ensures LeaseTimes(l.(ttl := n, expiresAt := expiresAt))
       <==> n > 0 && CanonicalTime(expiresAt) && Instant(expiresAt) == Instant(l.notBefore) + n
  {
  }

  lemma {:induction false} BoundsRange(l: Lease, n: nat, expiresAt: string)
    requires LeaseBounds(l)
    ensures LeaseBounds(l.(ttl := n, expiresAt := expiresAt)) <==> 60 <= n <= 12 * 60 * 60 && l.wrapTtl <= n
  {
  }

  lemma {:induction false} TransitionRange(operation: Operation, l: Lease, n: nat, expiresAt: string)
    ensures ValidTransition(operation, l.(ttl := n, expiresAt := expiresAt)) <==> ValidTransition(operation, l)
  {
  }

  /** The lease may last any time from a minute to twelve hours, and must last exactly as long as it says. */
  lemma {:induction false} DurationRange(r: Request, n: nat, expiresAt: string)
    requires WellFormed(r)
    ensures WellFormed(r.(lease := r.lease.(ttl := n, expiresAt := expiresAt)))
       <==> && 60 <= n <= 12 * 60 * 60 && r.lease.wrapTtl <= n
            && CanonicalTime(expiresAt) && Instant(expiresAt) == Instant(r.lease.notBefore) + n
  {
    ShapeReplaced(r, r.lease.(ttl := n, expiresAt := expiresAt));
    TimesRange(r.lease, n, expiresAt);
    BoundsRange(r.lease, n, expiresAt);
    TransitionRange(r.operation, r.lease, n, expiresAt);
  }

  /** The generations of an accepted request can change together only. */
  lemma {:induction false} GenerationRange(r: Request, observed: nat, expected: nat, target: nat)
    requires WellFormed(r) && observed < TWO_64 && expected < TWO_64 && target < TWO_64
    ensures WellFormed(r.(lease := r.lease.(observed := observed, expected := expected, target := target)))
       <==> && expected == observed && (observed == 0 <==> r.operation.Issue?)
            && target == observed + (if r.operation.Issue? || r.operation.Rotate? then 1 else 0)
  {
    var lease := r.lease.(observed := observed, expected := expected, target := target);
    SameTimes(r.lease, lease);
    ShapeReplaced(r, lease);
    TransitionLaw(r.operation, lease);
    TransitionLaw(r.operation, r.lease);
  }

  // ----- References -----

  /** A reference is the prefix and the lower-case hex text of 32 bytes. */
  lemma {:induction false} ReferenceExactly(text: string)
    ensures Reference(text) <==> "sha256:" <= text && Hex.EncodesBytes(text[7..], 32)
  {
    if "sha256:" <= text {
      Hex.EncodesExactly(text[7..], 32);
      forall i | 7 <= i < |text| ensures LowerHex(text[i]) <==> text[7..][i - 7] in Hex.DIGITS {
        LowerIsListed(text[i]);
      }
      if Hex.LowerDigits(text[7..]) {
        forall i | 7 <= i < |text| ensures LowerHex(text[i]) { assert text[7..][i - 7] in Hex.DIGITS; }
      }
    }
  }

  lemma {:induction false} LowerIsListed(c: char)
    ensures LowerHex(c) <==> c in Hex.DIGITS
  {
    if c in Hex.DIGITS { Hex.LowerIsListed(c); }
    if LowerHex(c) { Hex.DigitsAreListed(c, Hex.DigitAt(c).value); }
  }

  // ----- Documents by key -----

  predicate HasMember(v: Value, key: string, value: Value) {
    v.Object? && key in v.members && v.members[key] == value
  }

  predicate HasExactly(v: Value, keys: set<string>) {
    v.Object? && v.members.Keys == keys
  }

  /** The text of an operation and of a state. */
  predicate Names(operation: Operation, text: string) {
    match operation
    case Issue => text == "issue"
    case Renew => text == "renew"
    case Rotate => text == "rotate"
    case Revoke => text == "revoke"
  }

  predicate NamesState(state: LeaseState, text: string) {
    match state
    case Absent => text == "absent"
    case Active => text == "active"
    case Revoked => text == "revoked"
  }

  predicate LeaseTextsByKey(v: Value, l: Lease) {
    && HasMember(v, "leaseRef", String(l.ref)) && HasMember(v, "renewable", Bool(l.renewable))
    && HasMember(v, "notBefore", String(l.notBefore)) && HasMember(v, "expiresAt", String(l.expiresAt))
  }

  predicate LeaseNumbersByKey(v: Value, l: Lease) {
    && HasMember(v, "observedGeneration", Numeral(l.observed)) && HasMember(v, "expectedGeneration", Numeral(l.expected))
    && HasMember(v, "targetGeneration", Numeral(l.target)) && HasMember(v, "renewalCount", Numeral(l.renewals))
    && HasMember(v, "policyCount", Numeral(l.policies)) && HasMember(v, "ttlSeconds", Numeral(l.ttl))
    && HasMember(v, "wrapTTLSeconds", Numeral(l.wrapTtl))
  }

  ghost predicate StateByKey(v: Value, state: LeaseState) {
    exists text :: NamesState(state, text) && HasMember(v, "currentState", String(text))
  }

  ghost predicate LeaseByKey(v: Value, l: Lease) {
    && HasExactly(v, {"leaseRef", "currentState", "observedGeneration", "expectedGeneration", "targetGeneration",
                      "renewalCount", "policyCount", "ttlSeconds", "wrapTTLSeconds", "renewable", "notBefore", "expiresAt"})
    && LeaseTextsByKey(v, l) && StateByKey(v, l.state) && LeaseNumbersByKey(v, l)
  }

  lemma {:induction false} StateNamed(state: LeaseState, text: string)
    ensures text == StateWord(state) <==> NamesState(state, text)
  {
  }

  lemma {:induction false} LeaseKeySet(v: Value)
    requires v.Object?
    ensures HasKeys(v.members, LEASE_KEYS)
       <==> HasExactly(v, {"leaseRef", "currentState", "observedGeneration", "expectedGeneration", "targetGeneration",
                           "renewalCount", "policyCount", "ttlSeconds", "wrapTTLSeconds", "renewable", "notBefore", "expiresAt"})
  {
    LeaseKeysDistinct();
    ExactlyTheKeys(v.members, LEASE_KEYS);
    assert Elements(LEASE_KEYS)
        == {"leaseRef", "currentState", "observedGeneration", "expectedGeneration", "targetGeneration",
            "renewalCount", "policyCount", "ttlSeconds", "wrapTTLSeconds", "renewable", "notBefore", "expiresAt"};
  }

  lemma {:induction false} FieldMember(v: Value, keys: seq<string>, i: nat, value: Value)
    requires Fields(v, keys).Some? && i < |keys|
    ensures Fields(v, keys).value[i] == value <==> HasMember(v, keys[i], value)
  {
  }

  lemma {:induction false} LeaseTextFields(v: Value, l: Lease)
    requires Fields(v, LEASE_KEYS).Some?
    ensures LeaseTextsByKey(v, l)
       <==> var f := Fields(v, LEASE_KEYS).value;
            f[0] == String(l.ref) && f[9] == Bool(l.renewable) && f[10] == String(l.notBefore) && f[11] == String(l.expiresAt)
  {
    FieldMember(v, LEASE_KEYS, 0, String(l.ref));
    FieldMember(v, LEASE_KEYS, 9, Bool(l.renewable));
    FieldMember(v, LEASE_KEYS, 10, String(l.notBefore));
    FieldMember(v, LEASE_KEYS, 11, String(l.expiresAt));
  }

  lemma {:induction false} StateField(v: Value, state: LeaseState)
    requires Fields(v, LEASE_KEYS).Some?
    ensures StateByKey(v, state) <==> Fields(v, LEASE_KEYS).value[1] == String(StateWord(state))
  {
    FieldMember(v, LEASE_KEYS, 1, String(StateWord(state)));
    StateNamed(state, StateWord(state));
    forall text | NamesState(state, text) ensures text == StateWord(state) { StateNamed(state, text); }
  }

  lemma {:induction false} LeaseNumberFields(v: Value, l: Lease)
    requires Fields(v, LEASE_KEYS).Some?
    ensures LeaseNumbersByKey(v, l)
       <==> forall i | 0 <= i < 7 :: Fields(v, LEASE_KEYS).value[2..9][i] == Numeral(NumbersOf(l)[i])
  {
    var f, n := Fields(v, LEASE_KEYS).value, NumbersOf(l);
    FieldMember(v, LEASE_KEYS, 2, Numeral(l.observed));
    FieldMember(v, LEASE_KEYS, 3, Numeral(l.expected));
    FieldMember(v, LEASE_KEYS, 4, Numeral(l.target));
    FieldMember(v, LEASE_KEYS, 5, Numeral(l.renewals));
    FieldMember(v, LEASE_KEYS, 6, Numeral(l.policies));
    FieldMember(v, LEASE_KEYS, 7, Numeral(l.ttl));
    FieldMember(v, LEASE_KEYS, 8, Numeral(l.wrapTtl));
    var g := f[2..9];
    assert g[0] == f[2] && g[1] == f[3] && g[2] == f[4] && g[3] == f[5] && g[4] == f[6] && g[5] == f[7] && g[6] == f[8];
    assert n[0] == l.observed && n[1] == l.expected && n[2] == l.target && n[3] == l.renewals;
    assert n[4] == l.policies && n[5] == l.ttl && n[6] == l.wrapTtl;
  }

  /** A lease object says, under each of its twelve names, the field of that name. */
  lemma {:induction false} LeaseExactly(v: Value, l: Lease)
    ensures LeaseRepresents(v, l) <==> LeaseByKey(v, l)
  {
    if v.Object? { LeaseKeySet(v); }
    if Fields(v, LEASE_KEYS).Some? {
      LeaseTextFields(v, l);
      StateField(v, l.state);
      LeaseNumberFields(v, l);
    }
  }

  // ----- The whole document by key -----

  ghost predicate OperationByKey(v: Value, operation: Operation) {
    exists text :: Names(operation, text) && HasMember(v, "operation", String(text))
  }

  predicate RefsByKey(v: Value, refs: seq<string>) {
    && |refs| == 6
    && HasMember(v, "requestRef", String(refs[0])) && HasMember(v, "subjectRef", String(refs[1]))
    && HasMember(v, "roleRef", String(refs[2])) && HasMember(v, "policySetRef", String(refs[3]))
    && HasMember(v, "audienceRef", String(refs[4])) && HasMember(v, "idempotencyRef", String(refs[5]))
  }

  predicate AssertedByKey(v: Value) {
    && HasExactly(v, {"subjectAuthenticated", "policyAuthorized", "issuerAttested", "transportProtected", "requestFresh"})
    && forall k | k in v.members :: v.members[k] == Bool(true)
  }

  ghost predicate RequestByKey(v: Value, r: Request) {
    && HasExactly(v, {"apiVersion", "operation", "requestRef", "subjectRef", "roleRef",
                      "policySetRef", "audienceRef", "idempotencyRef", "lease", "assertions"})
    && HasMember(v, "apiVersion", String("pasturestack.io/vault-secrets-bridge/v1alpha1"))
    && OperationByKey(v, r.operation) && RefsByKey(v, r.refs)
    && LeaseByKey(v.members["lease"], r.lease) && AssertedByKey(v.members["assertions"])
  }

  lemma {:induction false} RootKeySet(v: Value)
    requires v.Object?
    ensures HasKeys(v.members, ROOT_KEYS)
       <==> HasExactly(v, {"apiVersion", "operation", "requestRef", "subjectRef", "roleRef",
                           "policySetRef", "audienceRef", "idempotencyRef", "lease", "assertions"})
  {
    RootKeysDistinct();
    ExactlyTheKeys(v.members, ROOT_KEYS);
    assert Elements(ROOT_KEYS)
        == {"apiVersion", "operation", "requestRef", "subjectRef", "roleRef",
            "policySetRef", "audienceRef", "idempotencyRef", "lease", "assertions"};
  }

  lemma {:induction false} AssertionKeySet(v: Value)
    requires v.Object?
    ensures HasKeys(v.members, ASSERTION_KEYS)
       <==> HasExactly(v, {"subjectAuthenticated", "policyAuthorized", "issuerAttested", "transportProtected", "requestFresh"})
  {
    AssertionKeysDistinct();
    ExactlyTheKeys(v.members, ASSERTION_KEYS);
    assert Elements(ASSERTION_KEYS)
        == {"subjectAuthenticated", "policyAuthorized", "issuerAttested", "transportProtected", "requestFresh"};
  }

  lemma {:induction false} AllFields(v: Value, keys: seq<string>, value: Value)
    requires Distinct(keys) && Fields(v, keys).Some?
    ensures (forall i | 0 <= i < |keys| :: Fields(v, keys).value[i] == value) <==> forall k | k in v.members :: v.members[k] == value
  {
    ExactlyTheKeys(v.members, keys);
    var f := Fields(v, keys).value;
    if forall i | 0 <= i < |keys| :: f[i] == value {
      forall k | k in v.members ensures v.members[k] == value {
        assert k in Elements(keys);
        var i :| 0 <= i < |keys| && keys[i] == k;
        assert f[i] == value;
      }
    }
  }

  lemma {:induction false} AssertionsExactly(v: Value)
    ensures AssertionsHold(v) <==> AssertedByKey(v)
  {
    if v.Object? { AssertionKeySet(v); }
    if Fields(v, ASSERTION_KEYS).Some? {
      AssertionKeysDistinct();
      AllFields(v, ASSERTION_KEYS, Bool(true));
    }
  }

  lemma {:induction false} OperationNamed(operation: Operation, text: string)
    ensures text == Word(operation) <==> Names(operation, text)
  {
  }

  lemma {:induction false} OperationField(v: Value, operation: Operation)
    requires Fields(v, ROOT_KEYS).Some?
    ensures OperationByKey(v, operation) <==> Fields(v, ROOT_KEYS).value[1] == String(Word(operation))
  {
    FieldMember(v, ROOT_KEYS, 1, String(Word(operation)));
    OperationNamed(operation, Word(operation));
    forall text | Names(operation, text) ensures text == Word(operation) { OperationNamed(operation, text); }
  }

  lemma {:induction false} RefFields(v: Value, refs: seq<string>)
    requires Fields(v, ROOT_KEYS).Some?
    ensures RefsByKey(v, refs)
       <==> |refs| == 6 && forall i | 0 <= i < 6 :: Fields(v, ROOT_KEYS).value[2..8][i] == String(refs[i])
  {
    if |refs| == 6 {
      var f := Fields(v, ROOT_KEYS).value;
      FieldMember(v, ROOT_KEYS, 2, String(refs[0]));
      FieldMember(v, ROOT_KEYS, 3, String(refs[1]));
      FieldMember(v, ROOT_KEYS, 4, String(refs[2]));
      FieldMember(v, ROOT_KEYS, 5, String(refs[3]));
      FieldMember(v, ROOT_KEYS, 6, String(refs[4]));
      FieldMember(v, ROOT_KEYS, 7, String(refs[5]));
      var g := f[2..8];
      assert g[0] == f[2] && g[1] == f[3] && g[2] == f[4] && g[3] == f[5] && g[4] == f[6] && g[5] == f[7];
    }
  }

  /** A document represents a request exactly when it says, under each name of the schema, what the request says. */
  lemma {:induction false} RepresentsExactly(v: Value, r: Request)
    ensures Represents(v, r) <==> RequestByKey(v, r)
  {
    if v.Object? { RootKeySet(v); }
    if Fields(v, ROOT_KEYS).Some? {
      var f := Fields(v, ROOT_KEYS).value;
      FieldMember(v, ROOT_KEYS, 0, String(API_VERSION));
      OperationField(v, r.operation);
      RefFields(v, r.refs);
      assert f[8] == v.members["lease"] && f[9] == v.members["assertions"];
      LeaseExactly(f[8], r.lease);
      AssertionsExactly(f[9]);
    }
  }
}
