/**
 Plan identifiers: the document that `planID` marshals for a request, and its text, which the
 identifier hashes. The hash is not modelled; what is proved is that the text determines the request
 and that it is the text of the accepted document with its members in schema order.
 */
module PlanText {
  import opened Strings
  import opened Decimal
  import opened StrictJson
  import opened Planner
  import JsonText

  function Texts(texts: seq<string>): seq<Tree> {
    seq(|texts|, i requires 0 <= i < |texts| => TextTree(texts[i]))
  }

  function Numbers(numbers: seq<nat>): seq<Tree> {
    seq(|numbers|, i requires 0 <= i < |numbers| => NumberTree(Decimal.Print(numbers[i])))
  }

  /** The object with these keys and values, in this order. */
  function ObjectOf(keys: seq<string>, trees: seq<Tree>): Tree
    requires |keys| == |trees|
  {
    ObjectTree(seq(|keys|, i requires 0 <= i < |keys| => Member(keys[i], trees[i])))
  }

  function Booleans(bs: seq<bool>): seq<Tree> {
    seq(|bs|, i requires 0 <= i < |bs| => BooleanTree(bs[i]))
  }

  /** The request struct as any caller of `BuildPlan` may fill it, accepted or not. */
  datatype Struct = Struct(
    operation: string, refs: seq<string>, leaseRef: string, state: string, numbers: seq<nat>,
    renewable: bool, notBefore: string, expiresAt: string, assertions: seq<bool>)
  {
    predicate Shaped() {
      |refs| == 6 && |numbers| == 7 && |assertions| == 5
    }
  }

  /** An accepted request; its assertions are all true. */
  function StructOf(r: Request): (w: Struct)
    ensures |r.refs| == 6 ==> w.Shaped()
  {
    var l := r.lease;
    Struct(Word(r.operation), r.refs, l.ref, StateWord(l.state), NumbersOf(l), l.renewable, l.notBefore, l.expiresAt, [true, true, true, true, true])
  }

  function LeaseTrees(w: Struct): (trees: seq<Tree>)
    requires w.Shaped()
    ensures |trees| == 12
  {
    Texts([w.leaseRef, w.state]) + Numbers(w.numbers) + [BooleanTree(w.renewable)] + Texts([w.notBefore, w.expiresAt])
  }

  function LeaseDocument(w: Struct): Tree
    requires w.Shaped()
  {
    ObjectOf(LEASE_KEYS, LeaseTrees(w))
  }

  function RootTrees(w: Struct): (trees: seq<Tree>)
    requires w.Shaped()
    ensures |trees| == 10
  {
    Texts([API_VERSION, w.operation]) + Texts(w.refs)
    + [LeaseDocument(w), ObjectOf(ASSERTION_KEYS, Booleans(w.assertions))]
  }

  /** The struct handed to `json.Marshal`, its fields in the order of their declaration. */
  function StructDocument(w: Struct): Tree
    requires w.Shaped()
  {
    ObjectOf(ROOT_KEYS, RootTrees(w))
  }

  /** The text that `planID` hashes. */
  function PlanText(w: Struct): string
    requires w.Shaped()
  {
    JsonText.Text(StructDocument(w))
  }

  function DocumentOf(r: Request): Tree
    requires |r.refs| == 6
  {
    StructDocument(StructOf(r))
  }

  // ----- The document reads back as the request -----

  lemma {:induction false} ObjectFields(keys: seq<string>, trees: seq<Tree>)
    requires |keys| == |trees| && Distinct(keys)
    ensures Fields(ValueOf(ObjectOf(keys, trees)), keys).Some?
    ensures forall i | 0 <= i < |keys| :: Fields(ValueOf(ObjectOf(keys, trees)), keys).value[i] == ValueOf(trees[i])
  {
    var ms := ObjectOf(keys, trees).members;
    MembersByKey(ms);
    var members := MembersOf(ms);
    forall k ensures k in members.Keys <==> k in Elements(keys) {
      if k in members {
        var i :| 0 <= i < |ms| && ms[i].key == k;
        assert keys[i] == k;
      }
      if k in keys {
        var i :| 0 <= i < |keys| && keys[i] == k;
        assert ms[i].key == k;
      }
    }
    ExactlyTheKeys(members, keys);
    forall i | 0 <= i < |keys| ensures members[keys[i]] == ValueOf(trees[i]) {
      assert ms[i].key == keys[i] && ms[i].tree == trees[i];
    }
  }

  lemma {:induction false} LeaseDocumentSays(r: Request)
    requires |r.refs| == 6
    ensures LeaseRepresents(ValueOf(LeaseDocument(StructOf(r))), r.lease)
  {
    LeaseKeysDistinct();
    var trees, lease := LeaseTrees(StructOf(r)), r.lease;
    ObjectFields(LEASE_KEYS, trees);
    var f := Fields(ValueOf(LeaseDocument(StructOf(r))), LEASE_KEYS).value;
    assert trees[0] == TextTree(lease.ref) && trees[1] == TextTree(StateWord(lease.state));
    forall i | 0 <= i < 7 ensures f[2..9][i] == Numeral(NumbersOf(lease)[i]) {
      assert trees[2 + i] == NumberTree(Decimal.Print(NumbersOf(lease)[i]));
    }
    assert trees[9] == BooleanTree(lease.renewable);
    assert trees[10] == TextTree(lease.notBefore) && trees[11] == TextTree(lease.expiresAt);
  }

  lemma {:induction false} AssertionsSay()
    ensures AssertionsHold(ValueOf(ObjectOf(ASSERTION_KEYS, Booleans([true, true, true, true, true]))))
  {
    AssertionKeysDistinct();
    ObjectFields(ASSERTION_KEYS, Booleans([true, true, true, true, true]));
  }

  lemma {:induction false} DocumentRepresents(r: Request)
    requires |r.refs| == 6
    ensures Represents(ValueOf(DocumentOf(r)), r)
  {
    RootKeysDistinct();
    var trees := RootTrees(StructOf(r));
    ObjectFields(ROOT_KEYS, trees);
    var f := Fields(ValueOf(DocumentOf(r)), ROOT_KEYS).value;
    assert trees[0] == TextTree(API_VERSION) && trees[1] == TextTree(Word(r.operation));
    forall i | 0 <= i < 6 ensures f[2..8][i] == String(r.refs[i]) {
      assert trees[2 + i] == TextTree(r.refs[i]);
    }
    assert trees[8] == LeaseDocument(StructOf(r));
    assert trees[9] == ObjectOf(ASSERTION_KEYS, Booleans([true, true, true, true, true]));
    LeaseDocumentSays(r);
    AssertionsSay();
  }

  lemma {:induction false} MembersHeightBound(ms: seq<Member>, bound: nat)
    requires forall i | 0 <= i < |ms| :: Height(ms[i].tree) <= bound
    ensures MembersHeight(ms) <= bound
  {
    if ms != [] { MembersHeightBound(ms[1..], bound); }
  }

  lemma {:induction false} ObjectProper(keys: seq<string>, trees: seq<Tree>, bound: nat)
    requires |keys| == |trees| && Distinct(keys)
    requires forall i | 0 <= i < |trees| :: Proper(trees[i]) && Height(trees[i]) <= bound
    ensures Proper(ObjectOf(keys, trees)) && Height(ObjectOf(keys, trees)) <= 1 + bound
  {
    MembersHeightBound(ObjectOf(keys, trees).members, bound);
  }

  lemma {:induction false} LeaseDocumentProper(w: Struct)
    requires w.Shaped()
    ensures Proper(LeaseDocument(w)) && Height(LeaseDocument(w)) <= 2
  {
    LeaseKeysDistinct();
    ObjectProper(LEASE_KEYS, LeaseTrees(w), 1);
  }

  lemma {:induction false} DocumentAccepted(w: Struct)
    requires w.Shaped()
    ensures Accepted(StructDocument(w))
  {
    RootKeysDistinct();
    AssertionKeysDistinct();
    LeaseDocumentProper(w);
    ObjectProper(ASSERTION_KEYS, Booleans(w.assertions), 1);
    ObjectProper(ROOT_KEYS, RootTrees(w), 2);
  }

  // ----- The document determines the struct -----

  lemma {:induction false} SameObjects(keys: seq<string>, a: seq<Tree>, b: seq<Tree>)
    requires |keys| == |a| == |b| && ObjectOf(keys, a) == ObjectOf(keys, b)
    ensures a == b
  {
    forall i | 0 <= i < |keys| ensures a[i] == b[i] {
      assert ObjectOf(keys, a).members[i].tree == a[i] && ObjectOf(keys, b).members[i].tree == b[i];
    }
  }

  lemma {:induction false} SameTexts(a: seq<string>, b: seq<string>)
    requires Texts(a) == Texts(b)
    ensures a == b
  {
    assert |Texts(a)| == |a| && |Texts(b)| == |b|;
    forall i | 0 <= i < |a| ensures a[i] == b[i] { assert Texts(a)[i] == TextTree(a[i]) && Texts(b)[i] == TextTree(b[i]); }
  }

  lemma {:induction false} SameNaturals(a: seq<nat>, b: seq<nat>)
    requires Numbers(a) == Numbers(b)
    ensures a == b
  {
    assert |Numbers(a)| == |a| && |Numbers(b)| == |b|;
    forall i | 0 <= i < |a| ensures a[i] == b[i] {
      assert Numbers(a)[i] == NumberTree(Decimal.Print(a[i])) && Numbers(b)[i] == NumberTree(Decimal.Print(b[i]));
      CanonicalBijection("", a[i], b[i]);
    }
  }

  lemma {:induction false} SameBooleans(a: seq<bool>, b: seq<bool>)
    requires Booleans(a) == Booleans(b)
    ensures a == b
  {
    assert |Booleans(a)| == |a| && |Booleans(b)| == |b|;
    forall i | 0 <= i < |a| ensures a[i] == b[i] { assert Booleans(a)[i] == BooleanTree(a[i]) && Booleans(b)[i] == BooleanTree(b[i]); }
  }

  lemma {:induction false} SameLeases(a: Struct, b: Struct)
    requires a.Shaped() && b.Shaped() && LeaseTrees(a) == LeaseTrees(b)
    ensures a.leaseRef == b.leaseRef && a.state == b.state && a.numbers == b.numbers
    ensures a.renewable == b.renewable && a.notBefore == b.notBefore && a.expiresAt == b.expiresAt
  {
    var x, y := LeaseTrees(a), LeaseTrees(b);
    assert x[0] == TextTree(a.leaseRef) && y[0] == TextTree(b.leaseRef) && x[1] == TextTree(a.state) && y[1] == TextTree(b.state);
    assert x[2..9] == Numbers(a.numbers) && y[2..9] == Numbers(b.numbers);
    SameNaturals(a.numbers, b.numbers);
    assert x[9] == BooleanTree(a.renewable) && y[9] == BooleanTree(b.renewable);
    assert x[10] == TextTree(a.notBefore) && y[10] == TextTree(b.notBefore);
    assert x[11] == TextTree(a.expiresAt) && y[11] == TextTree(b.expiresAt);
  }

  lemma {:induction false} SameStructs(a: Struct, b: Struct)
    requires a.Shaped() && b.Shaped() && StructDocument(a) == StructDocument(b)
    ensures a == b
  {
    var x, y := RootTrees(a), RootTrees(b);
    SameObjects(ROOT_KEYS, x, y);
    assert x[1] == TextTree(a.operation) && y[1] == TextTree(b.operation);
    assert x[2..8] == Texts(a.refs) && y[2..8] == Texts(b.refs);
    SameTexts(a.refs, b.refs);
    assert x[8] == LeaseDocument(a) && y[8] == LeaseDocument(b);
    SameObjects(LEASE_KEYS, LeaseTrees(a), LeaseTrees(b));
    SameLeases(a, b);
    assert x[9] == ObjectOf(ASSERTION_KEYS, Booleans(a.assertions)) && y[9] == ObjectOf(ASSERTION_KEYS, Booleans(b.assertions));
    SameObjects(ASSERTION_KEYS, Booleans(a.assertions), Booleans(b.assertions));
    SameBooleans(a.assertions, b.assertions);
  }

  /** Two structs hash the same text exactly when they are the same struct. */
  lemma {:induction false} PlanTextInjective(a: Struct, b: Struct)
    requires a.Shaped() && b.Shaped()
    ensures PlanText(a) == PlanText(b) <==> a == b
  {
    DocumentAccepted(a);
    DocumentAccepted(b);
    JsonText.TextInjective(StructDocument(a), StructDocument(b));
    if StructDocument(a) == StructDocument(b) { SameStructs(a, b); }
  }

  // ----- Accepted documents -----

  /** The planner's `Parse` on a token stream. */
  function Accept(tokens: seq<Token>, clean: bool): Option<Request> {
    match Parsed(tokens, clean)
    case Some(v) => ParseRequest(v)
    case None => None
  }

  /** `Parse`: one strict document, read as a request. */
  method ParseRequestDocument(tokens: seq<Token>, clean: bool, moreAtEnd: bool) returns (r: Option<Request>)
    requires clean ==> !moreAtEnd
    ensures r == Accept(tokens, clean)
  {
    var value := Parse(tokens, clean, moreAtEnd);
    if value.None? {
      return None;
    }
    r := ReadRequest(value.value);
  }

  /** A document is accepted as a request exactly when the request is well formed and it says it. */
  lemma {:induction false} DocumentReads(t: Tree, r: Request)
    requires Accepted(t)
    ensures Accept(StrictJson.Print(t), true) == Some(r) <==> WellFormed(r) && Represents(ValueOf(t), r)
  {
    DocumentsArePrintings(StrictJson.Print(t), t);
    ProperIsCanonical(t);
    RequestReads(ValueOf(t), r);
  }

  /** Nothing else is accepted. */
  lemma {:induction false} AcceptedIsDocument(tokens: seq<Token>, clean: bool)
    requires Accept(tokens, clean).Some?
    ensures clean && exists t :: Accepted(t) && StrictJson.Print(t) == tokens
  {
    var t := ParseDocument(tokens).value;
    DocumentsArePrintings(tokens, t);
  }

  /** Round trip: every well-formed request has a document, which is read back as the request. */
  lemma {:induction false} RequestRoundTrip(r: Request)
    requires WellFormed(r)
    ensures Accepted(DocumentOf(r)) && Accept(StrictJson.Print(DocumentOf(r)), true) == Some(r)
  {
    DocumentAccepted(StructOf(r));
    DocumentRepresents(r);
    DocumentReads(DocumentOf(r), r);
  }

  /** The marshalled document is the accepted one with its members in schema order. */
  lemma {:induction false} DocumentIsNormalised(t: Tree, r: Request)
    requires Accepted(t) && Accept(StrictJson.Print(t), true) == Some(r)
    ensures |r.refs| == 6 && Reordered(t, DocumentOf(r))
  {
    DocumentReads(t, r);
    DocumentAccepted(StructOf(r));
    DocumentRepresents(r);
    ReadingLosesNothing(ValueOf(t), ValueOf(DocumentOf(r)), r);
    SameValue(t, DocumentOf(r));
  }

  lemma {:induction false} SameRequestSameDocument(t: Tree, u: Tree, a: Request, b: Request)
    requires Accepted(t) && Accept(StrictJson.Print(t), true) == Some(a)
    requires Accepted(u) && Accept(StrictJson.Print(u), true) == Some(b)
    ensures a == b <==> Reordered(t, u)
  {
    SameValue(t, u);
    DocumentReads(t, a);
    DocumentReads(u, b);
    DocumentReads(u, a);
    if a == b { ReadingLosesNothing(ValueOf(t), ValueOf(u), a); }
  }

  lemma {:induction false} AcceptedWellFormed(t: Tree, r: Request)
    requires Accepted(t) && Accept(StrictJson.Print(t), true) == Some(r)
    ensures WellFormed(r)
  {
    DocumentReads(t, r);
  }

  lemma {:induction false} SameStructSameRequest(a: Request, b: Request)
    requires |a.refs| == 6 && |b.refs| == 6
    ensures StructOf(a) == StructOf(b) <==> a == b
  {
    if StructOf(a) == StructOf(b) {
      DocumentRepresents(a);
      DocumentRepresents(b);
      RepresentsOne(ValueOf(DocumentOf(a)), a, b);
    }
  }

  /**
   Main result for plan identifiers: two accepted documents hash the same text exactly when they
   differ in the order of their members only.
   */
  lemma {:induction false} SameTextSameDocument(t: Tree, u: Tree, a: Request, b: Request)
    requires Accepted(t) && Accept(StrictJson.Print(t), true) == Some(a)
    requires Accepted(u) && Accept(StrictJson.Print(u), true) == Some(b)
    ensures |a.refs| == 6 && |b.refs| == 6
    ensures PlanText(StructOf(a)) == PlanText(StructOf(b)) <==> Reordered(t, u)
  {
    AcceptedWellFormed(t, a);
    AcceptedWellFormed(u, b);
    PlanTextInjective(StructOf(a), StructOf(b));
    SameStructSameRequest(a, b);
    SameRequestSameDocument(t, u, a, b);
  }
}
