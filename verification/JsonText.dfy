/**
 The compact text `json.Marshal` writes for a document with a fixed order of members, and that it
 is unambiguous: from the text one reads off the whole document.
 */
module JsonText {
  import opened Strings
  import opened Decimal
  import opened StateCodec
  import opened StrictJson

  function BoolText(b: bool): string {
    if b then "true" else "false"
  }

  /** The text of a document, and what follows it. */
  function TextThen(t: Tree, rest: string): string
    decreases t, 0
  {
    match t
    case ObjectTree(ms) => ['{'] + MembersText(ms, true, rest)
    case ArrayTree(es) => ['['] + ElementsText(es, true, rest)
    case TextTree(s) => QuoteThen(s, rest)
    case NumberTree(s) => s + rest
    case BooleanTree(b) => BoolText(b) + rest
  }

  function Separator(first: bool): string {
    if first then [] else [',']
  }

  function MembersText(ms: seq<Member>, first: bool, rest: string): string
    decreases ms, 0
  {
    if ms == [] then ['}'] + rest
    else Separator(first) + QuoteThen(ms[0].key, [':'] + TextThen(ms[0].tree, MembersText(ms[1..], false, rest)))
  }

  function ElementsText(es: seq<Tree>, first: bool, rest: string): string
    decreases es, 0
  {
    if es == [] then [']'] + rest
    else Separator(first) + TextThen(es[0], ElementsText(es[1..], false, rest))
  }

  function Text(t: Tree): string {
    TextThen(t, [])
  }

  /** Number tokens are digit strings. */
  predicate DigitNumbers(t: Tree) {
    match t
    case ObjectTree(ms) => forall i | 0 <= i < |ms| :: DigitNumbers(ms[i].tree)
    case ArrayTree(es) => forall i | 0 <= i < |es| :: DigitNumbers(es[i])
    case NumberTree(s) => s != [] && AllDigits(s)
    case _ => true
  }

  lemma {:induction false} ProperNumbers(t: Tree)
    requires Proper(t)
    ensures DigitNumbers(t)
  {
    match t
    case ObjectTree(ms) => forall i | 0 <= i < |ms| ensures DigitNumbers(ms[i].tree) { ProperNumbers(ms[i].tree); }
    case ArrayTree(es) => forall i | 0 <= i < |es| ensures DigitNumbers(es[i]) { ProperNumbers(es[i]); }
    case NumberTree(s) => CanonicalBijection(s, 0, 0);
    case _ =>
  }

  // ----- Scalars -----

  predicate EndsNumber(text: string) {
    text == [] || !IsDigit(text[0])
  }

  function LeadingDigits(text: string): nat {
    if text == [] || !IsDigit(text[0]) then 0 else 1 + LeadingDigits(text[1..])
  }

  lemma {:induction false} DigitsEnd(digits: string, rest: string)
    requires AllDigits(digits) && EndsNumber(rest)
    ensures LeadingDigits(digits + rest) == |digits|
  {
    if digits == [] {
      assert digits + rest == rest;
    } else {
      assert (digits + rest)[1..] == digits[1..] + rest;
      DigitsEnd(digits[1..], rest);
    }
  }

  lemma {:induction false} NumberEnds(p: string, q: string, a: string, b: string)
    requires AllDigits(p) && AllDigits(q) && EndsNumber(a) && EndsNumber(b) && p + a == q + b
    ensures p == q && a == b
  {
    DigitsEnd(p, a);
    DigitsEnd(q, b);
    assert (p + a)[..|p|] == p && (q + b)[..|q|] == q;
    assert (p + a)[|p|..] == a && (q + b)[|q|..] == b;
  }

  lemma {:induction false} StringEnds(s: string, t: string, a: string, b: string)
    requires QuoteThen(s, a) == QuoteThen(t, b)
    ensures s == t && a == b
  {
    assert QuoteThen(s, a)[1..] == EscapeThen(s, a);
    assert QuoteThen(t, b)[1..] == EscapeThen(t, b);
    ReadQuoted(s, a);
    ReadQuoted(t, b);
  }

  lemma {:induction false} BoolEnds(x: bool, y: bool, a: string, b: string)
    requires BoolText(x) + a == BoolText(y) + b
    ensures x == y && a == b
  {
    assert (BoolText(x) + a)[0] == BoolText(x)[0] && (BoolText(y) + b)[0] == BoolText(y)[0];
    assert (BoolText(x) + a)[|BoolText(x)|..] == a;
    assert (BoolText(y) + b)[|BoolText(y)|..] == b;
  }

  // ----- Documents -----

  /** The kind of a document shows in its first character. */
  predicate Starts(t: Tree, c: char) {
    match t
    case ObjectTree(_) => c == '{'
    case ArrayTree(_) => c == '['
    case TextTree(_) => c == '\"'
    case NumberTree(_) => IsDigit(c)
    case BooleanTree(b) => c == if b then 't' else 'f'
  }

  lemma {:induction false} FirstCharacter(t: Tree, rest: string)
    requires DigitNumbers(t)
    ensures TextThen(t, rest) != [] && Starts(t, TextThen(t, rest)[0])
  {
    match t
    case BooleanTree(b) => assert BoolText(b)[0] == if b then 't' else 'f';
    case _ =>
  }

  lemma {:induction false} TextUnambiguous(t: Tree, u: Tree, a: string, b: string)
    requires DigitNumbers(t) && DigitNumbers(u) && EndsNumber(a) && EndsNumber(b)
    requires TextThen(t, a) == TextThen(u, b)
    ensures t == u && a == b
    decreases t, 1
  {
    FirstCharacter(t, a);
    FirstCharacter(u, b);
    match t
    case ObjectTree(ms) =>
      assert TextThen(t, a)[1..] == MembersText(ms, true, a) && TextThen(u, b)[1..] == MembersText(u.members, true, b);
      MembersUnambiguous(ms, u.members, true, a, b);
    case ArrayTree(es) =>
      assert TextThen(t, a)[1..] == ElementsText(es, true, a) && TextThen(u, b)[1..] == ElementsText(u.elements, true, b);
      ElementsUnambiguous(es, u.elements, true, a, b);
    case TextTree(s) => StringEnds(s, u.text, a, b);
    case NumberTree(s) => NumberEnds(s, u.digits, a, b);
    case BooleanTree(x) => BoolEnds(x, u.b, a, b);
  }

  lemma {:induction false} MembersStart(ms: seq<Member>, first: bool, rest: string)
    ensures MembersText(ms, first, rest) != [] && EndsNumber(MembersText(ms, first, rest))
    ensures MembersText(ms, first, rest)[0] == '}' <==> ms == []
  {
  }

  /** The first member and the text after its colon. */
  lemma {:induction false} MemberEnds(ms: seq<Member>, ns: seq<Member>, first: bool, a: string, b: string)
    requires ms != [] && ns != [] && MembersText(ms, first, a) == MembersText(ns, first, b)
    ensures ms[0].key == ns[0].key
    ensures TextThen(ms[0].tree, MembersText(ms[1..], false, a)) == TextThen(ns[0].tree, MembersText(ns[1..], false, b))
  {
    var x, y := TextThen(ms[0].tree, MembersText(ms[1..], false, a)), TextThen(ns[0].tree, MembersText(ns[1..], false, b));
    var n := |Separator(first)|;
    assert MembersText(ms, first, a)[n..] == QuoteThen(ms[0].key, [':'] + x);
    assert MembersText(ns, first, b)[n..] == QuoteThen(ns[0].key, [':'] + y);
    StringEnds(ms[0].key, ns[0].key, [':'] + x, [':'] + y);
    assert ([':'] + x)[1..] == x && ([':'] + y)[1..] == y;
  }

  lemma {:induction false} MembersUnambiguous(ms: seq<Member>, ns: seq<Member>, first: bool, a: string, b: string)
    requires forall i | 0 <= i < |ms| :: DigitNumbers(ms[i].tree)
    requires forall i | 0 <= i < |ns| :: DigitNumbers(ns[i].tree)
    requires MembersText(ms, first, a) == MembersText(ns, first, b)
    ensures ms == ns && a == b
    decreases ms, 0
  {
    MembersStart(ms, first, a);
    MembersStart(ns, first, b);
    if ms == [] {
      assert (['}'] + a)[1..] == a && (['}'] + b)[1..] == b;
    } else {
      MemberEnds(ms, ns, first, a, b);
      MembersStart(ms[1..], false, a);
      MembersStart(ns[1..], false, b);
      TextUnambiguous(ms[0].tree, ns[0].tree, MembersText(ms[1..], false, a), MembersText(ns[1..], false, b));
      MembersUnambiguous(ms[1..], ns[1..], false, a, b);
      assert ms == [ms[0]] + ms[1..] && ns == [ns[0]] + ns[1..];
    }
  }

  lemma {:induction false} ElementsStart(es: seq<Tree>, first: bool, rest: string)
    requires forall i | 0 <= i < |es| :: DigitNumbers(es[i])
    ensures ElementsText(es, first, rest) != [] && (ElementsText(es, first, rest)[0] == ']' <==> es == [])
    ensures !first ==> EndsNumber(ElementsText(es, first, rest))
  {
    if es != [] {
      FirstCharacter(es[0], ElementsText(es[1..], false, rest));
    }
  }

  lemma {:induction false} ElementsUnambiguous(es: seq<Tree>, fs: seq<Tree>, first: bool, a: string, b: string)
    requires forall i | 0 <= i < |es| :: DigitNumbers(es[i])
    requires forall i | 0 <= i < |fs| :: DigitNumbers(fs[i])
    requires ElementsText(es, first, a) == ElementsText(fs, first, b)
    ensures es == fs && a == b
    decreases es, 0
  {
    ElementsStart(es, first, a);
    ElementsStart(fs, first, b);
    if es == [] {
      assert ([']'] + a)[1..] == a && ([']'] + b)[1..] == b;
    } else {
      var x, y := ElementsText(es[1..], false, a), ElementsText(fs[1..], false, b);
      var n := |Separator(first)|;
      assert ElementsText(es, first, a)[n..] == TextThen(es[0], x);
      assert ElementsText(fs, first, b)[n..] == TextThen(fs[0], y);
      ElementsStart(es[1..], false, a);
      ElementsStart(fs[1..], false, b);
      TextUnambiguous(es[0], fs[0], x, y);
      ElementsUnambiguous(es[1..], fs[1..], false, a, b);
      assert es == [es[0]] + es[1..] && fs == [fs[0]] + fs[1..];
    }
  }

  /** Two documents have one text exactly when they are the same document. */
  lemma {:induction false} TextInjective(t: Tree, u: Tree)
    requires Proper(t) && Proper(u)
    ensures Text(t) == Text(u) <==> t == u
  {
    ProperNumbers(t);
    ProperNumbers(u);
    if Text(t) == Text(u) { TextUnambiguous(t, u, [], []); }
  }

  // ----- The lease file is such a text -----

  function LeaseMembers(keys: seq<string>, leases: Leases): seq<Member> {
    seq(|keys|, i requires 0 <= i < |keys| => Member(keys[i], TextTree(if keys[i] in leases then leases[keys[i]] else "")))
  }

  /** The struct that `persistLocked` marshals. */
  function LeaseFile(leases: Leases): Tree {
    ObjectTree([
      Member("version", NumberTree(Decimal.Print(1))),
      Member("leases", ObjectTree(LeaseMembers(Sorted(leases.Keys), leases)))])
  }

  lemma {:induction false} PlainQuote(s: string, rest: string)
    requires forall i | 0 <= i < |s| :: NameCharacter(s[i])
    ensures QuoteThen(s, rest) == ['\"'] + s + ['\"'] + rest
  {
    if s != [] {
      PlainQuote(s[1..], rest);
      assert QuoteThen(s[1..], rest)[1..] == s[1..] + ['\"'] + rest;
      assert Escape(s[0]) == [s[0]];
      assert s == [s[0]] + s[1..];
    }
  }

  lemma {:induction false} LaterMembers(ms: seq<Member>, rest: string)
    requires ms != []
    ensures MembersText(ms, false, rest) == [','] + MembersText(ms, true, rest)
  {
  }

  lemma {:induction false} LeaseMembersText(keys: seq<string>, leases: Leases, rest: string)
    ensures Members(keys, leases, rest) == MembersText(LeaseMembers(keys, leases), true, rest)
  {
    if keys != [] {
      var ms := LeaseMembers(keys, leases);
      assert ms[1..] == LeaseMembers(keys[1..], leases);
      LeaseMembersText(keys[1..], leases, rest);
      if |keys| > 1 { LaterMembers(ms[1..], rest); }
    }
  }

  function Label(key: string): string {
    ['\"'] + key + ['\"', ':']
  }

  /** A member whose key needs no escapes. */
  lemma {:induction false} NamedMember(key: string, t: Tree, ms: seq<Member>, first: bool, rest: string)
    requires forall i | 0 <= i < |key| :: NameCharacter(key[i])
    ensures MembersText([Member(key, t)] + ms, first, rest)
         == Separator(first) + (Label(key) + TextThen(t, MembersText(ms, false, rest)))
  {
    var all := [Member(key, t)] + ms;
    var after := TextThen(t, MembersText(ms, false, rest));
    assert all[1..] == ms && all[0] == Member(key, t);
    PlainQuote(key, [':'] + after);
    assert ['\"'] + key + ['\"'] + ([':'] + after) == Label(key) + after;
  }

  lemma {:induction false} FieldTexts()
    ensures VERSION_FIELD == ['{'] + Label("version") && LEASES_FIELD == [','] + Label("leases")
  {
  }

  lemma {:induction false} Nested(c: char, field: string, rest: string)
    ensures ([c] + field) + rest == [c] + (field + rest)
  {
  }

  lemma {:induction false} LastNamedMember(key: string, t: Tree)
    requires forall i | 0 <= i < |key| :: NameCharacter(key[i])
    ensures MembersText([Member(key, t)], false, []) == ([','] + Label(key)) + TextThen(t, "}")
  {
    NamedMember(key, t, [], false, []);
    assert [Member(key, t)] + [] == [Member(key, t)] && MembersText([], false, []) == "}";
    Nested(',', Label(key), TextThen(t, "}"));
  }

  lemma {:induction false} TwoMembersText(k: string, t: Tree, l: string, u: Tree)
    requires (forall i | 0 <= i < |k| :: NameCharacter(k[i])) && forall i | 0 <= i < |l| :: NameCharacter(l[i])
    ensures Text(ObjectTree([Member(k, t), Member(l, u)]))
         == (['{'] + Label(k)) + TextThen(t, ([','] + Label(l)) + TextThen(u, "}"))
  {
    LastNamedMember(l, u);
    NamedMember(k, t, [Member(l, u)], true, []);
    assert [Member(k, t)] + [Member(l, u)] == [Member(k, t), Member(l, u)];
    Nested('{', Label(k), TextThen(t, MembersText([Member(l, u)], false, [])));
  }

  /** The text of the lease file is the text of its document. */
  lemma {:induction false} EncodeIsText(leases: Leases)
    ensures Encode(leases) == Text(LeaseFile(leases))
  {
    var entries := ObjectTree(LeaseMembers(Sorted(leases.Keys), leases));
    TwoMembersText("version", NumberTree(Decimal.Print(1)), "leases", entries);
    LeaseMembersText(Sorted(leases.Keys), leases, "}");
    FieldTexts();
    assert VERSION_FIELD + (Decimal.Print(1) + (LEASES_FIELD + TextThen(entries, "}"))) == Text(LeaseFile(leases));
  }
}
