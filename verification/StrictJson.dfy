/**
 The strict decoder over a token stream. The lexer is the standard library's: a stream is the
 tokens it delivers and whether they end at the end of the input or at a lexical error. A `Tree`
 is a document with its members in the order written; a `Value` is what the decoder returns.
 */
module StrictJson {
  import opened Strings
  import opened Decimal

  const MAX_DEPTH := 16

  datatype Token =
    | OpenObject | CloseObject | OpenArray | CloseArray
    | Text(text: string) | Number(digits: string) | Boolean(b: bool) | Null

  datatype Value =
    | Object(members: map<string, Value>)
    | Array(elements: seq<Value>)
    | String(text: string)
    | Num(digits: string)
    | Bool(b: bool)

  datatype Tree =
    | ObjectTree(members: seq<Member>)
    | ArrayTree(elements: seq<Tree>)
    | TextTree(text: string)
    | NumberTree(digits: string)
    | BooleanTree(b: bool)

  datatype Member = Member(key: string, tree: Tree)

  // ----- The language -----

  /** The tokens of a document, and what follows it. */
  function PrintThen(t: Tree, rest: seq<Token>): seq<Token>
    decreases t, 0
  {
    match t
    case ObjectTree(ms) => [OpenObject] + MembersThen(ms, rest)
    case ArrayTree(es) => [OpenArray] + ElementsThen(es, rest)
    case TextTree(s) => [Text(s)] + rest
    case NumberTree(s) => [Number(s)] + rest
    case BooleanTree(b) => [Boolean(b)] + rest
  }

  /** The members, the closing brace, and what follows. */
  function MembersThen(ms: seq<Member>, rest: seq<Token>): seq<Token>
    decreases ms, 0
  {
    if ms == [] then [CloseObject] + rest
    else [Text(ms[0].key)] + PrintThen(ms[0].tree, MembersThen(ms[1..], rest))
  }

  function ElementsThen(es: seq<Tree>, rest: seq<Token>): seq<Token>
    decreases es, 0
  {
    if es == [] then [CloseArray] + rest else PrintThen(es[0], ElementsThen(es[1..], rest))
  }

  function Print(t: Tree): seq<Token> {
    PrintThen(t, [])
  }

  function Max(a: nat, b: nat): nat {
    if a < b then b else a
  }

  /** Nesting depth; a scalar counts one. */
  function Height(t: Tree): nat
    decreases t, 0
  {
    match t
    case ObjectTree(ms) => 1 + MembersHeight(ms)
    case ArrayTree(es) => 1 + ElementsHeight(es)
    case _ => 1
  }

  function MembersHeight(ms: seq<Member>): nat
    decreases ms, 0
  {
    if ms == [] then 0 else Max(Height(ms[0].tree), MembersHeight(ms[1..]))
  }

  function ElementsHeight(es: seq<Tree>): nat
    decreases es, 0
  {
    if es == [] then 0 else Max(Height(es[0]), ElementsHeight(es[1..]))
  }

  predicate DistinctKeys(ms: seq<Member>) {
    forall i, j | 0 <= i < j < |ms| :: ms[i].key != ms[j].key
  }

  /** No object repeats a key and every number is the decimal printing of a natural. */
  ghost predicate Proper(t: Tree) {
    match t
    case ObjectTree(ms) => DistinctKeys(ms) && forall i | 0 <= i < |ms| :: Proper(ms[i].tree)
    case ArrayTree(es) => forall i | 0 <= i < |es| :: Proper(es[i])
    case NumberTree(s) => IsPrinted(s)
    case _ => true
  }

  /** The value of a document; later members override earlier ones, of which there are none. */
  function ValueOf(t: Tree): Value
    decreases t, 1
  {
    match t
    case ObjectTree(ms) => Object(MembersOf(ms))
    case ArrayTree(es) => Array(ElementsOf(es))
    case TextTree(s) => String(s)
    case NumberTree(s) => Num(s)
    case BooleanTree(b) => Bool(b)
  }

  function MembersOf(ms: seq<Member>): map<string, Value>
    decreases ms, 0
  {
    if ms == [] then map[]
    else var last := ms[|ms| - 1]; MembersOf(ms[..|ms| - 1])[last.key := ValueOf(last.tree)]
  }

  function ElementsOf(es: seq<Tree>): seq<Value>
    decreases es, 0
  {
    if es == [] then [] else ElementsOf(es[..|es| - 1]) + [ValueOf(es[|es| - 1])]
  }

  // ----- The decoder as a function -----

  function KeysOf(ms: seq<Member>): set<string> {
    set m | m in ms :: m.key
  }

  /** The document at the head of `ts`, read at nesting depth `depth`, and the tokens after it. */
  function ParseTree(ts: seq<Token>, depth: int): (r: Option<(Tree, seq<Token>)>)
    ensures r.Some? ==> |r.value.1| < |ts|
    decreases |ts|, 0
  {
    if ts == [] || depth > MAX_DEPTH then None
    else match ts[0]
      case OpenObject =>
        (match ParseMembers(ts[1..], depth, {})
         case Some((ms, rest)) => Some((ObjectTree(ms), rest))
         case None => None)
      case OpenArray =>
        (match ParseElements(ts[1..], depth)
         case Some((es, rest)) => Some((ArrayTree(es), rest))
         case None => None)
      case Text(s) => Some((TextTree(s), ts[1..]))
      case Number(s) => if Canonical(s) then Some((NumberTree(s), ts[1..])) else None
      case Boolean(b) => Some((BooleanTree(b), ts[1..]))
      case _ => None
  }

  /** The members up to the closing brace; `seen` are the keys before them. */
  function ParseMembers(ts: seq<Token>, depth: int, seen: set<string>): (r: Option<(seq<Member>, seq<Token>)>)
    ensures r.Some? ==> |r.value.1| < |ts|
    decreases |ts|, 1
  {
    if ts == [] then None
    else if ts[0].CloseObject? then Some(([], ts[1..]))
    else if !ts[0].Text? || ts[0].text in seen then None
    else match ParseTree(ts[1..], depth + 1)
      case None => None
      case Some((t, after)) =>
        match ParseMembers(after, depth, seen + {ts[0].text})
        case None => None
        case Some((ms, rest)) => Some(([Member(ts[0].text, t)] + ms, rest))
  }

  function ParseElements(ts: seq<Token>, depth: int): (r: Option<(seq<Tree>, seq<Token>)>)
    ensures r.Some? ==> |r.value.1| < |ts|
    decreases |ts|, 1
  {
    if ts == [] then None
    else if ts[0].CloseArray? then Some(([], ts[1..]))
    else match ParseTree(ts, depth + 1)
      case None => None
      case Some((t, after)) =>
        match ParseElements(after, depth)
        case None => None
        case Some((es, rest)) => Some(([t] + es, rest))
  }

  // ----- Soundness: what is accepted is a printing -----

  lemma {:induction false} TreeSound(ts: seq<Token>, depth: int)
    requires ParseTree(ts, depth).Some?
    ensures var (t, rest) := ParseTree(ts, depth).value;
            PrintThen(t, rest) == ts && Proper(t) && depth + Height(t) <= MAX_DEPTH + 1
    decreases |ts|, 0
  {
    assert ts == [ts[0]] + ts[1..];
    match ts[0]
    case OpenObject => MembersSound(ts[1..], depth, {});
    case OpenArray => ElementsSound(ts[1..], depth);
    case Number(s) => CanonicalBijection(s, 0, 0);
    case _ =>
  }

  ghost predicate Unseen(ms: seq<Member>, seen: set<string>) {
    && (forall i | 0 <= i < |ms| :: Proper(ms[i].tree) && ms[i].key !in seen)
    && DistinctKeys(ms)
  }

  lemma {:induction false} UnseenCons(m: Member, rest: seq<Member>, seen: set<string>)
    requires Unseen(rest, seen + {m.key}) && Proper(m.tree) && m.key !in seen
    ensures Unseen([m] + rest, seen)
  {
    var ms := [m] + rest;
    forall i | 0 <= i < |ms| ensures Proper(ms[i].tree) && ms[i].key !in seen {
      if i > 0 { assert ms[i] == rest[i - 1]; }
    }
    forall i, j | 0 <= i < j < |ms| ensures ms[i].key != ms[j].key {
      assert ms[j] == rest[j - 1];
      if i > 0 { assert ms[i] == rest[i - 1]; }
    }
  }

  lemma {:induction false} UnseenTail(ms: seq<Member>, seen: set<string>)
    requires ms != [] && Unseen(ms, seen)
    ensures Unseen(ms[1..], seen + {ms[0].key}) && Proper(ms[0].tree) && ms[0].key !in seen
  {
    var rest := ms[1..];
    forall i | 0 <= i < |rest| ensures Proper(rest[i].tree) && rest[i].key !in seen + {ms[0].key} {
      assert rest[i] == ms[i + 1];
    }
    forall i, j | 0 <= i < j < |rest| ensures rest[i].key != rest[j].key {
      assert rest[i] == ms[i + 1] && rest[j] == ms[j + 1];
    }
  }

  lemma {:induction false} MembersSound(ts: seq<Token>, depth: int, seen: set<string>)
    requires depth <= MAX_DEPTH && ParseMembers(ts, depth, seen).Some?
    ensures var (ms, rest) := ParseMembers(ts, depth, seen).value;
            MembersThen(ms, rest) == ts && Unseen(ms, seen) && depth + MembersHeight(ms) <= MAX_DEPTH
    decreases |ts|, 1
  {
    assert ts == [ts[0]] + ts[1..];
    if !ts[0].CloseObject? {
      TreeSound(ts[1..], depth + 1);
      var (t, after) := ParseTree(ts[1..], depth + 1).value;
      MembersSound(after, depth, seen + {ts[0].text});
      var (others, rest) := ParseMembers(after, depth, seen + {ts[0].text}).value;
      UnseenCons(Member(ts[0].text, t), others, seen);
      assert ([Member(ts[0].text, t)] + others)[1..] == others;
    }
  }

  lemma {:induction false} ElementsSound(ts: seq<Token>, depth: int)
    requires depth <= MAX_DEPTH && ParseElements(ts, depth).Some?
    ensures var (es, rest) := ParseElements(ts, depth).value;
            ElementsThen(es, rest) == ts && (forall i | 0 <= i < |es| :: Proper(es[i])) && depth + ElementsHeight(es) <= MAX_DEPTH
    decreases |ts|, 1
  {
    assert ts == [ts[0]] + ts[1..];
    if !ts[0].CloseArray? {
      TreeSound(ts, depth + 1);
      var (t, after) := ParseTree(ts, depth + 1).value;
      ElementsSound(after, depth);
      var (others, rest) := ParseElements(after, depth).value;
      assert ([t] + others)[1..] == others;
    }
  }

  // ----- Completeness: every printing is accepted -----

  lemma {:induction false} TreeComplete(t: Tree, rest: seq<Token>, depth: int)
    requires Proper(t) && depth + Height(t) <= MAX_DEPTH + 1
    ensures ParseTree(PrintThen(t, rest), depth) == Some((t, rest))
    decreases t, 0
  {
    var ts := PrintThen(t, rest);
    match t
    case ObjectTree(ms) =>
      assert ts[1..] == MembersThen(ms, rest);
      assert Unseen(ms, {});
      MembersComplete(ms, rest, depth, {});
    case ArrayTree(es) =>
      assert ts[1..] == ElementsThen(es, rest);
      ElementsComplete(es, rest, depth);
    case NumberTree(s) =>
      CanonicalBijection(s, 0, 0);
      assert ts[1..] == rest;
    case _ =>
      assert ts[1..] == rest;
  }

  lemma {:induction false} MembersComplete(ms: seq<Member>, rest: seq<Token>, depth: int, seen: set<string>)
    requires Unseen(ms, seen) && depth + MembersHeight(ms) <= MAX_DEPTH
    ensures ParseMembers(MembersThen(ms, rest), depth, seen) == Some((ms, rest))
    decreases ms, 0
  {
    var ts := MembersThen(ms, rest);
    if ms == [] {
      assert ts[1..] == rest;
    } else {
      var m, others := ms[0], ms[1..];
      assert ms == [m] + others;
      UnseenTail(ms, seen);
      assert ts[1..] == PrintThen(m.tree, MembersThen(others, rest));
      TreeComplete(m.tree, MembersThen(others, rest), depth + 1);
      MembersComplete(others, rest, depth, seen + {m.key});
    }
  }

  lemma {:induction false} FirstToken(t: Tree, rest: seq<Token>)
    ensures PrintThen(t, rest) != [] && !PrintThen(t, rest)[0].CloseArray? && !PrintThen(t, rest)[0].CloseObject?
  {
  }

  lemma {:induction false} ElementsComplete(es: seq<Tree>, rest: seq<Token>, depth: int)
    requires (forall i | 0 <= i < |es| :: Proper(es[i])) && depth + ElementsHeight(es) <= MAX_DEPTH
    ensures ParseElements(ElementsThen(es, rest), depth) == Some((es, rest))
    decreases es, 0
  {
    var ts := ElementsThen(es, rest);
    if es == [] {
      assert ts[1..] == rest;
    } else {
      var t, others := es[0], es[1..];
      assert es == [t] + others;
      FirstToken(t, ElementsThen(others, rest));
      TreeComplete(t, ElementsThen(others, rest), depth + 1);
      ElementsComplete(others, rest, depth);
    }
  }

  // ----- Whole documents -----

  function ParseDocument(ts: seq<Token>): Option<Tree> {
    Whole(ParseTree(ts, 1))
  }

  ghost predicate Accepted(t: Tree) {
    Proper(t) && Height(t) <= MAX_DEPTH
  }

  /** The accepted documents are the printings of proper trees of depth at most 16, each of its own tree. */
  lemma {:induction false} DocumentsArePrintings(ts: seq<Token>, t: Tree)
    ensures ParseDocument(ts) == Some(t) <==> Print(t) == ts && Accepted(t)
  {
    if ParseDocument(ts) == Some(t) {
      TreeSound(ts, 1);
    }
    if Print(t) == ts && Accepted(t) {
      TreeComplete(t, [], 1);
    }
  }

  /** The printing is unambiguous, at any depth. */
  lemma {:induction false} PrintUnambiguous(a: Tree, b: Tree)
    requires Proper(a) && Proper(b) && Print(a) == Print(b)
    ensures a == b
  {
    var depth := MAX_DEPTH + 1 - Height(a) - Height(b);
    TreeComplete(a, [], depth);
    TreeComplete(b, [], depth);
  }

  // ----- How deep is too deep -----

  /** A text inside `n` arrays. */
  function Nested(n: nat): Tree {
    if n == 0 then TextTree("") else ArrayTree([Nested(n - 1)])
  }

  lemma {:induction false} NestedHeight(n: nat)
    ensures Height(Nested(n)) == n + 1 && Proper(Nested(n))
  {
    if n > 0 {
      NestedHeight(n - 1);
      var es := [Nested(n - 1)];
      assert es[1..] == [] && ElementsHeight(es[1..]) == 0;
    }
  }

  /** A scalar inside 15 containers is accepted, inside 16 it is too deep. */
  lemma {:induction false} DepthExactly(n: nat)
    ensures ParseDocument(Print(Nested(n))).Some? <==> n <= 15
  {
    var t := Nested(n);
    NestedHeight(n);
    DocumentsArePrintings(Print(t), t);
    if ParseDocument(Print(t)).Some? {
      var u := ParseDocument(Print(t)).value;
      DocumentsArePrintings(Print(t), u);
      PrintUnambiguous(t, u);
    }
  }

  // ----- The decoder with its stateful token stream -----

  class Decoder {
    const tokens: seq<Token>
    const clean: bool       // the tokens end at the end of the input, not at a lexical error
    const moreAtEnd: bool   // what More answers where no token is left
    var pos: nat

    ghost predicate Valid()
      reads this
    {
      pos <= |tokens| && (clean ==> !moreAtEnd)
    }

    /** The tokens not yet taken. */
    ghost function Rest(): seq<Token>
      requires Valid()
      reads this
    {
      tokens[pos..]
    }

    constructor (tokens: seq<Token>, clean: bool, moreAtEnd: bool)
      requires clean ==> !moreAtEnd
      ensures Valid() && Rest() == tokens
      ensures this.tokens == tokens && this.clean == clean && this.moreAtEnd == moreAtEnd
    {
      this.tokens, this.clean, this.moreAtEnd := tokens, clean, moreAtEnd;
      pos := 0;
    }

    method NextToken() returns (token: Option<Token>)
      requires Valid()
      modifies this
      ensures Valid()
      ensures if old(Rest()) != [] then token == Some(old(Rest())[0]) && Rest() == old(Rest())[1..]
              else token == None && Rest() == []
    {
      if pos == |tokens| {
        return None;
      }
      token := Some(tokens[pos]);
      pos := pos + 1;
    }

    predicate More()
      requires Valid()
      reads this
    {
      if pos < |tokens| then !tokens[pos].CloseObject? && !tokens[pos].CloseArray? else moreAtEnd
    }
  }

  /** `parseToken`: `token` has just been taken from the decoder. */
  method ParseToken(decoder: Decoder, token: Token, depth: int) returns (r: Option<Value>)
    requires decoder.Valid()
    modifies decoder
    ensures decoder.Valid() && |decoder.Rest()| <= |old(decoder.Rest())|
    ensures match ParseTree([token] + old(decoder.Rest()), depth)
            case Some((t, rest)) => r == Some(ValueOf(t)) && decoder.Rest() == rest
            case None => r == None
    decreases |decoder.Rest()|, 1
  {
    assert ([token] + decoder.Rest())[1..] == decoder.Rest();
    if depth > MAX_DEPTH {
      return None;
    }
    match token
    case OpenObject => r := ParseObject(decoder, depth);
    case OpenArray => r := ParseArray(decoder, depth);
    case Text(s) => r := Some(String(s));
    case Number(s) =>
      var ok := CanonicalUnsignedNumber(s);
      CanonicalBijection(s, 0, 0);
      r := if ok then Some(Num(s)) else None;
    case Boolean(b) => r := Some(Bool(b));
    case _ => r := None;
  }

  /** The member list that starts with `done`. */
  ghost function MembersRead(done: seq<Member>, rest: Option<(seq<Member>, seq<Token>)>): Option<(seq<Member>, seq<Token>)> {
    match rest
    case Some((ms, after)) => Some((done + ms, after))
    case None => None
  }

  ghost function ElementsRead(done: seq<Tree>, rest: Option<(seq<Tree>, seq<Token>)>): Option<(seq<Tree>, seq<Token>)> {
    match rest
    case Some((es, after)) => Some((done + es, after))
    case None => None
  }

  lemma {:induction false} NoMembersRead(r: Option<(seq<Member>, seq<Token>)>)
    ensures MembersRead([], r) == r
  {
    if r.Some? { assert [] + r.value.0 == r.value.0; }
  }

  lemma {:induction false} NoElementsRead(r: Option<(seq<Tree>, seq<Token>)>)
    ensures ElementsRead([], r) == r
  {
    if r.Some? { assert [] + r.value.0 == r.value.0; }
  }

  lemma {:induction false} MembersOfAppend(done: seq<Member>, m: Member)
    ensures MembersOf(done + [m]) == MembersOf(done)[m.key := ValueOf(m.tree)]
  {
    assert (done + [m])[..|done|] == done;
  }

  /** One turn of the loop moves one member from what remains to what is done. */
  lemma {:induction false} NextMember(ts: seq<Token>, depth: int, seen: set<string>, done: seq<Member>, m: Member)
    requires ts != [] && ts[0] == Text(m.key) && m.key !in seen
    requires ParseTree(ts[1..], depth + 1).Some? && ParseTree(ts[1..], depth + 1).value.0 == m.tree
    ensures MembersRead(done, ParseMembers(ts, depth, seen))
         == MembersRead(done + [m], ParseMembers(ParseTree(ts[1..], depth + 1).value.1, depth, seen + {m.key}))
  {
    var after := ParseTree(ts[1..], depth + 1).value.1;
    match ParseMembers(after, depth, seen + {m.key})
    case Some((ms, k)) => assert done + ([m] + ms) == done + [m] + ms;
    case None =>
  }

  lemma {:induction false} NextElement(ts: seq<Token>, depth: int, done: seq<Tree>, t: Tree)
    requires ts != [] && !ts[0].CloseArray?
    requires ParseTree(ts, depth + 1).Some? && ParseTree(ts, depth + 1).value.0 == t
    ensures ElementsOf(done + [t]) == ElementsOf(done) + [ValueOf(t)]
    ensures ElementsRead(done, ParseElements(ts, depth))
         == ElementsRead(done + [t], ParseElements(ParseTree(ts, depth + 1).value.1, depth))
  {
    assert (done + [t])[..|done|] == done;
    match ParseElements(ParseTree(ts, depth + 1).value.1, depth)
    case Some((es, k)) => assert done + ([t] + es) == done + [t] + es;
    case None =>
  }

  method ParseObject(decoder: Decoder, depth: int) returns (r: Option<Value>)
    requires decoder.Valid() && depth <= MAX_DEPTH
    modifies decoder
    ensures decoder.Valid() && |decoder.Rest()| <= |old(decoder.Rest())|
    ensures match ParseMembers(old(decoder.Rest()), depth, {})
            case Some((ms, rest)) => r == Some(Object(MembersOf(ms))) && decoder.Rest() == rest
            case None => r == None
    decreases |decoder.Rest()|, 0
  {
    var members: map<string, Value> := map[];
    ghost var start, done, seen := decoder.Rest(), [], {};
    NoMembersRead(ParseMembers(start, depth, {}));
    while decoder.More()
      invariant decoder.Valid() && |decoder.Rest()| <= |start|
      invariant members == MembersOf(done) && members.Keys == seen
      invariant ParseMembers(start, depth, {}) == MembersRead(done, ParseMembers(decoder.Rest(), depth, seen))
      decreases |decoder.Rest()|
    {
      ghost var ts := decoder.Rest();
      var keyToken := decoder.NextToken();
      if keyToken.None? || !keyToken.value.Text? {
        return None;
      }
      var key := keyToken.value.text;
      if key in members {
        return None;
      }
      var childToken := decoder.NextToken();
      if childToken.None? {
        return None;
      }
      assert [childToken.value] + decoder.Rest() == ts[1..];
      var child := ParseToken(decoder, childToken.value, depth + 1);
      if child.None? {
        return None;
      }
      ghost var m := Member(key, ParseTree(ts[1..], depth + 1).value.0);
      MembersOfAppend(done, m);
      NextMember(ts, depth, seen, done, m);
      members := members[key := child.value];
      done, seen := done + [m], seen + {key};
    }
    ghost var ts := decoder.Rest();
    var end := decoder.NextToken();
    if end != Some(CloseObject) {
      return None;
    }
    assert done + [] == done;
    return Some(Object(members));
  }

  method ParseArray(decoder: Decoder, depth: int) returns (r: Option<Value>)
    requires decoder.Valid() && depth <= MAX_DEPTH
    modifies decoder
    ensures decoder.Valid() && |decoder.Rest()| <= |old(decoder.Rest())|
    ensures match ParseElements(old(decoder.Rest()), depth)
            case Some((es, rest)) => r == Some(Array(ElementsOf(es))) && decoder.Rest() == rest
            case None => r == None
    decreases |decoder.Rest()|, 0
  {
    var elements: seq<Value> := [];
    ghost var start, done := decoder.Rest(), [];
    NoElementsRead(ParseElements(start, depth));
    while decoder.More()
      invariant decoder.Valid() && |decoder.Rest()| <= |start|
      invariant elements == ElementsOf(done)
      invariant ParseElements(start, depth) == ElementsRead(done, ParseElements(decoder.Rest(), depth))
      decreases |decoder.Rest()|
    {
      ghost var ts := decoder.Rest();
      var childToken := decoder.NextToken();
      if childToken.None? {
        return None;
      }
      assert [childToken.value] + decoder.Rest() == ts;
      var child := ParseToken(decoder, childToken.value, depth + 1);
      if child.None? {
        return None;
      }
      elements := elements + [child.value];
      ghost var t := ParseTree(ts, depth + 1).value.0;
      NextElement(ts, depth, done, t);
      done := done + [t];
    }
    ghost var ts := decoder.Rest();
    var end := decoder.NextToken();
    if end != Some(CloseArray) {
      return None;
    }
    assert done + [] == done;
    return Some(Array(elements));
  }

  /** What `Parse` returns for a token stream. */
  function Whole(parsed: Option<(Tree, seq<Token>)>): Option<Tree> {
    match parsed
    case Some((t, rest)) => if rest == [] then Some(t) else None
    case None => None
  }

  function Parsed(tokens: seq<Token>, clean: bool): Option<Value> {
    if !clean then None
    else match ParseDocument(tokens)
      case Some(t) => Some(ValueOf(t))
      case None => None
  }

  /** The first token and the document it starts. */
  method ParseFirst(decoder: Decoder) returns (r: Option<Value>)
    requires decoder.Valid()
    modifies decoder
    ensures decoder.Valid()
    ensures match ParseTree(old(decoder.Rest()), 1)
            case Some((t, rest)) => r == Some(ValueOf(t)) && decoder.Rest() == rest
            case None => r == None
  {
    ghost var ts := decoder.Rest();
    var token := decoder.NextToken();
    if token.None? {
      return None;
    }
    assert [token.value] + decoder.Rest() == ts;
    r := ParseToken(decoder, token.value, 1);
  }

  /** `Parse` after lexing: one document and then the end of the input. */
  method Parse(tokens: seq<Token>, clean: bool, moreAtEnd: bool) returns (r: Option<Value>)
    requires clean ==> !moreAtEnd
    ensures r == Parsed(tokens, clean)
  {
    var decoder := new Decoder(tokens, clean, moreAtEnd);
    r := ParseFirst(decoder);
    if r.None? {
      return None;
    }
    var extra := decoder.NextToken();
    if extra.Some? || !decoder.clean {
      return None;
    }
  }

  /**
   Main result: a stream is accepted with a value exactly when it ends cleanly and is the printing
   of some proper tree of depth at most 16, with its members in some order, that has this value.
   */
  lemma {:induction false} StrictLanguage(tokens: seq<Token>, clean: bool, v: Value)
    ensures Parsed(tokens, clean) == Some(v)
       <==> clean && exists t :: Print(t) == tokens && Accepted(t) && ValueOf(t) == v
  {
    forall t ensures ParseDocument(tokens) == Some(t) <==> Print(t) == tokens && Accepted(t) {
      DocumentsArePrintings(tokens, t);
    }
  }

  // ----- The order of members -----

  lemma {:induction false} MembersByKey(ms: seq<Member>)
    requires DistinctKeys(ms)
    ensures forall k :: k in MembersOf(ms) <==> exists i :: 0 <= i < |ms| && ms[i].key == k
    ensures forall i | 0 <= i < |ms| :: ms[i].key in MembersOf(ms) && MembersOf(ms)[ms[i].key] == ValueOf(ms[i].tree)
  {
    if ms != [] {
      var before := ms[..|ms| - 1];
      MembersByKey(before);
      assert forall i | 0 <= i < |before| :: before[i] == ms[i];
    }
  }

  /** The same document up to the order of members, at every level. */
  predicate Reordered(t: Tree, u: Tree)
    decreases t
  {
    match t
    case ObjectTree(ms) =>
      && u.ObjectTree? && KeysOf(ms) == KeysOf(u.members)
      && forall i, j | 0 <= i < |ms| && 0 <= j < |u.members| && ms[i].key == u.members[j].key ::
           Reordered(ms[i].tree, u.members[j].tree)
    case ArrayTree(es) =>
      u.ArrayTree? && |es| == |u.elements| && forall i | 0 <= i < |es| :: Reordered(es[i], u.elements[i])
    case _ => t == u
  }

  lemma {:induction false} ElementsAt(es: seq<Tree>)
    ensures |ElementsOf(es)| == |es|
    ensures forall i | 0 <= i < |es| :: ElementsOf(es)[i] == ValueOf(es[i])
  {
    if es != [] {
      ElementsAt(es[..|es| - 1]);
    }
  }

  lemma {:induction false} ObjectsSame(ms: seq<Member>, ns: seq<Member>)
    requires DistinctKeys(ms) && DistinctKeys(ns)
    ensures MembersOf(ms) == MembersOf(ns)
       <==> && KeysOf(ms) == KeysOf(ns)
            && forall i, j | 0 <= i < |ms| && 0 <= j < |ns| && ms[i].key == ns[j].key :: ValueOf(ms[i].tree) == ValueOf(ns[j].tree)
  {
    MembersByKey(ms);
    MembersByKey(ns);
    var a, b := MembersOf(ms), MembersOf(ns);
    assert a.Keys == KeysOf(ms) && b.Keys == KeysOf(ns);
    if KeysOf(ms) == KeysOf(ns)
       && forall i, j | 0 <= i < |ms| && 0 <= j < |ns| && ms[i].key == ns[j].key :: ValueOf(ms[i].tree) == ValueOf(ns[j].tree)
    {
      forall k | k in a ensures k in b && b[k] == a[k] {
        var i :| 0 <= i < |ms| && ms[i].key == k;
        var j :| 0 <= j < |ns| && ns[j].key == k;
      }
      assert a == b;
    }
  }

  /** Two documents have the same value exactly when they differ in the order of members only. */
  lemma {:induction false} SameValue(t: Tree, u: Tree)
    requires Proper(t) && Proper(u)
    ensures ValueOf(t) == ValueOf(u) <==> Reordered(t, u)
    decreases t
  {
    match t
    case ObjectTree(ms) =>
      if u.ObjectTree? {
        ObjectsSame(ms, u.members);
        forall i, j | 0 <= i < |ms| && 0 <= j < |u.members| && ms[i].key == u.members[j].key
          ensures ValueOf(ms[i].tree) == ValueOf(u.members[j].tree) <==> Reordered(ms[i].tree, u.members[j].tree)
        {
          SameValue(ms[i].tree, u.members[j].tree);
        }
      }
    case ArrayTree(es) =>
      if u.ArrayTree? {
        ElementsAt(es);
        ElementsAt(u.elements);
        forall i | 0 <= i < |es| && |es| == |u.elements|
          ensures ValueOf(es[i]) == ValueOf(u.elements[i]) <==> Reordered(es[i], u.elements[i])
        {
          SameValue(es[i], u.elements[i]);
        }
        if Reordered(t, u) { assert ElementsOf(es) == ElementsOf(u.elements); }
        if ValueOf(t) == ValueOf(u) {
          forall i | 0 <= i < |es| ensures Reordered(es[i], u.elements[i]) {
            assert ElementsOf(es)[i] == ElementsOf(u.elements)[i];
          }
        }
      }
    case _ =>
  }
}
