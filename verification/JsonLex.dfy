/**
 A lexer for compact JSON, which drops colons and commas as the standard library's token reader does.
 The text of a document lexes to its printing, so text, tokens and value say the same.
 */
module JsonLex {
  import opened Strings
  import opened Decimal
  import opened StateCodec
  import opened StrictJson
  import opened JsonText
  import Planner
  import PlanText

  function Cons(token: Token, rest: Option<seq<Token>>): Option<seq<Token>> {
    match rest
    case Some(ts) => Some([token] + ts)
    case None => None
  }

  function Lex(text: string): Option<seq<Token>>
    decreases |text|
  {
    if text == [] then Some([])
    else if text[0] == '{' then Cons(OpenObject, Lex(text[1..]))
    else if text[0] == '}' then Cons(CloseObject, Lex(text[1..]))
    else if text[0] == '[' then Cons(OpenArray, Lex(text[1..]))
    else if text[0] == ']' then Cons(CloseArray, Lex(text[1..]))
    else if text[0] == ':' || text[0] == ',' then Lex(text[1..])
    else if text[0] == '\"' then LexString(text)
    else if "true" <= text then Cons(Boolean(true), Lex(text[4..]))
    else if "false" <= text then Cons(Boolean(false), Lex(text[5..]))
    else if "null" <= text then Cons(Null, Lex(text[4..]))
    else LexNumber(text)
  }

  function LexString(text: string): Option<seq<Token>>
    requires text != []
    decreases |text|, 0
  {
    match ReadString(text[1..])
    case Some((s, rest)) => Cons(Token.Text(s), Lex(rest))
    case None => None
  }

  function LexNumber(text: string): Option<seq<Token>>
    requires text != []
    decreases |text|, 0
  {
    var n := LeadingDigits(text);
    if 0 < n <= |text| then Cons(Number(text[..n]), Lex(text[n..])) else None
  }

  lemma {:induction false} LexQuoted(s: string, rest: string)
    ensures Lex(QuoteThen(s, rest)) == Cons(Token.Text(s), Lex(rest))
  {
    var text := QuoteThen(s, rest);
    assert text[1..] == EscapeThen(s, rest);
    ReadQuoted(s, rest);
  }

  lemma {:induction false} LexDigits(digits: string, rest: string)
    requires digits != [] && AllDigits(digits) && EndsNumber(rest)
    ensures Lex(digits + rest) == Cons(Number(digits), Lex(rest))
  {
    var text := digits + rest;
    DigitsEnd(digits, rest);
    assert text[0] == digits[0] && IsDigit(text[0]);
    assert text[..|digits|] == digits && text[|digits|..] == rest;
    NotAWord(text);
  }

  lemma {:induction false} NotAWord(text: string)
    requires text != [] && IsDigit(text[0])
    ensures !("true" <= text) && !("false" <= text) && !("null" <= text)
  {
    assert "true"[0] == 't' && "false"[0] == 'f' && "null"[0] == 'n';
  }

  lemma {:induction false} LexBool(b: bool, rest: string)
    ensures Lex(BoolText(b) + rest) == Cons(Boolean(b), Lex(rest))
  {
    var text := BoolText(b) + rest;
    assert text[|BoolText(b)|..] == rest;
    assert BoolText(b) <= text && text[0] == BoolText(b)[0];
    assert "true"[0] == 't' && "false"[0] == 'f';
  }

  lemma {:induction false} LexOne(c: char, rest: string)
    ensures ([c] + rest)[1..] == rest && ([c] + rest)[0] == c
  {
  }

  /** The text of a document, whatever follows it, lexes to its printing. */
  lemma {:induction false} LexText(t: Tree, rest: string, ts: seq<Token>)
    requires DigitNumbers(t) && EndsNumber(rest) && Lex(rest) == Some(ts)
    ensures Lex(TextThen(t, rest)) == Some(PrintThen(t, ts))
    decreases t, 1
  {
    match t
    case ObjectTree(ms) =>
      LexOne('{', MembersText(ms, true, rest));
      LexMembers(ms, true, rest, ts);
    case ArrayTree(es) =>
      LexOne('[', ElementsText(es, true, rest));
      LexElements(es, true, rest, ts);
    case TextTree(s) => LexQuoted(s, rest);
    case NumberTree(s) => LexDigits(s, rest);
    case BooleanTree(b) => LexBool(b, rest);
  }

  lemma {:induction false} LexSeparator(first: bool, rest: string)
    ensures Lex(Separator(first) + rest) == Lex(rest)
  {
    if first { assert Separator(first) + rest == rest; } else { LexOne(',', rest); }
  }

  lemma {:induction false} LexMembers(ms: seq<Member>, first: bool, rest: string, ts: seq<Token>)
    requires (forall i | 0 <= i < |ms| :: DigitNumbers(ms[i].tree)) && Lex(rest) == Some(ts)
    ensures Lex(MembersText(ms, first, rest)) == Some(MembersThen(ms, ts))
    decreases ms, 0
  {
    if ms == [] {
      LexOne('}', rest);
    } else {
      var later := MembersText(ms[1..], false, rest);
      LexMembers(ms[1..], false, rest, ts);
      MembersStart(ms[1..], false, rest);
      LexText(ms[0].tree, later, MembersThen(ms[1..], ts));
      var value := TextThen(ms[0].tree, later);
      LexOne(':', value);
      LexQuoted(ms[0].key, [':'] + value);
      LexSeparator(first, QuoteThen(ms[0].key, [':'] + value));
    }
  }

  lemma {:induction false} LexElements(es: seq<Tree>, first: bool, rest: string, ts: seq<Token>)
    requires (forall i | 0 <= i < |es| :: DigitNumbers(es[i])) && Lex(rest) == Some(ts)
    ensures Lex(ElementsText(es, first, rest)) == Some(ElementsThen(es, ts))
    decreases es, 0
  {
    if es == [] {
      LexOne(']', rest);
    } else {
      var later := ElementsText(es[1..], false, rest);
      LexElements(es[1..], false, rest, ts);
      ElementsStart(es[1..], false, rest);
      LexText(es[0], later, ElementsThen(es[1..], ts));
      LexSeparator(first, TextThen(es[0], later));
    }
  }

  /** The text of a proper document is JSON for it. */
  lemma {:induction false} TextLexes(t: Tree)
    requires Proper(t)
    ensures Lex(JsonText.Text(t)) == Some(StrictJson.Print(t))
  {
    ProperNumbers(t);
    LexText(t, [], []);
  }

  /** The text that a plan hashes can be read back as the request it was made for. */
  lemma {:induction false} PlanTextReadsBack(r: Planner.Request)
    requires Planner.WellFormed(r)
    ensures var tokens := Lex(PlanText.PlanText(PlanText.StructOf(r)));
            tokens.Some? && PlanText.Accept(tokens.value, true) == Some(r)
  {
    PlanText.RequestRoundTrip(r);
    TextLexes(PlanText.DocumentOf(r));
  }
}
