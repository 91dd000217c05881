/**
 How many bytes a nonce text decodes to, by the strict URL alphabet of the standard library without
 padding. The decoder skips line breaks wherever they stand.
 */
module Base64 {
  import opened Strings
  import Utf8

  /** The six bits of a character. */
  function Sextet(c: char): Option<nat> {
    if 'A' <= c <= 'Z' then Some(c as int - 'A' as int)
    else if 'a' <= c <= 'z' then Some(26 + c as int - 'a' as int)
    else if '0' <= c <= '9' then Some(52 + c as int - '0' as int)
    else if c == '-' then Some(62)
    else if c == '_' then Some(63)
    else None
  }

  function WithoutBreaks(text: string): string {
    if text == [] then []
    else if text[0] == '\r' || text[0] == '\n' then WithoutBreaks(text[1..])
    else [text[0]] + WithoutBreaks(text[1..])
  }

  predicate InAlphabet(text: string) {
    forall i | 0 <= i < |text| :: Sextet(text[i]).Some?
  }

  /** Groups of four characters are three bytes; the spare bits of a shorter last group must be zero. */
  function DecodedLength(text: string): Option<nat> {
    var s := WithoutBreaks(text);
    var whole := |s| / 4 * 3;
    if !InAlphabet(s) then None
    else match |s| % 4
      case 0 => Some(whole)
      case 1 => None
      case 2 => if Sextet(s[|s| - 1]).value % 16 == 0 then Some(whole + 1) else None
      case _ => if Sextet(s[|s| - 1]).value % 4 == 0 then Some(whole + 2) else None
  }

  /** A text decodes to a whole number of groups exactly when it has that many and nothing is left over. */
  lemma {:induction false} WholeGroups(text: string, groups: nat)
    ensures DecodedLength(text) == Some(3 * groups)
       <==> |WithoutBreaks(text)| == 4 * groups && InAlphabet(WithoutBreaks(text))
  {
  }

  lemma {:induction false} AlphabetHasNoBreaks(text: string)
    requires InAlphabet(text)
    ensures WithoutBreaks(text) == text
  {
    if text != [] {
      assert Sextet(text[0]).Some?;
      assert InAlphabet(text[1..]);
      AlphabetHasNoBreaks(text[1..]);
      assert text == [text[0]] + text[1..];
    }
  }

  const ALPHABET: string := Utf8.UPPER + Utf8.LOWER + Utf8.DIGITS + "-_"

  /** The six bits of a character are its place in the alphabet. */
  lemma {:induction false} SextetExactly(c: char, n: nat)
    ensures Sextet(c) == Some(n) <==> n < 64 && ALPHABET[n] == c
  {
    if n < 26 {
      assert ALPHABET[n] == Utf8.UPPER[n] == ('A' as int + n) as char;
    } else if n < 52 {
      assert ALPHABET[n] == Utf8.LOWER[n - 26] == ('a' as int + (n - 26)) as char;
    } else if n < 62 {
      assert ALPHABET[n] == Utf8.DIGITS[n - 52] == ('0' as int + (n - 52)) as char;
    } else if n < 64 {
      assert ALPHABET[n] == "-_"[n - 62];
    }
  }

  lemma {:induction false} Listed(c: char)
    ensures Sextet(c).Some? <==> c in ALPHABET
  {
    if Sextet(c).Some? { SextetExactly(c, Sextet(c).value); }
    if c in ALPHABET {
      var n :| 0 <= n < |ALPHABET| && ALPHABET[n] == c;
      SextetExactly(c, n);
    }
  }
}
