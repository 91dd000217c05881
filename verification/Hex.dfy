/** Hexadecimal texts of bytes: what the digests of the broker and the planner are made of. */
module Hex {
  import opened Strings

  type Bytes = seq<nat>

  predicate AreBytes(bytes: Bytes) {
    forall i | 0 <= i < |bytes| :: bytes[i] < 256
  }

  /** The digits in their order. */
  const DIGITS: string := "0123456789abcdef"
  const CAPITALS: string := "ABCDEF"

  function EncodeByte(b: nat): (text: string)
    requires b < 256
    ensures |text| == 2
  {
    [DIGITS[b / 16], DIGITS[b % 16]]
  }

  /** `hex.EncodeToString`. */
  function Encode(bytes: Bytes): (text: string)
    requires AreBytes(bytes)
    ensures |text| == 2 * |bytes|
  {
    if bytes == [] then [] else EncodeByte(bytes[0]) + Encode(bytes[1..])
  }

  /** The number a digit stands for, in either case. */
  function DigitAt(c: char): (n: Option<nat>)
    ensures n.Some? ==> n.value < 16
  {
    if '0' <= c <= '9' then Some(c as int - '0' as int)
    else if 'a' <= c <= 'f' then Some(c as int - 'a' as int + 10)
    else if 'A' <= c <= 'F' then Some(c as int - 'A' as int + 10)
    else None
  }

  function DecodePair(high: char, low: char): (b: Option<nat>)
    ensures b.Some? ==> b.value < 256
    ensures b.Some? <==> DigitAt(high).Some? && DigitAt(low).Some?
  {
    match (DigitAt(high), DigitAt(low))
    case (Some(h), Some(l)) => Some(16 * h + l)
    case _ => None
  }

  /** `hex.DecodeString`. */
  function Decode(text: string): (bytes: Option<Bytes>)
    ensures bytes.Some? ==> AreBytes(bytes.value) && 2 * |bytes.value| == |text|
  {
    if text == [] then Some([])
    else if |text| == 1 then None
    else match (DecodePair(text[0], text[1]), Decode(text[2..]))
      case (Some(b), Some(rest)) => Some([b] + rest)
      case _ => None
  }

  /** A character is a digit in lower case exactly when it stands at its number in the list of digits. */
  lemma {:induction false} DigitsAreListed(c: char, n: nat)
    requires n < 16
    ensures DigitAt(c) == Some(n) <==> c == DIGITS[n] || (n >= 10 && c == CAPITALS[n - 10])
  {
    if n < 10 {
      assert DIGITS[n] == ('0' as int + n) as char;
    } else {
      assert DIGITS[n] == ('a' as int + (n - 10)) as char && CAPITALS[n - 10] == ('A' as int + (n - 10)) as char;
    }
  }

  lemma {:induction false} ByteRoundTrip(b: nat)
    requires b < 256
    ensures DecodePair(EncodeByte(b)[0], EncodeByte(b)[1]) == Some(b)
  {
    DigitsAreListed(DIGITS[b / 16], b / 16);
    DigitsAreListed(DIGITS[b % 16], b % 16);
  }

  lemma {:induction false} HighAndLow(h: nat, l: nat)
    requires h < 16 && l < 16
    ensures 16 * h + l < 256 && (16 * h + l) / 16 == h && (16 * h + l) % 16 == l
  {
  }

  lemma {:induction false} EncodeHighAndLow(h: nat, l: nat)
    requires h < 16 && l < 16
    ensures 16 * h + l < 256 && EncodeByte(16 * h + l) == [DIGITS[h], DIGITS[l]]
  {
    HighAndLow(h, l);
  }

  lemma {:induction false} PairRoundTrip(high: char, low: char, h: nat, l: nat)
    requires h < 16 && l < 16 && high == DIGITS[h] && low == DIGITS[l]
    ensures DecodePair(high, low) == Some(16 * h + l) && 16 * h + l < 256 && EncodeByte(16 * h + l) == [high, low]
  {
    DigitsAreListed(high, h);
    DigitsAreListed(low, l);
    EncodeHighAndLow(h, l);
  }

  lemma {:induction false} EncodeDecodes(bytes: Bytes)
    requires AreBytes(bytes)
    ensures Decode(Encode(bytes)) == Some(bytes)
  {
    if bytes != [] {
      ByteRoundTrip(bytes[0]);
      EncodeDecodes(bytes[1..]);
      var text := Encode(bytes);
      assert text[2..] == Encode(bytes[1..]) && text[0] == EncodeByte(bytes[0])[0] && text[1] == EncodeByte(bytes[0])[1];
      assert bytes == [bytes[0]] + bytes[1..];
    }
  }

  predicate LowerDigits(text: string) {
    forall i | 0 <= i < |text| :: text[i] in DIGITS
  }

  /** A text decodes when it has pairs of digits only. */
  lemma {:induction false} DecodesExactly(text: string)
    ensures Decode(text).Some? <==> |text| % 2 == 0 && forall i | 0 <= i < |text| :: DigitAt(text[i]).Some?
  {
    if |text| >= 2 {
      DecodesExactly(text[2..]);
      assert forall i | 2 <= i < |text| :: text[i] == text[2..][i - 2];
    }
  }

  lemma {:induction false} LowerPair(high: char, low: char)
    requires high in DIGITS && low in DIGITS
    ensures DecodePair(high, low).Some? && EncodeByte(DecodePair(high, low).value) == [high, low]
  {
    var h :| 0 <= h < 16 && DIGITS[h] == high;
    var l :| 0 <= l < 16 && DIGITS[l] == low;
    PairRoundTrip(high, low, h, l);
  }

  /** In lower case the text is the encoding of what it decodes to. */
  lemma {:induction false} DecodeEncodes(text: string)
    requires Decode(text).Some? && LowerDigits(text)
    ensures Encode(Decode(text).value) == text
  {
    if text != [] {
      LowerPair(text[0], text[1]);
      DecodeEncodes(text[2..]);
      DecodeStep(text);
      assert text == [text[0], text[1]] + text[2..];
    }
  }

  lemma {:induction false} DecodeStep(text: string)
    requires |text| >= 2 && Decode(text).Some?
    ensures Decode(text[2..]).Some? && DecodePair(text[0], text[1]).Some?
    ensures Encode(Decode(text).value) == EncodeByte(DecodePair(text[0], text[1]).value) + Encode(Decode(text[2..]).value)
  {
    var bytes := Decode(text).value;
    assert bytes[1..] == Decode(text[2..]).value;
  }

  lemma {:induction false} LowerIsListed(c: char)
    requires c in DIGITS
    ensures DigitAt(c).Some? && DIGITS[DigitAt(c).value] == c
  {
    var n :| 0 <= n < 16 && DIGITS[n] == c;
    DigitsAreListed(c, n);
  }

  lemma {:induction false} EncodedIsLower(bytes: Bytes)
    requires AreBytes(bytes)
    ensures LowerDigits(Encode(bytes))
  {
    if bytes != [] {
      EncodedIsLower(bytes[1..]);
      var text := Encode(bytes);
      forall i | 0 <= i < |text| ensures text[i] in DIGITS {
        if i >= 2 { assert text[i] == Encode(bytes[1..])[i - 2]; }
      }
    }
  }

  ghost predicate EncodesBytes(text: string, count: nat) {
    exists bytes :: AreBytes(bytes) && |bytes| == count && Encode(bytes) == text
  }

  lemma {:induction false} LowerEncodes(text: string, count: nat)
    requires |text| == 2 * count && LowerDigits(text)
    ensures EncodesBytes(text, count)
  {
    forall i | 0 <= i < |text| ensures DigitAt(text[i]).Some? { LowerIsListed(text[i]); }
    DecodesExactly(text);
    DecodeEncodes(text);
    var bytes := Decode(text).value;
    assert |bytes| == count && Encode(bytes) == text;
  }

  /** A text encodes `count` bytes exactly when it has twice as many characters, all of them lower-case digits. */
  lemma {:induction false} EncodesExactly(text: string, count: nat)
    ensures EncodesBytes(text, count) <==> |text| == 2 * count && LowerDigits(text)
  {
    if EncodesBytes(text, count) {
      var bytes :| AreBytes(bytes) && |bytes| == count && Encode(bytes) == text;
      EncodedIsLower(bytes);
    }
    if |text| == 2 * count && LowerDigits(text) {
      LowerEncodes(text, count);
    }
  }
}
