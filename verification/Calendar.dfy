/** Canonical UTC times as texts, and the instants they denote. */
module Calendar {
  import opened Decimal

  predicate DigitsAt(text: string, i: nat, n: nat)
    requires i + n <= |text|
  {
    AllDigits(text[i..i + n])
  }

  function NumberAt(text: string, i: nat, n: nat): nat
    requires i + n <= |text| && DigitsAt(text, i, n)
  {
    Decimal.Value(text[i..i + n])
  }

  predicate LeapYear(year: nat) {
    year % 4 == 0 && (year % 100 != 0 || year % 400 == 0)
  }

  function DaysIn(year: nat, month: nat): nat {
    if month == 2 then if LeapYear(year) then 29 else 28
    else if month == 4 || month == 6 || month == 9 || month == 11 then 30
    else 31
  }

  function DaysBeforeMonth(year: nat, month: nat): nat {
    if month <= 1 then 0 else DaysBeforeMonth(year, month - 1) + DaysIn(year, month - 1)
  }

  /** Days from year 0 to the start of `year`. */
  function DaysBeforeYear(year: nat): nat {
    if year == 0 then 0 else 365 * year + (year - 1) / 4 - (year - 1) / 100 + (year - 1) / 400 + 1
  }

  predicate TimeLayout(text: string) {
    && |text| == 20
    && DigitsAt(text, 0, 4) && text[4] == '-' && DigitsAt(text, 5, 2) && text[7] == '-' && DigitsAt(text, 8, 2)
    && text[10] == 'T'
    && DigitsAt(text, 11, 2) && text[13] == ':' && DigitsAt(text, 14, 2) && text[16] == ':' && DigitsAt(text, 17, 2)
    && text[19] == 'Z'
  }

  predicate CanonicalTime(text: string) {
    && TimeLayout(text)
    && 1 <= NumberAt(text, 5, 2) <= 12
    && 1 <= NumberAt(text, 8, 2) <= DaysIn(NumberAt(text, 0, 4), NumberAt(text, 5, 2))
    && NumberAt(text, 11, 2) < 24 && NumberAt(text, 14, 2) < 60 && NumberAt(text, 17, 2) < 60
  }

  /** Seconds since the start of year 0. */
  function Instant(text: string): nat
    requires CanonicalTime(text)
  {
    var year := NumberAt(text, 0, 4);
    var days := DaysBeforeYear(year) + DaysBeforeMonth(year, NumberAt(text, 5, 2)) + NumberAt(text, 8, 2) - 1;
    days * 86400 + NumberAt(text, 11, 2) * 3600 + NumberAt(text, 14, 2) * 60 + NumberAt(text, 17, 2)
  }

  // ----- Two times, an hour apart -----

  lemma {:induction false} PairAt(text: string, i: nat)
    requires i + 2 <= |text| && IsDigit(text[i]) && IsDigit(text[i + 1])
    ensures DigitsAt(text, i, 2) && NumberAt(text, i, 2) == 10 * DigitValue(text[i]) + DigitValue(text[i + 1])
  {
    var pair := text[i..i + 2];
    assert pair[..1] == [text[i]] && pair[1] == text[i + 1];
    assert Decimal.Value([]) == 0 && [text[i]][..0] == [];
    assert Decimal.Value([text[i]]) == DigitValue(text[i]);
  }

  /** The start of 2026, or one hour later. */
  function NewYear(later: bool): string {
    if later then "2026-01-01T01:00:00Z" else "2026-01-01T00:00:00Z"
  }

  lemma {:induction false} NewYearCanonical(later: bool)
    ensures TimeLayout(NewYear(later))
    ensures NumberAt(NewYear(later), 5, 2) == 1 && NumberAt(NewYear(later), 8, 2) == 1
    ensures NumberAt(NewYear(later), 11, 2) == (if later then 1 else 0)
    ensures NumberAt(NewYear(later), 14, 2) == 0 && NumberAt(NewYear(later), 17, 2) == 0
  {
    var text := NewYear(later);
    assert text[0..4] == "2026";
    PairAt(text, 5);
    PairAt(text, 8);
    PairAt(text, 11);
    PairAt(text, 14);
    PairAt(text, 17);
  }

  lemma {:induction false} NewYearTimes()
    ensures CanonicalTime(NewYear(false)) && CanonicalTime(NewYear(true))
    ensures Instant(NewYear(true)) == Instant(NewYear(false)) + 3600
  {
    NewYearCanonical(false);
    NewYearCanonical(true);
    assert NewYear(false)[0..4] == "2026" && NewYear(true)[0..4] == "2026";
  }
}
