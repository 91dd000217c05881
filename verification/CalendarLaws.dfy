/**
 The calendar checked against itself: month and year lengths by two different formulas, and the
 instants as a gapless count of the canonical times in their order.
 */
module CalendarLaws {
  import opened Decimal
  import opened Calendar

  // ----- Lengths of months and years -----

  function LeapDay(year: nat): nat {
    if LeapYear(year) then 1 else 0
  }

  /** From March on the months follow a straight line, whichever year it is. */
  lemma {:induction false} MonthStarts(year: nat, month: nat)
    requires 1 <= month <= 13
    ensures DaysBeforeMonth(year, month)
         == if month <= 2 then 31 * (month - 1) else 59 + LeapDay(year) + (153 * (month - 3) + 2) / 5
  {
    if month > 1 { MonthStarts(year, month - 1); }
  }

  lemma {:induction false} Quotients(y: nat)
    requires y > 0
    ensures y / 4 == (y - 1) / 4 + DividesDay(y, 4)
    ensures y / 100 == (y - 1) / 100 + DividesDay(y, 100)
    ensures y / 400 == (y - 1) / 400 + DividesDay(y, 400)
  {
  }

  function DividesDay(year: nat, k: nat): nat
    requires k > 0
  {
    if year % k == 0 then 1 else 0
  }

  lemma {:induction false} Hundredfold(q: nat)
    ensures 400 * q % 100 == 0
  {
  }

  lemma {:induction false} Fourfold(q: nat)
    ensures 100 * q % 4 == 0
  {
  }

  /** A leap day in every fourth year, not in every hundredth, but in every four-hundredth. */
  lemma {:induction false} LeapSum(year: nat)
    ensures LeapDay(year) == DividesDay(year, 4) - DividesDay(year, 100) + DividesDay(year, 400)
  {
    if year % 400 == 0 { Hundredfold(year / 400); }
    if year % 100 == 0 { Fourfold(year / 100); }
  }

  lemma {:induction false} NextYear(year: nat)
    ensures DaysBeforeYear(year + 1) == DaysBeforeYear(year) + 365 + LeapDay(year)
  {
    LeapSum(year);
    if year > 0 { Quotients(year); }
  }

  lemma {:induction false} Cycle(year: nat)
    ensures DaysBeforeYear(year + 400) == DaysBeforeYear(year) + 400 * 365 + 97
  {
    if year > 0 { CycleQuotients(year - 1); }
  }

  lemma {:induction false} CycleQuotients(y: nat)
    ensures (y + 400) / 4 == y / 4 + 100 && (y + 400) / 100 == y / 100 + 4 && (y + 400) / 400 == y / 400 + 1
  {
  }

  /** A year ends where the next begins, and has 97 leap days in 400 years. */
  lemma {:induction false} YearLength(year: nat)
    ensures DaysBeforeYear(year + 1) == DaysBeforeYear(year) + 365 + LeapDay(year)
    ensures DaysBeforeMonth(year, 13) == 365 + LeapDay(year)
    ensures DaysBeforeYear(year + 400) == DaysBeforeYear(year) + 400 * 365 + 97
  {
    NextYear(year);
    Cycle(year);
    MonthStarts(year, 13);
  }

  // ----- Times are in order -----

  function Year(text: string): nat requires TimeLayout(text) { NumberAt(text, 0, 4) }
  function Month(text: string): nat requires TimeLayout(text) { NumberAt(text, 5, 2) }
  function Day(text: string): nat requires TimeLayout(text) { NumberAt(text, 8, 2) }
  function Hour(text: string): nat requires TimeLayout(text) { NumberAt(text, 11, 2) }
  function Minute(text: string): nat requires TimeLayout(text) { NumberAt(text, 14, 2) }
  function Second(text: string): nat requires TimeLayout(text) { NumberAt(text, 17, 2) }

  predicate EarlierDay(a: string, b: string)
    requires TimeLayout(a) && TimeLayout(b)
  {
    || Year(a) < Year(b)
    || (Year(a) == Year(b) && (Month(a) < Month(b) || (Month(a) == Month(b) && Day(a) < Day(b))))
  }

  predicate SameDay(a: string, b: string)
    requires TimeLayout(a) && TimeLayout(b)
  {
    Year(a) == Year(b) && Month(a) == Month(b) && Day(a) == Day(b)
  }

  predicate EarlierOnDay(a: string, b: string)
    requires TimeLayout(a) && TimeLayout(b)
  {
    || Hour(a) < Hour(b)
    || (Hour(a) == Hour(b) && (Minute(a) < Minute(b) || (Minute(a) == Minute(b) && Second(a) < Second(b))))
  }

  /** The fields compared from the year down to the second. */
  predicate Earlier(a: string, b: string)
    requires TimeLayout(a) && TimeLayout(b)
  {
    EarlierDay(a, b) || (SameDay(a, b) && EarlierOnDay(a, b))
  }

  function DayNumber(year: nat, month: nat, day: nat): int {
    DaysBeforeYear(year) + DaysBeforeMonth(year, month) + day - 1
  }

  lemma {:induction false} YearsGrow(a: nat, b: nat)
    requires a < b
    ensures DaysBeforeYear(a + 1) <= DaysBeforeYear(b)
  {
    if a + 1 < b {
      YearsGrow(a, b - 1);
      YearLength(b - 1);
    }
  }

  lemma {:induction false} MonthsGrow(year: nat, a: nat, b: nat)
    requires 1 <= a < b
    ensures DaysBeforeMonth(year, a) + DaysIn(year, a) <= DaysBeforeMonth(year, b)
  {
    if a + 1 < b { MonthsGrow(year, a, b - 1); }
  }

  lemma {:induction false} DayInYear(year: nat, month: nat, day: nat)
    requires 1 <= month <= 12 && 1 <= day <= DaysIn(year, month)
    ensures DaysBeforeYear(year) <= DayNumber(year, month, day) < DaysBeforeYear(year + 1)
  {
    MonthsGrow(year, month, 13);
    YearLength(year);
  }

  lemma {:induction false} DaysOrdered(a: string, b: string)
    requires CanonicalTime(a) && CanonicalTime(b) && EarlierDay(a, b)
    ensures DayNumber(Year(a), Month(a), Day(a)) < DayNumber(Year(b), Month(b), Day(b))
  {
    DayInYear(Year(a), Month(a), Day(a));
    DayInYear(Year(b), Month(b), Day(b));
    if Year(a) < Year(b) {
      YearsGrow(Year(a), Year(b));
    } else if Month(a) < Month(b) {
      MonthsGrow(Year(a), Month(a), Month(b));
    }
  }

  function SecondOfDay(text: string): nat
    requires TimeLayout(text)
  {
    Hour(text) * 3600 + Minute(text) * 60 + Second(text)
  }

  lemma {:induction false} InstantParts(text: string)
    requires CanonicalTime(text)
    ensures Instant(text) == DayNumber(Year(text), Month(text), Day(text)) * 86400 + SecondOfDay(text)
    ensures SecondOfDay(text) < 86400
  {
  }

  lemma {:induction false} SecondsOrdered(a: string, b: string)
    requires CanonicalTime(a) && CanonicalTime(b) && EarlierOnDay(a, b)
    ensures SecondOfDay(a) < SecondOfDay(b)
  {
  }

  /** An earlier time has a smaller instant. */
  lemma {:induction false} InstantsOrdered(a: string, b: string)
    requires CanonicalTime(a) && CanonicalTime(b) && Earlier(a, b)
    ensures Instant(a) < Instant(b)
  {
    InstantParts(a);
    InstantParts(b);
    if EarlierDay(a, b) { DaysOrdered(a, b); } else { SecondsOrdered(a, b); }
  }

  // ----- Times from their fields -----

  function Pow10(k: nat): nat {
    if k == 0 then 1 else 10 * Pow10(k - 1)
  }

  /** The last `k` digits of a number. */
  function Padded(n: nat, k: nat): (s: string)
    ensures |s| == k && AllDigits(s)
  {
    if k == 0 then [] else Padded(n / 10, k - 1) + [DigitOf(n % 10)]
  }

  lemma {:induction false} PaddedValue(n: nat, k: nat)
    requires n < Pow10(k)
    ensures Decimal.Value(Padded(n, k)) == n
  {
    if k > 0 {
      PaddedValue(n / 10, k - 1);
      assert Padded(n, k)[..k - 1] == Padded(n / 10, k - 1);
    }
  }

  lemma {:induction false} DigitsDetermined(s: string, t: string)
    requires AllDigits(s) && AllDigits(t) && |s| == |t| && Decimal.Value(s) == Decimal.Value(t)
    ensures s == t
  {
    if s != [] {
      var n := |s| - 1;
      assert DigitValue(s[n]) == DigitValue(t[n]) && Decimal.Value(s[..n]) == Decimal.Value(t[..n]);
      DigitsDetermined(s[..n], t[..n]);
      assert s[n] == t[n];
      assert s == s[..n] + [s[n]] && t == t[..n] + [t[n]];
    }
  }

  predicate SameFields(a: string, b: string)
    requires TimeLayout(a) && TimeLayout(b)
  {
    SameDay(a, b) && Hour(a) == Hour(b) && Minute(a) == Minute(b) && Second(a) == Second(b)
  }

  lemma {:induction false} SamePiece(a: string, b: string, i: nat, n: nat)
    requires |a| == |b| && i + n <= |a| && DigitsAt(a, i, n) && DigitsAt(b, i, n) && NumberAt(a, i, n) == NumberAt(b, i, n)
    ensures forall k | i <= k < i + n :: a[k] == b[k]
  {
    DigitsDetermined(a[i..i + n], b[i..i + n]);
    forall k | i <= k < i + n ensures a[k] == b[k] { assert a[k] == a[i..i + n][k - i] && b[k] == b[i..i + n][k - i]; }
  }

  lemma {:induction false} FieldsDetermineText(a: string, b: string)
    requires TimeLayout(a) && TimeLayout(b) && SameFields(a, b)
    ensures a == b
  {
    SamePiece(a, b, 0, 4);
    SamePiece(a, b, 5, 2);
    SamePiece(a, b, 8, 2);
    SamePiece(a, b, 11, 2);
    SamePiece(a, b, 14, 2);
    SamePiece(a, b, 17, 2);
    assert a == b;
  }

  /** No two times share an instant, and the order of instants is the order of times. */
  lemma {:induction false} InstantOrder(a: string, b: string)
    requires CanonicalTime(a) && CanonicalTime(b)
    ensures Instant(a) < Instant(b) <==> Earlier(a, b)
    ensures Instant(a) == Instant(b) <==> a == b
  {
    if Earlier(a, b) {
      InstantsOrdered(a, b);
    } else if Earlier(b, a) {
      InstantsOrdered(b, a);
    } else {
      FieldsDetermineText(a, b);
    }
  }

  // ----- Every instant is some time -----

  function TimeText(year: nat, month: nat, day: nat, hour: nat, minute: nat, second: nat): (text: string)
    ensures |text| == 20
  {
    Padded(year, 4) + "-" + Padded(month, 2) + "-" + Padded(day, 2) + "T"
    + Padded(hour, 2) + ":" + Padded(minute, 2) + ":" + Padded(second, 2) + "Z"
  }

  lemma {:induction false} TimePieces(year: nat, month: nat, day: nat, hour: nat, minute: nat, second: nat)
    ensures var text := TimeText(year, month, day, hour, minute, second);
            && text[0..4] == Padded(year, 4) && text[5..7] == Padded(month, 2) && text[8..10] == Padded(day, 2)
            && text[11..13] == Padded(hour, 2) && text[14..16] == Padded(minute, 2) && text[17..19] == Padded(second, 2)
            && text[4] == '-' && text[7] == '-' && text[10] == 'T' && text[13] == ':' && text[16] == ':' && text[19] == 'Z'
  {
  }

  lemma {:induction false} Hundreds()
    ensures Pow10(2) == 100 && Pow10(4) == 10000
  {
    assert Pow10(1) == 10;
    assert Pow10(3) == 1000;
  }

  lemma {:induction false} TimeFields(year: nat, month: nat, day: nat, hour: nat, minute: nat, second: nat)
    requires year < 10000 && month < 100 && day < 100 && hour < 100 && minute < 100 && second < 100
    ensures var text := TimeText(year, month, day, hour, minute, second);
            && TimeLayout(text) && Year(text) == year && Month(text) == month && Day(text) == day
            && Hour(text) == hour && Minute(text) == minute && Second(text) == second
  {
    TimePieces(year, month, day, hour, minute, second);
    Hundreds();
    PaddedValue(year, 4);
    PaddedValue(month, 2);
    PaddedValue(day, 2);
    PaddedValue(hour, 2);
    PaddedValue(minute, 2);
    PaddedValue(second, 2);
  }

  lemma {:induction false} YearOf(days: nat, bound: nat) returns (year: nat)
    requires days < DaysBeforeYear(bound)
    ensures year < bound && DaysBeforeYear(year) <= days < DaysBeforeYear(year + 1)
  {
    year := bound - 1;
    if days < DaysBeforeYear(year) { year := YearOf(days, year); }
  }

  lemma {:induction false} MonthOf(year: nat, days: nat, bound: nat) returns (month: nat)
    requires bound > 1 && days < DaysBeforeMonth(year, bound)
    ensures 1 <= month < bound && DaysBeforeMonth(year, month) <= days < DaysBeforeMonth(year, month + 1)
  {
    month := bound - 1;
    if days < DaysBeforeMonth(year, month) { month := MonthOf(year, days, month); }
  }

  /** Seconds from the start of year 0 to the end of year 9999. */
  function AllSeconds(): nat {
    DaysBeforeYear(10000) * 86400
  }

  lemma {:induction false} DayText(days: nat, hour: nat, minute: nat, second: nat) returns (text: string)
    requires days < DaysBeforeYear(10000) && hour < 24 && minute < 60 && second < 60
    ensures CanonicalTime(text) && Instant(text) == days * 86400 + hour * 3600 + minute * 60 + second
  {
    var year := YearOf(days, 10000);
    YearLength(year);
    var month := MonthOf(year, days - DaysBeforeYear(year), 13);
    var day := days - DaysBeforeYear(year) - DaysBeforeMonth(year, month) + 1;
    text := TimeText(year, month, day, hour, minute, second);
    TimeFields(year, month, day, hour, minute, second);
    InstantParts(text);
  }

  ghost predicate IsInstant(n: nat) {
    exists text :: CanonicalTime(text) && Instant(text) == n
  }

  lemma {:induction false} Clock(n: nat) returns (hour: nat, minute: nat, second: nat)
    requires n < 86400
    ensures hour < 24 && minute < 60 && second < 60 && n == hour * 3600 + minute * 60 + second
  {
    hour, minute, second := n / 3600, n % 3600 / 60, n % 60;
  }

  /** The instants are exactly the numbers of the seconds of these years: none is skipped, none is beyond. */
  lemma {:induction false} InstantsAreGapless(n: nat)
    ensures IsInstant(n) <==> n < AllSeconds()
  {
    if n < AllSeconds() {
      var hour, minute, second := Clock(n % 86400);
      var text := DayText(n / 86400, hour, minute, second);
      assert CanonicalTime(text) && Instant(text) == n;
    }
    forall text | CanonicalTime(text) ensures Instant(text) < AllSeconds() {
      InstantParts(text);
      YearBounded(text);
      DayInYear(Year(text), Month(text), Day(text));
      if Year(text) < 9999 { YearsGrow(Year(text), 10000); }
    }
  }

  lemma {:induction false} DigitsBounded(s: string)
    requires AllDigits(s)
    ensures Decimal.Value(s) < Pow10(|s|)
  {
    if s != [] { DigitsBounded(s[..|s| - 1]); }
  }

  lemma {:induction false} YearBounded(text: string)
    requires TimeLayout(text)
    ensures Year(text) <= 9999
  {
    DigitsBounded(text[0..4]);
    Hundreds();
  }
}
