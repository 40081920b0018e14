// `t.UTC().Format(time.RFC3339)` and its inverse: the text in which every
// instant reaches the database (sections 5.1 and 5.6 of RFC 3339).
module Rfc3339 {
  import opened Wrappers
  import opened Clock
  import Text

  // ---------- Gregorian calendar ----------

  predicate IsLeap(y: int) { y % 4 == 0 && (y % 100 != 0 || y % 400 == 0) }

  /** Days from 1 January of year 1 to 1 January of year `y`. */
  function DaysBeforeYear(y: int): int {
    365 * (y - 1) + (y - 1) / 4 - (y - 1) / 100 + (y - 1) / 400
  }

  function YearLength(y: int): int { if IsLeap(y) then 366 else 365 }

  function MonthLength(leap: bool, m: int): (n: int)
    ensures 28 <= n <= 31
  {
    if m == 2 then (if leap then 29 else 28)
    else if m in {4, 6, 9, 11} then 30
    else 31
  }

  function DaysBeforeMonth(leap: bool, m: int): int
    requires 1 <= m <= 13
  {
    if m == 1 then 0 else DaysBeforeMonth(leap, m - 1) + MonthLength(leap, m - 1)
  }

  lemma DivStep(n: int)
    ensures (n + 1) / 4 == n / 4 + if (n + 1) % 4 == 0 then 1 else 0
    ensures (n + 1) / 100 == n / 100 + if (n + 1) % 100 == 0 then 1 else 0
    ensures (n + 1) / 400 == n / 400 + if (n + 1) % 400 == 0 then 1 else 0
  {}

  lemma YearStep(y: int)
    ensures DaysBeforeYear(y + 1) == DaysBeforeYear(y) + YearLength(y)
  {
    DivStep(y - 1);
  }

  lemma {:induction false} YearsMonotone(y: int, z: int)
    requires y <= z
    ensures DaysBeforeYear(y) <= DaysBeforeYear(z)
    decreases z - y
  {
    if y < z { YearsMonotone(y, z - 1); YearStep(z - 1); }
  }

  lemma MonthsFillYear(leap: bool)
    ensures DaysBeforeMonth(leap, 13) == if leap then 366 else 365
  {
    assert DaysBeforeMonth(leap, 2) == 31;
    assert DaysBeforeMonth(leap, 3) == if leap then 60 else 59;
    assert DaysBeforeMonth(leap, 5) == DaysBeforeMonth(leap, 3) + 61;
    assert DaysBeforeMonth(leap, 7) == DaysBeforeMonth(leap, 5) + 61;
    assert DaysBeforeMonth(leap, 9) == DaysBeforeMonth(leap, 7) + 62;
    assert DaysBeforeMonth(leap, 11) == DaysBeforeMonth(leap, 9) + 61;
  }

  lemma {:induction false} MonthsMonotone(leap: bool, m: int, n: int)
    requires 1 <= m <= n <= 13
    ensures DaysBeforeMonth(leap, m) <= DaysBeforeMonth(leap, n)
    decreases n - m
  {
    if m < n { MonthsMonotone(leap, m, n - 1); }
  }

  // ---------- Civil dates and times ----------

  datatype Civil = Civil(year: int, month: int, day: int, hour: int, minute: int, second: int)

  predicate ValidDate(c: Civil) {
    1 <= c.month <= 12 && 1 <= c.day <= MonthLength(IsLeap(c.year), c.month)
  }

  predicate Valid(c: Civil) {
    ValidDate(c) && 0 <= c.hour < 24 && 0 <= c.minute < 60 && 0 <= c.second < 60
  }

  function DayOf(c: Civil): int
    requires ValidDate(c)
  {
    DaysBeforeYear(c.year) + DaysBeforeMonth(IsLeap(c.year), c.month) + c.day - 1
  }

  function SecondOfDay(c: Civil): int { c.hour * 3600 + c.minute * 60 + c.second }

  function SecondOf(c: Civil): int
    requires Valid(c)
  {
    DayOf(c) * 86400 + SecondOfDay(c)
  }

  function YearFrom(day: int, y: int): (r: int)
    requires DaysBeforeYear(y) <= day
    ensures DaysBeforeYear(r) <= day < DaysBeforeYear(r + 1)
    decreases day - DaysBeforeYear(y)
  {
    YearStep(y);
    if day < DaysBeforeYear(y + 1) then y else YearFrom(day, y + 1)
  }

  function MonthFrom(leap: bool, n: int, m: int): (r: int)
    requires 1 <= m <= 12 && DaysBeforeMonth(leap, m) <= n < if leap then 366 else 365
    ensures 1 <= r <= 12 && DaysBeforeMonth(leap, r) <= n < DaysBeforeMonth(leap, r + 1)
    decreases 12 - m
  {
    MonthsFillYear(leap);
    if n < DaysBeforeMonth(leap, m + 1) then m else MonthFrom(leap, n, m + 1)
  }

  lemma EraStart(era: int)
    ensures DaysBeforeYear(400 * era + 1) == 146097 * era
  {
    var y := 400 * era;
    assert y / 4 == 100 * era && y / 100 == 4 * era && y / 400 == era;
  }

  /** The civil date of a day: the inverse of `DayOf`. */
  function DateOf(day: int): (c: Civil)
    ensures Valid(c) && DayOf(c) == day && SecondOfDay(c) == 0
  {
    EraStart(day / 146097);
    var y := YearFrom(day, 400 * (day / 146097) + 1);
    YearStep(y);
    var n := day - DaysBeforeYear(y);
    var m := MonthFrom(IsLeap(y), n, 1);
    Civil(y, m, n - DaysBeforeMonth(IsLeap(y), m) + 1, 0, 0, 0)
  }

  lemma ClockDigits(rest: int)
    requires 0 <= rest < 86400
    ensures 0 <= rest / 3600 < 24
    ensures rest / 3600 * 3600 + rest / 60 % 60 * 60 + rest % 60 == rest
  {}

  /** The civil date and time of a second: the inverse of `SecondOf`. */
  function CivilOf(s: int): (c: Civil)
    ensures Valid(c) && SecondOf(c) == s
  {
    var rest := s % 86400;
    ClockDigits(rest);
    var c := DateOf(s / 86400).(hour := rest / 3600, minute := rest / 60 % 60, second := rest % 60);
    c
  }

  predicate DateLess(a: Civil, b: Civil) {
    a.year < b.year || (a.year == b.year &&
      (a.month < b.month || (a.month == b.month && a.day < b.day)))
  }

  lemma DateBeforeNextYear(c: Civil)
    requires ValidDate(c)
    ensures DaysBeforeYear(c.year) <= DayOf(c) < DaysBeforeYear(c.year + 1)
  {
    MonthsMonotone(IsLeap(c.year), 1, c.month);
    MonthsMonotone(IsLeap(c.year), c.month + 1, 13);
    MonthsFillYear(IsLeap(c.year));
    YearStep(c.year);
  }

  lemma EarlierDate(a: Civil, b: Civil)
    requires ValidDate(a) && ValidDate(b) && DateLess(a, b)
    ensures DayOf(a) < DayOf(b)
  {
    if a.year < b.year {
      DateBeforeNextYear(a);
      DateBeforeNextYear(b);
      YearsMonotone(a.year + 1, b.year);
    } else if a.month < b.month {
      MonthsMonotone(IsLeap(a.year), a.month + 1, b.month);
    }
  }

  predicate TimeLess(a: Civil, b: Civil) {
    a.hour < b.hour || (a.hour == b.hour &&
      (a.minute < b.minute || (a.minute == b.minute && a.second < b.second)))
  }

  predicate SameDate(a: Civil, b: Civil) {
    a.year == b.year && a.month == b.month && a.day == b.day
  }

  predicate CivilLess(a: Civil, b: Civil) {
    DateLess(a, b) || (SameDate(a, b) && TimeLess(a, b))
  }

  lemma EarlierCivil(a: Civil, b: Civil)
    requires Valid(a) && Valid(b) && CivilLess(a, b)
    ensures SecondOf(a) < SecondOf(b)
  {
    if DateLess(a, b) { EarlierDate(a, b); }
  }

  /** Calendar order is chronological order. */
  lemma CivilOrder(a: Civil, b: Civil)
    requires Valid(a) && Valid(b)
    ensures SecondOf(a) < SecondOf(b) <==> CivilLess(a, b)
  {
    if CivilLess(a, b) { EarlierCivil(a, b); }
    else if a != b { assert CivilLess(b, a); EarlierCivil(b, a); }
  }

  lemma SecondOfInjective(a: Civil, b: Civil)
    requires Valid(a) && Valid(b) && SecondOf(a) == SecondOf(b)
    ensures a == b
  {
    CivilOrder(a, b);
    CivilOrder(b, a);
  }

  /** Which dates there are, month by month. */
  lemma DateTable(c: Civil)
    ensures var leap := c.year % 4 == 0 && (c.year % 100 != 0 || c.year % 400 == 0);
            Valid(c) <==>
              && 1 <= c.month <= 12
              && 1 <= c.day <= [31, if leap then 29 else 28, 31, 30, 31, 30, 31, 31, 30, 31, 30, 31][c.month - 1]
              && 0 <= c.hour <= 23 && 0 <= c.minute <= 59 && 0 <= c.second <= 59
  {}

  lemma NextDate(c: Civil, d: Civil)
    requires Valid(c)
    requires d == if Valid(Civil(c.year, c.month, c.day + 1, 0, 0, 0)) then Civil(c.year, c.month, c.day + 1, 0, 0, 0)
                  else if c.month < 12 then Civil(c.year, c.month + 1, 1, 0, 0, 0)
                  else Civil(c.year + 1, 1, 1, 0, 0, 0)
    ensures Valid(d) && DayOf(d) == DayOf(c) + 1 && SecondOfDay(d) == 0
  {
    hide IsLeap, DaysBeforeYear;
    MonthsFillYear(IsLeap(c.year));
    YearStep(c.year);
    hide MonthLength;
  }

  lemma NextClock(c: Civil, date: Civil, d: Civil)
    requires Valid(c) && Valid(date) && DayOf(date) == DayOf(c) + 1 && SecondOfDay(date) == 0
    requires d == if c.second < 59 then c.(second := c.second + 1)
                  else if c.minute < 59 then c.(minute := c.minute + 1, second := 0)
                  else if c.hour < 23 then c.(hour := c.hour + 1, minute := 0, second := 0)
                  else date
    ensures Valid(d) && SecondOf(d) == SecondOf(c) + 1
  {
    hide IsLeap, DaysBeforeYear, DaysBeforeMonth;
  }

  lemma FirstSecond()
    ensures CivilOf(0) == Civil(1, 1, 1, 0, 0, 0)
  {
    hide *;
    var c := Civil(1, 1, 1, 0, 0, 0);
    NewYear(1);
    assert DaysBeforeYear(1) == 0 by { EraStart(0); }
    SecondOfInjective(CivilOf(0), c);
  }

  /** The calendar by its own rules: where it starts, and what the next second is
      called. With `DateTable` for which dates there are, they name every second. */
  lemma NextSecond(s: int)
    ensures CivilOf(0) == Civil(1, 1, 1, 0, 0, 0)
    ensures var c := CivilOf(s);
            CivilOf(s + 1) ==
              if c.second < 59 then c.(second := c.second + 1)
              else if c.minute < 59 then c.(minute := c.minute + 1, second := 0)
              else if c.hour < 23 then c.(hour := c.hour + 1, minute := 0, second := 0)
              else if Valid(Civil(c.year, c.month, c.day + 1, 0, 0, 0)) then Civil(c.year, c.month, c.day + 1, 0, 0, 0)
              else if c.month < 12 then Civil(c.year, c.month + 1, 1, 0, 0, 0)
              else Civil(c.year + 1, 1, 1, 0, 0, 0)
  {
    hide *;
    FirstSecond();
    var c := CivilOf(s);
    var date := if Valid(Civil(c.year, c.month, c.day + 1, 0, 0, 0)) then Civil(c.year, c.month, c.day + 1, 0, 0, 0)
                else if c.month < 12 then Civil(c.year, c.month + 1, 1, 0, 0, 0)
                else Civil(c.year + 1, 1, 1, 0, 0, 0);
    NextDate(c, date);
    var next := if c.second < 59 then c.(second := c.second + 1)
                else if c.minute < 59 then c.(minute := c.minute + 1, second := 0)
                else if c.hour < 23 then c.(hour := c.hour + 1, minute := 0, second := 0)
                else date;
    NextClock(c, date, next);
    SecondOfInjective(CivilOf(s + 1), next);
  }

  // ---------- Text ----------

  /** Go pads the year to four digits and prints more, or a sign, when it needs them. */
  function YearText(y: int): (s: string)
    ensures |s| == 4 <==> 0 <= y <= 9999
    ensures |s| >= 4
  {
    if 0 <= y <= 9999 then Text.Padded(4, y)
    else if y > 9999 then (LongDecimal(y); Text.Decimal(y))
    else if -y <= 9999 then "-" + Text.Padded(4, -y)
    else (LongDecimal(-y); "-" + Text.Decimal(-y))
  }

  lemma LongDecimal(n: nat)
    requires n > 9999
    ensures |Text.Decimal(n)| > 4
  {
    var s := Text.Decimal(n);
    Text.PaddedValue(s);
    assert Text.Power10(4) == 10000;
  }

  function Two(n: int): (s: string)
    requires 0 <= n < 100
    ensures |s| == 2 && Text.AllDigits(s) && Text.Value(s) == n
  {
    assert Text.Power10(2) == 100;
    Text.Padded(2, n)
  }

  function DateTail(c: Civil): (s: string)
    requires Valid(c)
    ensures |s| == 6
  {
    "-" + Two(c.month) + "-" + Two(c.day)
  }

  function TimeTail(c: Civil): (s: string)
    requires Valid(c)
    ensures |s| == 10
  {
    "T" + Two(c.hour) + ":" + Two(c.minute) + ":" + Two(c.second) + "Z"
  }

  function Print(c: Civil): (s: string)
    requires Valid(c)
    ensures |s| == 20 <==> 0 <= c.year <= 9999
  {
    YearText(c.year) + DateTail(c) + TimeTail(c)
  }

  lemma PaddedTwo(n: nat)
    requires n < 100
    ensures Text.Power10(2) == 100 && Two(n) == Text.Padded(2, n) == [Text.Digit(n / 10), Text.Digit(n % 10)]
  {
    assert Text.Power10(1) == 10;
    assert Text.Padded(1, n / 10) == [Text.Digit(n / 10)];
  }

  lemma PaddedFour(n: nat)
    requires n <= 9999
    ensures YearText(n) ==
            [Text.Digit(n / 1000), Text.Digit(n / 100 % 10), Text.Digit(n / 10 % 10), Text.Digit(n % 10)]
  {
    PaddedTwo(n / 100);
    assert n / 10 / 10 == n / 100;
    assert Text.Power10(3) == 1000 && Text.Power10(4) == 10000;
    assert Text.Padded(4, n) == Text.Padded(3, n / 10) + [Text.Digit(n % 10)];
    assert Text.Padded(3, n / 10) == Text.Padded(2, n / 100) + [Text.Digit(n / 10 % 10)];
  }

  /** The layout of a stamp, character by character. */
  lemma StampLayout(c: Civil)
    requires Valid(c) && 0 <= c.year <= 9999
    ensures Print(c) ==
            [Text.Digit(c.year / 1000), Text.Digit(c.year / 100 % 10), Text.Digit(c.year / 10 % 10),
             Text.Digit(c.year % 10), '-', Text.Digit(c.month / 10), Text.Digit(c.month % 10), '-',
             Text.Digit(c.day / 10), Text.Digit(c.day % 10), 'T', Text.Digit(c.hour / 10), Text.Digit(c.hour % 10), ':',
             Text.Digit(c.minute / 10), Text.Digit(c.minute % 10), ':',
             Text.Digit(c.second / 10), Text.Digit(c.second % 10), 'Z']
  {
    hide Text.Padded, Text.Digit, Two, YearText, IsLeap;
    PaddedFour(c.year);
    PaddedTwo(c.month);
    PaddedTwo(c.day);
    PaddedTwo(c.hour);
    PaddedTwo(c.minute);
    PaddedTwo(c.second);
  }

  /** `t.UTC().Format(time.RFC3339)`; the sub-second part is dropped. */
  function Format(t: int): string {
    Print(CivilOf(Floor(t)))
  }

  lemma StampOfZero()
    ensures Format(0) == "0001-01-01T00:00:00Z"
  {
    hide *;
    var c := Civil(1, 1, 1, 0, 0, 0);
    NewYear(1);
    assert DaysBeforeYear(1) == 0 by { EraStart(0); }
    FormatOfCivil(c);
    assert Format(0) == Print(c);
    StampLayout(c);
  }

  const FIRST_STAMP: int := -366 * 86400
  const END_OF_STAMPS: int := 3652059 * 86400

  /** The instants whose UTC year has four digits; see `StampableIff`. */
  predicate Stampable(t: int) {
    FIRST_STAMP <= Floor(t) < END_OF_STAMPS
  }

  lemma StampableIff(t: int)
    ensures Stampable(t) <==> 0 <= CivilOf(Floor(t)).year <= 9999
  {
    var c := CivilOf(Floor(t));
    DateBeforeNextYear(c);
    if c.year < 0 { YearsMonotone(c.year + 1, 0); }
    else if c.year > 9999 { YearsMonotone(10000, c.year); }
    else { YearsMonotone(0, c.year); YearsMonotone(c.year + 1, 10000); }
    assert DaysBeforeYear(0) == -366 && DaysBeforeYear(10000) == 3652059;
  }

  predicate DigitsAt(s: string, i: nat, j: nat)
    requires i <= j <= |s|
  {
    Text.AllDigits(s[i..j])
  }

  predicate WellShaped(s: string) {
    && |s| == 20
    && s[4] == '-' && s[7] == '-' && s[10] == 'T' && s[13] == ':' && s[16] == ':' && s[19] == 'Z'
    && DigitsAt(s, 0, 4) && DigitsAt(s, 5, 7) && DigitsAt(s, 8, 10)
    && DigitsAt(s, 11, 13) && DigitsAt(s, 14, 16) && DigitsAt(s, 17, 19)
  }

  function Scan(s: string): Civil
    requires WellShaped(s)
  {
    Civil(Text.Value(s[0..4]), Text.Value(s[5..7]), Text.Value(s[8..10]),
          Text.Value(s[11..13]), Text.Value(s[14..16]), Text.Value(s[17..19]))
  }

  /** `time.Parse(time.RFC3339, s)` on UTC texts without a fraction. */
  function Parse(s: string): Option<int> {
    if WellShaped(s) && Valid(Scan(s)) then Some(SecondOf(Scan(s)) * SECOND) else None
  }

  lemma PrintThenScan(c: Civil)
    requires Valid(c) && 0 <= c.year <= 9999
    ensures WellShaped(Print(c)) && Scan(Print(c)) == c
  {
    var s := Print(c);
    assert s[0..4] == YearText(c.year);
    assert s[5..7] == Two(c.month);
    assert s[8..10] == Two(c.day);
    assert s[11..13] == Two(c.hour);
    assert s[14..16] == Two(c.minute);
    assert s[17..19] == Two(c.second);
  }

  /** Reading a stamp back gives the whole second, exactly for four-digit years. */
  lemma ParseFormat(t: int)
    ensures Parse(Format(t)) == if Stampable(t) then Some(Truncate(t, SECOND)) else None
  {
    var c := CivilOf(Floor(t));
    StampableIff(t);
    if Stampable(t) { PrintThenScan(c); }
    TruncateIsFloor(t);
  }

  lemma TwoOfValue(s: string)
    requires |s| == 2 && Text.AllDigits(s)
    ensures 0 <= Text.Value(s) < 100 && Two(Text.Value(s)) == s
  {
    assert Text.Power10(2) == 100;
    Text.PaddedValue(s);
  }

  lemma YearTextOfValue(s: string)
    requires |s| == 4 && Text.AllDigits(s)
    ensures 0 <= Text.Value(s) <= 9999 && YearText(Text.Value(s)) == s
  {
    assert Text.Power10(4) == 10000;
    Text.PaddedValue(s);
  }

  lemma ScanThenPrint(s: string)
    requires WellShaped(s) && Valid(Scan(s))
    ensures 0 <= Scan(s).year <= 9999 && Print(Scan(s)) == s
  {
    hide YearText, Two, Text.Value, Text.AllDigits;
    YearTextOfValue(s[0..4]);
    TwoOfValue(s[5..7]);
    TwoOfValue(s[8..10]);
    TwoOfValue(s[11..13]);
    TwoOfValue(s[14..16]);
    TwoOfValue(s[17..19]);
    var date, time := "-" + s[5..7] + "-" + s[8..10], "T" + s[11..13] + ":" + s[14..16] + ":" + s[17..19] + "Z";
    assert s == s[0..4] + date + time;
  }

  /** Whatever can be read back is the stamp of exactly one whole second. */
  lemma FormatParse(s: string)
    ensures Parse(s).Some? ==>
              var t := Parse(s).value;
              Stampable(t) && Format(t) == s && t == Floor(t) * SECOND
  {
    if Parse(s).Some? {
      var c := Scan(s);
      ScanThenPrint(s);
      FloorOfSeconds(SecondOf(c));
      FormatOfCivil(c);
      SecondOfInjective(CivilOf(SecondOf(c)), c);
      StampableIff(SecondOf(c) * SECOND);
    }
  }

  lemma TwoOrder(m: int, n: int)
    requires 0 <= m < 100 && 0 <= n < 100
    ensures Text.Less(Two(m), Two(n)) <==> m < n
    ensures Two(m) == Two(n) <==> m == n
  {
    assert Text.Power10(2) == 100;
    Text.PaddedOrder(2, m, n);
  }

  lemma SeparatorOrder(sep: string, a: string, b: string)
    ensures Text.Less(sep + a, sep + b) <==> Text.Less(a, b)
  {
    Text.LessIrreflexive(sep);
    Text.LessConcat(sep, a, sep, b);
  }

  lemma DateTailOrder(a: Civil, b: Civil)
    requires Valid(a) && Valid(b)
    ensures Text.Less(DateTail(a), DateTail(b)) <==>
            a.month < b.month || (a.month == b.month && a.day < b.day)
    ensures DateTail(a) == DateTail(b) <==> a.month == b.month && a.day == b.day
  {
    hide Two, Text.Less;
    TwoOrder(a.month, b.month);
    TwoOrder(a.day, b.day);
    var da, db := "-" + Two(a.day), "-" + Two(b.day);
    SeparatorOrder("-", Two(a.day), Two(b.day));
    Text.LessConcat(Two(a.month), da, Two(b.month), db);
    SeparatorOrder("-", Two(a.month) + da, Two(b.month) + db);
    TailFields(Two(a.month), Two(a.day));
    TailFields(Two(b.month), Two(b.day));
  }

  lemma TailFields(m: string, d: string)
    requires |m| == |d| == 2
    ensures var s := "-" + m + "-" + d; s == "-" + (m + ("-" + d)) && s[1..3] == m && s[4..6] == d
  {}

  lemma TimeTailOrder(a: Civil, b: Civil)
    requires Valid(a) && Valid(b)
    ensures Text.Less(TimeTail(a), TimeTail(b)) <==> TimeLess(a, b)
  {
    hide Two, Text.Less;
    TwoOrder(a.hour, b.hour);
    TwoOrder(a.minute, b.minute);
    TwoOrder(a.second, b.second);
    Text.LessIrreflexive("Z");
    Text.LessConcat(Two(a.second), "Z", Two(b.second), "Z");
    var sa, sb := Two(a.second) + "Z", Two(b.second) + "Z";
    SeparatorOrder(":", sa, sb);
    Text.LessConcat(Two(a.minute), ":" + sa, Two(b.minute), ":" + sb);
    var ma, mb := Two(a.minute) + (":" + sa), Two(b.minute) + (":" + sb);
    SeparatorOrder(":", ma, mb);
    Text.LessConcat(Two(a.hour), ":" + ma, Two(b.hour), ":" + mb);
    SeparatorOrder("T", Two(a.hour) + (":" + ma), Two(b.hour) + (":" + mb));
    ClockFields(Two(a.hour), Two(a.minute), Two(a.second));
    ClockFields(Two(b.hour), Two(b.minute), Two(b.second));
  }

  lemma ClockFields(h: string, m: string, s: string)
    ensures "T" + h + ":" + m + ":" + s + "Z" == "T" + (h + (":" + (m + (":" + (s + "Z")))))
  {}

  lemma YearTextOrder(y: int, z: int)
    requires 0 <= y <= 9999 && 0 <= z <= 9999
    ensures Text.Less(YearText(y), YearText(z)) <==> y < z
    ensures YearText(y) == YearText(z) <==> y == z
  {
    Text.PaddedOrder(4, y, z);
  }

  lemma PrintOrder(a: Civil, b: Civil)
    requires Valid(a) && Valid(b) && 0 <= a.year <= 9999 && 0 <= b.year <= 9999
    ensures Text.Less(Print(a), Print(b)) <==> CivilLess(a, b)
  {
    hide Text.Less, DateTail, TimeTail, YearText, Valid;
    YearTextOrder(a.year, b.year);
    DateTailOrder(a, b);
    TimeTailOrder(a, b);
    var ya, yb := YearText(a.year), YearText(b.year);
    Text.LessConcat(DateTail(a), TimeTail(a), DateTail(b), TimeTail(b));
    Text.LessConcat(ya, DateTail(a) + TimeTail(a), yb, DateTail(b) + TimeTail(b));
    assert Print(a) == ya + (DateTail(a) + TimeTail(a));
    assert Print(b) == yb + (DateTail(b) + TimeTail(b));
  }

  /** Lexical order of stamps is chronological order of the whole seconds. */
  lemma FormatOrder(t: int, u: int)
    requires Stampable(t) && Stampable(u)
    ensures Text.Less(Format(t), Format(u)) <==> Floor(t) < Floor(u)
  {
    StampableIff(t);
    StampableIff(u);
    PrintOrder(CivilOf(Floor(t)), CivilOf(Floor(u)));
    CivilOrder(CivilOf(Floor(t)), CivilOf(Floor(u)));
  }

  /** The stamp of a four-digit year is printed for its own second only. */
  lemma FormatInjective(t: int, u: int)
    requires Stampable(t)
    ensures Format(t) == Format(u) <==> Floor(t) == Floor(u)
  {
    if Format(t) == Format(u) {
      StampableIff(t);
      StampableIff(u);
      assert |Format(u)| == 20;
      FormatOrder(t, u);
      FormatOrder(u, t);
      Text.LessIrreflexive(Format(t));
    }
  }

  /** A stamp range selects exactly the instants of the time range. */
  lemma FormatRange(from: int, t: int, to: int)
    requires Stampable(from) && Stampable(t) && Stampable(to)
    ensures Text.AtMost(Format(from), Format(t)) && Text.Less(Format(t), Format(to))
            <==> Floor(from) <= Floor(t) < Floor(to)
  {
    FormatOrder(t, from);
    FormatOrder(t, to);
  }

  lemma FormatOfCivil(c: Civil)
    requires Valid(c)
    ensures Format(SecondOf(c) * SECOND) == Print(c)
  {
    FloorOfSeconds(SecondOf(c));
    SecondOfInjective(CivilOf(SecondOf(c)), c);
  }

  lemma LaterYearSortsFirst(a: Civil, b: Civil)
    requires Valid(a) && Valid(b) && a.year == 9999 && b.year == 10000
    ensures Text.Less(Print(b), Print(a)) && SecondOf(a) < SecondOf(b)
  {
    CivilOrder(a, b);
    assert Print(a)[0] == '9' && Print(b)[0] == '1';
  }

  /** From the first stamp on, lexical order is chronological order among all
      instants up to `t` if and only if `t` lies before year 10000. */
  lemma OrderHoldsIff(t: int)
    requires FIRST_STAMP <= Floor(t)
    ensures (forall u, v | FIRST_STAMP <= Floor(u) <= Floor(t) && FIRST_STAMP <= Floor(v) <= Floor(t) ::
               Text.Less(Format(u), Format(v)) <==> Floor(u) < Floor(v))
            <==> Stampable(t)
  {
    hide Format;
    if Stampable(t) {
      forall u, v | FIRST_STAMP <= Floor(u) <= Floor(t) && FIRST_STAMP <= Floor(v) <= Floor(t)
        ensures Text.Less(Format(u), Format(v)) <==> Floor(u) < Floor(v)
      {
        FormatOrder(u, v);
      }
    } else {
      var u, v := LastYearMisplaced();
    }
  }

  /** Two instants in the years 9999 and 10000 that sort the wrong way round. */
  lemma LastYearMisplaced() returns (u: int, v: int)
    ensures FIRST_STAMP <= Floor(u) < Floor(v) == END_OF_STAMPS && Text.Less(Format(v), Format(u))
  {
    hide Format, Print, SecondOf, CivilOf;
    var a, b := Civil(9999, 1, 1, 0, 0, 0), Civil(10000, 1, 1, 0, 0, 0);
    u, v := SecondOf(a) * SECOND, SecondOf(b) * SECOND;
    TurnOfTheEra(a, b);
    LaterYearSortsFirst(a, b);
    FormatOfCivil(a);
    FormatOfCivil(b);
    FloorOfSeconds(SecondOf(a));
    FloorOfSeconds(SecondOf(b));
  }

  lemma TurnOfTheEra(a: Civil, b: Civil)
    requires a == Civil(9999, 1, 1, 0, 0, 0) && b == Civil(10000, 1, 1, 0, 0, 0)
    ensures Valid(a) && Valid(b) && FIRST_STAMP <= SecondOf(a) < SecondOf(b) == END_OF_STAMPS
  {
    NewYear(9999);
    NewYear(10000);
    hide SecondOf;
    assert DaysBeforeYear(9999) == 3651694 && DaysBeforeYear(10000) == 3652059;
  }

  lemma NewYear(y: int)
    ensures var c := Civil(y, 1, 1, 0, 0, 0); Valid(c) && SecondOf(c) == DaysBeforeYear(y) * 86400
  {
    hide DaysBeforeYear;
  }

  /** Outside four-digit years the promise fails: year 10000 sorts before year 9999. */
  lemma FormatOrderNeedsFourDigits()
    ensures exists t, u :: Floor(t) < Floor(u) && Text.Less(Format(u), Format(t))
  {
    hide Format;
    var u, v := LastYearMisplaced();
  }
}
