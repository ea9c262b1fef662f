/**
 Instants and the text they are stored as. An instant is a count of nanoseconds since
 0000-01-01 00:00:00 UTC; its text is the date, the time, a fraction of 0, 3, 6 or 9
 digits and " UTC".
 */
module Timestamps {
  import opened Decimal
  import opened Text

  const NANOS_PER_SECOND: nat := 1_000_000_000
  const SECONDS_PER_DAY: nat := 86_400
  /** The first instant of year 10000. */
  const END: nat := 3_652_425 * 86_400 * 1_000_000_000

  datatype Civil = Civil(
    year: nat, month: nat, day: nat,
    hour: nat, minute: nat, second: nat, nano: nat)

  // ---------- the proleptic Gregorian calendar ----------

  predicate IsLeap(y: nat) {
    y % 4 == 0 && (y % 100 != 0 || y % 400 == 0)
  }

  function DaysInMonth(y: nat, m: nat): nat {
    if m == 2 then (if IsLeap(y) then 29 else 28)
    else if m == 4 || m == 6 || m == 9 || m == 11 then 30
    else 31
  }

  /** Days from the first day of year 0 to the first day of year `y`. */
  function DaysBeforeYear(y: nat): nat
  {
    365 * y + (y + 3) / 4 - (y + 99) / 100 + (y + 399) / 400
  }

  function DaysBeforeMonth(y: nat, m: nat): nat
    requires 1 <= m <= 13
  {
    if m == 1 then 0 else DaysBeforeMonth(y, m - 1) + DaysInMonth(y, m - 1)
  }

  ghost predicate Valid(c: Civil) {
    && c.year < 10000
    && 1 <= c.month <= 12
    && 1 <= c.day <= DaysInMonth(c.year, c.month)
    && c.hour < 24 && c.minute < 60 && c.second < 60 && c.nano < NANOS_PER_SECOND
  }

  function DayNumber(c: Civil): nat
    requires 1 <= c.month <= 13 && c.day >= 1
  {
    DaysBeforeYear(c.year) + DaysBeforeMonth(c.year, c.month) + c.day - 1
  }

  /** Nanoseconds from the origin to a calendar time. */
  function ToNanos(c: Civil): nat
    requires 1 <= c.month <= 13 && c.day >= 1
  {
    ((DayNumber(c) * 24 + c.hour) * 60 + c.minute) * 60_000_000_000 + c.second * NANOS_PER_SECOND + c.nano
  }

  lemma MonthsOfYear(y: nat)
    ensures DaysBeforeMonth(y, 13) == if IsLeap(y) then 366 else 365
  {
    var february := DaysInMonth(y, 2);
    assert DaysBeforeMonth(y, 2) == 31;
    assert DaysBeforeMonth(y, 4) == DaysBeforeMonth(y, 3) + 31 == 62 + february;
    assert DaysBeforeMonth(y, 6) == DaysBeforeMonth(y, 5) + 31 == 123 + february;
    assert DaysBeforeMonth(y, 8) == DaysBeforeMonth(y, 7) + 31 == 184 + february;
    assert DaysBeforeMonth(y, 10) == DaysBeforeMonth(y, 9) + 30 == 245 + february;
    assert DaysBeforeMonth(y, 12) == DaysBeforeMonth(y, 11) + 30 == 306 + february;
  }

  // One more year adds one more multiple of 4, 100 or 400 exactly when the year is one.

  lemma MultiplesOf4(y: nat)
    ensures (y + 4) / 4 == (y + 3) / 4 + if y % 4 == 0 then 1 else 0
  {
    assert (y + 4) / 4 == y / 4 + 1;
  }

  lemma MultiplesOf100(y: nat)
    ensures (y + 100) / 100 == (y + 99) / 100 + if y % 100 == 0 then 1 else 0
  {
    assert (y + 100) / 100 == y / 100 + 1;
  }

  lemma MultiplesOf400(y: nat)
    ensures (y + 400) / 400 == (y + 399) / 400 + if y % 400 == 0 then 1 else 0
  {
    assert (y + 400) / 400 == y / 400 + 1;
  }

  lemma LeapRules(y: nat)
    ensures y % 400 == 0 ==> y % 100 == 0
    ensures y % 100 == 0 ==> y % 4 == 0
  {
    assert y == 400 * (y / 400) + y % 400;
    assert y == 100 * (y / 100) + y % 100;
    if y % 400 == 0 {
      assert y == 100 * (4 * (y / 400));
    }
    if y % 100 == 0 {
      assert y == 4 * (25 * (y / 100));
    }
  }

  lemma YearLength(y: nat)
    ensures DaysBeforeYear(y + 1) == DaysBeforeYear(y) + DaysBeforeMonth(y, 13)
  {
    MultiplesOf4(y);
    MultiplesOf100(y);
    MultiplesOf400(y);
    LeapRules(y);
    MonthsOfYear(y);
    var leap := if IsLeap(y) then 1 else 0;
    assert (if y % 4 == 0 then 1 else 0) - (if y % 100 == 0 then 1 else 0) + (if y % 400 == 0 then 1 else 0) == leap;
    assert y + 1 + 3 == y + 4 && y + 1 + 99 == y + 100 && y + 1 + 399 == y + 400;
  }

  function YearOf(day: nat, y: nat): (r: nat)
    requires DaysBeforeYear(y) <= day < DaysBeforeYear(10000) && y < 10000
    ensures r < 10000 && DaysBeforeYear(r) <= day < DaysBeforeYear(r + 1)
    decreases 10000 - y
  {
    if day < DaysBeforeYear(y + 1) then y else YearOf(day, y + 1)
  }

  function MonthOf(y: nat, day: nat, m: nat): (r: nat)
    requires 1 <= m <= 12 && DaysBeforeMonth(y, m) <= day < DaysBeforeMonth(y, 13)
    ensures 1 <= r <= 12 && DaysBeforeMonth(y, r) <= day < DaysBeforeMonth(y, r + 1)
    decreases 12 - m
  {
    if day < DaysBeforeMonth(y, m + 1) then m else MonthOf(y, day, m + 1)
  }

  /** The calendar time of an instant. */
  function FromNanos(t: nat): (c: Civil)
    requires t < END
    ensures Valid(c) && ToNanos(c) == t
  {
    var seconds := t / NANOS_PER_SECOND;
    var minutes := seconds / 60;
    var hours := minutes / 60;
    var days := hours / 24;
    var year := YearOf(days, 0);
    var dayOfYear := days - DaysBeforeYear(year);
    assert dayOfYear < DaysBeforeMonth(year, 13) by { YearLength(year); }
    var month := MonthOf(year, dayOfYear, 1);
    Civil(year, month, dayOfYear - DaysBeforeMonth(year, month) + 1,
          hours % 24, minutes % 60, seconds % 60, t % NANOS_PER_SECOND)
  }

  /** Field-by-field order, most significant field first. */
  ghost predicate Earlier(a: Civil, b: Civil) {
    if a.year != b.year then a.year < b.year
    else if a.month != b.month then a.month < b.month
    else if a.day != b.day then a.day < b.day
    else if a.hour != b.hour then a.hour < b.hour
    else if a.minute != b.minute then a.minute < b.minute
    else if a.second != b.second then a.second < b.second
    else a.nano < b.nano
  }

  lemma {:induction false} MonthsAddUp(y: nat, m: nat, n: nat)
    requires 1 <= m < n <= 13
    ensures DaysBeforeMonth(y, m) + DaysInMonth(y, m) <= DaysBeforeMonth(y, n)
    decreases n
  {
    if m + 1 < n {
      MonthsAddUp(y, m, n - 1);
    }
  }

  lemma {:induction false} YearsAddUp(y: nat, z: nat)
    requires y < z
    ensures DaysBeforeYear(y) + DaysBeforeMonth(y, 13) <= DaysBeforeYear(z)
    decreases z
  {
    YearLength(z - 1);
    if y + 1 < z {
      YearsAddUp(y, z - 1);
    }
  }

  lemma EarlierDay(a: Civil, b: Civil)
    requires Valid(a) && Valid(b)
    requires Earlier(a.(hour := 0, minute := 0, second := 0, nano := 0),
                     b.(hour := 0, minute := 0, second := 0, nano := 0))
    ensures DayNumber(a) < DayNumber(b)
  {
    if a.year < b.year {
      YearsAddUp(a.year, b.year);
      MonthsAddUp(a.year, a.month, 13);
    } else if a.month < b.month {
      MonthsAddUp(a.year, a.month, b.month);
    }
  }

  /** Calendar order is time order. */
  lemma EarlierIsLess(a: Civil, b: Civil)
    requires Valid(a) && Valid(b) && Earlier(a, b)
    ensures ToNanos(a) < ToNanos(b)
  {
    if (a.year, a.month, a.day) != (b.year, b.month, b.day) {
      EarlierDay(a, b);
    }
  }

  // ---------- that this is the Gregorian calendar ----------

  /** The length of each month; years divisible by 4 are leap years, but for centuries not divisible by 400. */
  lemma MonthLengths(y: nat)
    ensures var february := if y % 400 == 0 || (y % 4 == 0 && y % 100 != 0) then 29 else 28;
            seq(12, i requires 0 <= i => DaysInMonth(y, i + 1)) ==
            [31, february, 31, 30, 31, 30, 31, 31, 30, 31, 30, 31]
  {
    LeapRules(y);
  }

  /** An instant has one calendar time. */
  lemma CivilIsUnique(c: Civil, t: nat)
    requires Valid(c) && t < END && ToNanos(c) == t
    ensures FromNanos(t) == c
  {
    var d := FromNanos(t);
    if Earlier(c, d) {
      EarlierIsLess(c, d);
    } else if Earlier(d, c) {
      EarlierIsLess(d, c);
    }
  }

  lemma LeapCycle(y: nat)
    ensures IsLeap(y + 400) == IsLeap(y) && DaysBeforeYear(y + 400) == DaysBeforeYear(y) + 146_097
  {
    assert (y + 400) % 4 == y % 4 && (y + 400) % 100 == y % 100 && (y + 400) % 400 == y % 400;
    assert (y + 403) / 4 == (y + 3) / 4 + 100;
    assert (y + 499) / 100 == (y + 99) / 100 + 4;
    assert (y + 799) / 400 == (y + 399) / 400 + 1;
  }

  lemma {:induction false} MonthCycle(y: nat, m: nat)
    requires 1 <= m <= 13
    ensures DaysBeforeMonth(y + 400, m) == DaysBeforeMonth(y, m)
    decreases m
  {
    LeapCycle(y);
    if m > 1 {
      MonthCycle(y, m - 1);
    }
  }

  /** Nanoseconds in 400 years. */
  const CYCLE: nat := 146_097 * 86_400 * 1_000_000_000

  lemma LaterByCycle(c: Civil)
    requires 1 <= c.month <= 12 && c.day >= 1
    ensures ToNanos(c.(year := c.year + 400)) == ToNanos(c) + CYCLE
  {
    LeapCycle(c.year);
    MonthCycle(c.year, c.month);
    assert DayNumber(c.(year := c.year + 400)) == DayNumber(c) + 146_097;
  }

  lemma YearBelowEnd(c: Civil)
    requires 1 <= c.month <= 12 && c.day >= 1 && ToNanos(c) < END
    ensures c.year < 10000
  {
    assert DaysBeforeYear(c.year) <= DayNumber(c);
    if c.year > 10000 {
      YearsAddUp(10000, c.year);
    }
  }

  lemma LaterIsValid(c: Civil)
    requires Valid(c) && ToNanos(c.(year := c.year + 400)) < END
    ensures Valid(c.(year := c.year + 400))
  {
    var later := c.(year := c.year + 400);
    YearBelowEnd(later);
    LeapCycle(c.year);
    assert DaysInMonth(later.year, later.month) == DaysInMonth(c.year, c.month);
  }

  lemma CycleOf(c: Civil, later: Civil, t: nat, u: nat)
    requires Valid(c) && ToNanos(c) == t && u == t + CYCLE < END && later == c.(year := c.year + 400)
    ensures FromNanos(u) == later
  {
    LaterByCycle(c);
    LaterIsValid(c);
    CivilIsUnique(later, u);
  }

  /** The calendar repeats: 146097 days later it is the same month, day and time 400 years on. */
  lemma FourHundredYears(t: nat, u: nat)
    requires u == t + 146_097 * 86_400 * 1_000_000_000 < END
    ensures FromNanos(u) == FromNanos(t).(year := FromNanos(t).year + 400)
  {
    var c := FromNanos(t);
    CycleOf(c, c.(year := c.year + 400), t, u);
  }

  // ---------- the text of an instant ----------

  /** The fraction: nothing, or a point and 3, 6 or 9 digits, whichever is exact. */
  function Fraction(nano: nat): string
    requires nano < NANOS_PER_SECOND
  {
    assert Pow10(3) == 1000;
    assert Pow10(6) == 1000 * Pow10(3);
    assert Pow10(9) == 1000 * Pow10(6);
    if nano == 0 then ""
    else if nano % 1_000_000 == 0 then "." + Padded(3, nano / 1_000_000)
    else if nano % 1_000 == 0 then "." + Padded(6, nano / 1_000)
    else "." + Padded(9, nano)
  }

  function Clock(c: Civil): string
    requires c.hour < 24 && c.minute < 60 && c.second < 60 && c.nano < NANOS_PER_SECOND
  {
    assert Pow10(2) == 100;
    Padded(2, c.hour) + (":" + (Padded(2, c.minute) + (":" + (Padded(2, c.second) + (Fraction(c.nano) + " UTC")))))
  }

  function Display(c: Civil): string
    requires Valid(c)
  {
    assert Pow10(2) == 100;
    assert Pow10(4) == 100 * Pow10(2);
    Padded(4, c.year) + ("-" + (Padded(2, c.month) + ("-" + (Padded(2, c.day) + (" " + Clock(c))))))
  }

  /** `DateTime<Utc>::to_string` for an instant. */
  function ToText(t: nat): string
    requires t < END
  {
    Display(FromNanos(t))
  }

  /** How many digits of the nine the fraction shows. */
  function Shown(nano: nat): (l: nat)
  {
    if nano == 0 then 0 else if nano % 1_000_000 == 0 then 3 else if nano % 1_000 == 0 then 6 else 9
  }

  /** Nine digits end in a group of three zeros for every factor of a thousand. */
  lemma ZeroGroups(nano: nat)
    requires nano < Pow10(9)
    ensures nano / 1_000 < Pow10(6) && nano / 1_000_000 < Pow10(3)
    ensures Padded(9, nano)[..6] == Padded(6, nano / 1_000)
    ensures Padded(9, nano)[..3] == Padded(3, nano / 1_000_000)
    ensures nano % 1_000 == 0 ==> forall i :: 6 <= i < 9 ==> Padded(9, nano)[i] == '0'
    ensures nano % 1_000_000 == 0 ==> forall i :: 3 <= i < 9 ==> Padded(9, nano)[i] == '0'
  {
    PaddedThousands(9, nano);
    PaddedThousands(6, nano / 1_000);
    var g, h := Padded(9, nano), Padded(6, nano / 1_000);
    assert nano / 1_000 / 1_000 == nano / 1_000_000;
    assert g[..6][..3] == g[..3];
    assert forall i :: 0 <= i < 6 ==> g[i] == g[..6][i] == h[i];
  }

  /** The fraction is the nine-digit text without the zero groups at its end. */
  lemma FractionIsPrefix(nano: nat)
    requires nano < NANOS_PER_SECOND
    ensures nano < Pow10(9)
    ensures nano != 0 ==> Fraction(nano) == "." + Padded(9, nano)[..Shown(nano)]
    ensures forall i :: Shown(nano) <= i < 9 ==> Padded(9, nano)[i] == '0'
  {
    assert Pow10(3) == 1000;
    assert Pow10(6) == 1000 * Pow10(3);
    assert Pow10(9) == 1000 * Pow10(6);
    ZeroGroups(nano);
    assert Padded(9, nano)[..9] == Padded(9, nano);
    if nano == 0 {
      AllZeros(9);
    }
  }

  lemma {:induction false} AllZeros(w: nat)
    ensures 0 < Pow10(w) && forall i :: 0 <= i < w ==> Padded(w, 0)[i] == '0'
  {
    if w > 0 {
      AllZeros(w - 1);
    }
  }

  /** A fraction that ends where a longer one goes on is below it, because a space is below a digit. */
  lemma ShorterFraction(h: string, l: nat, m: nat)
    requires l < m <= |h| && IsDigit(h[l])
    ensures TextLess("." + h[..l] + " UTC", "." + h[..m] + " UTC")
  {
    var x, y := "." + h[..l] + " UTC", "." + h[..m] + " UTC";
    assert x[..l + 1] == "." + h[..l] && y[..l + 1] == "." + h[..l];
    TextLessAt(x, y, l + 1);
  }

  /** Fractions of different lengths still compare as the numbers they stand for. */
  lemma FractionOrder(a: nat, b: nat)
    requires a < b < NANOS_PER_SECOND
    ensures TextLess(Fraction(a) + " UTC", Fraction(b) + " UTC")
  {
    FractionIsPrefix(a);
    FractionIsPrefix(b);
    var x, y := Fraction(a) + " UTC", Fraction(b) + " UTC";
    if a == 0 {
      TextLessAt(x, y, 0);
    } else {
      var i := PaddedDiffer(9, a, b);
      var g, h := Padded(9, a), Padded(9, b);
      assert i < Shown(b);
      if i < Shown(a) {
        PointThenDigits(g, h, Shown(a), Shown(b), i);
      } else {
        assert g[..Shown(a)] == g[..i][..Shown(a)] == h[..i][..Shown(a)] == h[..Shown(a)];
        ShorterFraction(h, Shown(a), Shown(b));
      }
    }
  }

  lemma PointThenDigits(g: string, h: string, l: nat, m: nat, i: nat)
    requires i < l <= |g| && i < m <= |h|
    requires g[..i] == h[..i] && g[i] < h[i]
    ensures TextLess("." + g[..l] + " UTC", "." + h[..m] + " UTC")
  {
    var x, y := "." + g[..l] + " UTC", "." + h[..m] + " UTC";
    assert x[..i + 1] == "." + g[..i] && y[..i + 1] == "." + h[..i];
    TextLessAt(x, y, i + 1);
  }

  /** A smaller fixed-width number at the front makes the whole text smaller. */
  lemma FieldOrder(w: nat, a: nat, b: nat, x: string, y: string)
    requires a < b < Pow10(w)
    ensures TextLess(Padded(w, a) + x, Padded(w, b) + y)
  {
    var i := PaddedDiffer(w, a, b);
    assert (Padded(w, a) + x)[..i] == Padded(w, a)[..i];
    assert (Padded(w, b) + y)[..i] == Padded(w, b)[..i];
    TextLessAt(Padded(w, a) + x, Padded(w, b) + y, i);
  }

  /** An equal fixed-width number at the front does not matter. */
  lemma SameField(w: nat, a: nat, sep: string, x: string, y: string)
    requires a < Pow10(w) && TextLess(x, y)
    ensures TextLess(Padded(w, a) + (sep + x), Padded(w, a) + (sep + y))
  {
    TextLessAfterPrefix(Padded(w, a), sep + x, sep + y);
    TextLessAfterPrefix(sep, x, y);
  }

  lemma ClockOrder(a: Civil, b: Civil)
    requires Valid(a) && Valid(b) && Earlier(a, b)
    requires a.year == b.year && a.month == b.month && a.day == b.day
    ensures TextLess(Clock(a), Clock(b))
  {
    assert Pow10(2) == 100;
    var fa, fb := Fraction(a.nano) + " UTC", Fraction(b.nano) + " UTC";
    var sa, sb := Padded(2, a.second) + fa, Padded(2, b.second) + fb;
    var ma, mb := Padded(2, a.minute) + (":" + sa), Padded(2, b.minute) + (":" + sb);
    if a.hour != b.hour {
      FieldOrder(2, a.hour, b.hour, ":" + ma, ":" + mb);
    } else {
      if a.minute != b.minute {
        FieldOrder(2, a.minute, b.minute, ":" + sa, ":" + sb);
      } else {
        if a.second != b.second {
          FieldOrder(2, a.second, b.second, fa, fb);
        } else {
          FractionOrder(a.nano, b.nano);
          TextLessAfterPrefix(Padded(2, a.second), fa, fb);
        }
        SameField(2, a.minute, ":", sa, sb);
      }
      SameField(2, a.hour, ":", ma, mb);
    }
  }

  lemma DisplayOrder(a: Civil, b: Civil)
    requires Valid(a) && Valid(b) && Earlier(a, b)
    ensures TextLess(Display(a), Display(b))
  {
    assert Pow10(2) == 100;
    assert Pow10(4) == 100 * Pow10(2);
    var da, db := Padded(2, a.day) + (" " + Clock(a)), Padded(2, b.day) + (" " + Clock(b));
    var ma, mb := Padded(2, a.month) + ("-" + da), Padded(2, b.month) + ("-" + db);
    if a.year != b.year {
      FieldOrder(4, a.year, b.year, "-" + ma, "-" + mb);
    } else {
      if a.month != b.month {
        FieldOrder(2, a.month, b.month, "-" + da, "-" + db);
      } else {
        if a.day != b.day {
          FieldOrder(2, a.day, b.day, " " + Clock(a), " " + Clock(b));
        } else {
          ClockOrder(a, b);
          SameField(2, a.day, " ", Clock(a), Clock(b));
        }
        SameField(2, a.month, "-", da, db);
      }
      SameField(4, a.year, "-", ma, mb);
    }
  }

  lemma DisplayCompares(a: Civil, b: Civil)
    requires Valid(a) && Valid(b)
    ensures TextLess(Display(a), Display(b)) <==> Earlier(a, b)
  {
    TextLessAsymmetric(Display(a), Display(b));
    if Earlier(a, b) {
      DisplayOrder(a, b);
    } else if a != b {
      DisplayOrder(b, a);
    }
  }

  /** An instant is before another exactly when its calendar time is. */
  lemma LessIsEarlier(a: Civil, b: Civil)
    requires Valid(a) && Valid(b)
    ensures Earlier(a, b) <==> ToNanos(a) < ToNanos(b)
  {
    if Earlier(a, b) {
      EarlierIsLess(a, b);
    } else if a != b {
      EarlierIsLess(b, a);
    }
  }

  /** Comparing two stored timestamps as text is comparing the instants. */
  lemma TextOrderIsTimeOrder(s: nat, t: nat)
    requires s < END && t < END
    ensures TextLess(ToText(s), ToText(t)) <==> s < t
  {
    var a, b := FromNanos(s), FromNanos(t);
    DisplayCompares(a, b);
    LessIsEarlier(a, b);
  }

  // ---------- some texts ----------

  /** A calendar time without a fraction, digit by digit. */
  ghost function Digits(c: Civil): string
    requires Valid(c)
  {
    [Digit(c.year / 1000), Digit(c.year / 100 % 10), Digit(c.year / 10 % 10), Digit(c.year % 10), '-',
     Digit(c.month / 10), Digit(c.month % 10), '-', Digit(c.day / 10), Digit(c.day % 10), ' ',
     Digit(c.hour / 10), Digit(c.hour % 10), ':', Digit(c.minute / 10), Digit(c.minute % 10), ':',
     Digit(c.second / 10), Digit(c.second % 10), ' ', 'U', 'T', 'C']
  }

  lemma DisplayDigits(c: Civil)
    requires Valid(c) && c.nano == 0
    ensures Display(c) == Digits(c)
  {
    FourDigits(c.year);
    TwoDigits(c.month);
    TwoDigits(c.day);
    TwoDigits(c.hour);
    TwoDigits(c.minute);
    TwoDigits(c.second);
  }

  /** An instant on a full second is shown as the digits of its calendar time. */
  lemma TextDigits(c: Civil, t: nat)
    requires Valid(c) && c.nano == 0 && t < END && ToNanos(c) == t
    ensures ToText(t) == Digits(c)
  {
    CivilIsUnique(c, t);
    DisplayDigits(c);
  }

  lemma EpochDay(c: Civil)
    requires c == Civil(1970, 1, 1, 0, 0, 0, 0)
    ensures Valid(c) && ToNanos(c) == 719_528 * 86_400 * 1_000_000_000
    ensures Digits(c) == "1970-01-01 00:00:00 UTC"
  {
    assert DaysBeforeYear(c.year) == 719_528;
    assert DaysBeforeMonth(c.year, 1) == 0;
  }

  lemma LeapDay(c: Civil)
    requires c == Civil(2000, 2, 29, 12, 34, 56, 0)
    ensures Valid(c) && Digits(c) == "2000-02-29 12:34:56 UTC"
  {
  }

  lemma LeapDayTime(c: Civil)
    requires c == Civil(2000, 2, 29, 12, 34, 56, 0)
    ensures ToNanos(c) == (730_544 * 86_400 + 45_296) * 1_000_000_000
  {
    assert DaysBeforeYear(c.year) == 730_485;
    assert DaysBeforeMonth(c.year, 2) == DaysBeforeMonth(c.year, 1) + 31;
  }

  /** The Unix epoch and a leap day, 719528 and 730544 days after the origin. */
  lemma DatedTexts(t: nat)
    ensures t == 719_528 * 86_400 * 1_000_000_000 ==> ToText(t) == "1970-01-01 00:00:00 UTC"
    ensures t == (730_544 * 86_400 + 45_296) * 1_000_000_000 ==> ToText(t) == "2000-02-29 12:34:56 UTC"
  {
    var epoch, leapDay := Civil(1970, 1, 1, 0, 0, 0, 0), Civil(2000, 2, 29, 12, 34, 56, 0);
    if t == 719_528 * 86_400 * 1_000_000_000 {
      EpochDay(epoch);
      TextDigits(epoch, t);
    } else if t == (730_544 * 86_400 + 45_296) * 1_000_000_000 {
      LeapDay(leapDay);
      LeapDayTime(leapDay);
      TextDigits(leapDay, t);
    }
  }

  /** A fraction is shown in as few groups of three digits as are exact, and what is shown is its number. */
  lemma FractionExactly(nano: nat)
    requires nano < NANOS_PER_SECOND
    ensures nano < Pow10(9)
    ensures nano == 0 ==> Fraction(nano) == ""
    ensures nano > 0 && nano % 1_000_000 == 0 ==> Fraction(nano) == "." + Padded(9, nano)[..3]
    ensures nano % 1_000_000 > 0 && nano % 1_000 == 0 ==> Fraction(nano) == "." + Padded(9, nano)[..6]
    ensures nano % 1_000 > 0 ==> Fraction(nano) == "." + Padded(9, nano)
  {
    FractionIsPrefix(nano);
    var digits := Padded(9, nano);
    assert digits[..9] == digits;
    assert nano % 1_000_000 == 0 ==> nano % 1_000 == 0;
  }
}
