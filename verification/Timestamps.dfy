/**
 Event timestamps: the Go service renders RFC3339Nano (trailing zeros of the
 fraction trimmed), the Node service renders ISO 8601 with three fixed digits,
 and the event store sorts by the rendered text. This module relates the order
 of the texts to the order of the instants.
 */
module Timestamps {
  import opened Text

  // ---------- Instants ----------

  /** A UTC instant in calendar fields, as a Go `time.Time` in UTC is printed. */
  datatype UtcTime = UtcTime(year: nat, month: nat, day: nat,
                             hour: nat, minute: nat, second: nat, nano: nat)

  predicate Leap(year: nat) {
    year % 4 == 0 && (year % 100 != 0 || year % 400 == 0)
  }

  function DaysInMonth(year: nat, month: nat): nat {
    if month == 2 then (if Leap(year) then 29 else 28)
    else if month in {4, 6, 9, 11} then 30
    else 31
  }

  predicate InCalendar(t: UtcTime) {
    && 1 <= t.month <= 12 && 1 <= t.day <= DaysInMonth(t.year, t.month)
    && t.hour < 24 && t.minute < 60 && t.second < 60 && t.nano < 1_000_000_000
  }

  /** The times that print with a four-digit year (RFC 3339, section 5.6). */
  predicate ValidTime(t: UtcTime) {
    t.year <= 9999 && InCalendar(t)
  }

  function DaysBeforeYear(year: nat): nat {
    if year == 0 then 0
    else DaysBeforeYear(year - 1) + (if Leap(year - 1) then 366 else 365)
  }

  function DaysBeforeMonth(year: nat, month: nat): nat {
    if month <= 1 then 0
    else DaysBeforeMonth(year, month - 1) + DaysInMonth(year, month - 1)
  }

  /** Whole days since 0000-01-01. */
  function DayNumber(t: UtcTime): int {
    DaysBeforeYear(t.year) + DaysBeforeMonth(t.year, t.month) + t.day - 1
  }

  /** Whole seconds on a continuous scale: the chronological reference, independent of any text. */
  function Seconds(t: UtcTime): int {
    ((DayNumber(t) * 24 + t.hour) * 60 + t.minute) * 60 + t.second
  }

  function Nanos(t: UtcTime): int {
    Seconds(t) * 1_000_000_000 + t.nano
  }

  lemma {:induction false} YearStartsOrdered(y: nat, z: nat)
    requires y < z
    ensures DaysBeforeYear(y) + (if Leap(y) then 366 else 365) <= DaysBeforeYear(z)
    decreases z
  {
    if z == y + 1 {
    } else {
      YearStartsOrdered(y, z - 1);
    }
  }

  lemma {:induction false} MonthStartsOrdered(year: nat, m: nat, n: nat)
    requires 1 <= m < n
    ensures DaysBeforeMonth(year, m) + DaysInMonth(year, m) <= DaysBeforeMonth(year, n)
    decreases n
  {
    if n == m + 1 {
    } else {
      MonthStartsOrdered(year, m, n - 1);
    }
  }

  lemma FullYear(year: nat)
    ensures DaysBeforeMonth(year, 12) + 31 == (if Leap(year) then 366 else 365)
  {
    assert DaysBeforeMonth(year, 2) == 31;
    assert DaysBeforeMonth(year, 3) == (if Leap(year) then 60 else 59);
    assert DaysBeforeMonth(year, 5) == DaysBeforeMonth(year, 3) + 61;
    assert DaysBeforeMonth(year, 7) == DaysBeforeMonth(year, 5) + 61;
    assert DaysBeforeMonth(year, 9) == DaysBeforeMonth(year, 7) + 62;
    assert DaysBeforeMonth(year, 11) == DaysBeforeMonth(year, 9) + 61;
  }

  lemma MonthEndsWithinYear(year: nat, month: nat)
    requires 1 <= month <= 12
    ensures DaysBeforeMonth(year, month) + DaysInMonth(year, month) <= (if Leap(year) then 366 else 365)
  {
    FullYear(year);
    if month < 12 {
      MonthStartsOrdered(year, month, 12);
    }
  }

  /** Calendar fields compared from the year down to the second. */
  predicate FieldsBefore(a: UtcTime, b: UtcTime) {
    || a.year < b.year
    || (a.year == b.year && (
          || a.month < b.month
          || (a.month == b.month && (
                || a.day < b.day
                || (a.day == b.day && (
                      || a.hour < b.hour
                      || (a.hour == b.hour && (
                            || a.minute < b.minute
                            || (a.minute == b.minute && a.second < b.second)))))))))
  }

  lemma FieldsBeforeIsEarlier(a: UtcTime, b: UtcTime)
    requires InCalendar(a) && InCalendar(b) && FieldsBefore(a, b)
    ensures Seconds(a) < Seconds(b)
  {
    if (a.year, a.month, a.day) != (b.year, b.month, b.day) {
      assert DayNumber(a) < DayNumber(b) by {
        if a.year < b.year {
          YearStartsOrdered(a.year, b.year);
          MonthEndsWithinYear(a.year, a.month);
        } else if a.month < b.month {
          MonthStartsOrdered(a.year, a.month, b.month);
        }
      }
    }
  }

  /** Field order and chronological order coincide; equal seconds mean equal fields. */
  lemma FieldOrderIsChronological(a: UtcTime, b: UtcTime)
    requires InCalendar(a) && InCalendar(b)
    ensures FieldsBefore(a, b) <==> Seconds(a) < Seconds(b)
    ensures Seconds(a) == Seconds(b) <==> a.(nano := 0) == b.(nano := 0)
  {
    if FieldsBefore(a, b) {
      FieldsBeforeIsEarlier(a, b);
    } else if FieldsBefore(b, a) {
      FieldsBeforeIsEarlier(b, a);
    } else {
      assert a.(nano := 0) == b.(nano := 0);
    }
  }

  /** How many of the numbers below `n` are multiples of `d`. */
  function Multiples(n: nat, d: nat): nat
    requires d > 0
  {
    (n + d - 1) / d
  }

  lemma MultiplesStep(n: nat, d: nat)
    requires d in {4, 100, 400}
    ensures Multiples(n + 1, d) == Multiples(n, d) + (if n % d == 0 then 1 else 0)
  {
  }

  lemma FactorDivides(n: nat, d: nat, m: nat)
    requires d in {4, 100} && n == d * m
    ensures n % d == 0
  {
    if d == 4 {
      assert n == 4 * m;
    } else {
      assert n == 100 * m;
    }
  }

  lemma CenturiesAreFourth(n: nat)
    ensures n % 400 == 0 ==> n % 100 == 0
    ensures n % 100 == 0 ==> n % 4 == 0
  {
    if n % 400 == 0 {
      FactorDivides(n, 100, 4 * (n / 400));
    }
    if n % 100 == 0 {
      FactorDivides(n, 4, 25 * (n / 100));
    }
  }

  /** The Gregorian calendar in closed form: every fourth year is a leap year, but of the centuries only every fourth. */
  lemma {:induction false} GregorianYears(year: nat)
    ensures DaysBeforeYear(year) == 365 * year + Multiples(year, 4) - Multiples(year, 100) + Multiples(year, 400)
  {
    if year == 0 {
    } else {
      hide Multiples;
      GregorianYears(year - 1);
      MultiplesStep(year - 1, 4);
      MultiplesStep(year - 1, 100);
      MultiplesStep(year - 1, 400);
      CenturiesAreFourth(year - 1);
    }
  }

  /** The first days of the twelve months. */
  lemma GregorianMonths(year: nat, month: nat)
    requires 1 <= month <= 12
    ensures DaysBeforeMonth(year, month)
         == [0, 31, 59, 90, 120, 151, 181, 212, 243, 273, 304, 334][month - 1]
            + (if month > 2 && year % 4 == 0 && (year % 100 != 0 || year % 400 == 0) then 1 else 0)
  {
    assert DaysBeforeMonth(year, 2) == 31;
    assert DaysBeforeMonth(year, 3) == 59 + (if Leap(year) then 1 else 0);
    assert DaysBeforeMonth(year, 5) == DaysBeforeMonth(year, 3) + 61;
    assert DaysBeforeMonth(year, 7) == DaysBeforeMonth(year, 5) + 61;
    assert DaysBeforeMonth(year, 9) == DaysBeforeMonth(year, 7) + 62;
    assert DaysBeforeMonth(year, 11) == DaysBeforeMonth(year, 9) + 61;
  }

  /** The calendar day after `t`, at midnight. */
  function NextDay(t: UtcTime): UtcTime {
    if t.day < DaysInMonth(t.year, t.month) then UtcTime(t.year, t.month, t.day + 1, 0, 0, 0, 0)
    else if t.month < 12 then UtcTime(t.year, t.month + 1, 1, 0, 0, 0, 0)
    else UtcTime(t.year + 1, 1, 1, 0, 0, 0, 0)
  }

  function DateOf(day: nat): UtcTime {
    if day == 0 then UtcTime(0, 1, 1, 0, 0, 0, 0) else NextDay(DateOf(day - 1))
  }

  /** The calendar reading of an instant given in nanoseconds, the inverse of `Nanos`. */
  function UtcOf(n: nat): UtcTime {
    var s := n / 1_000_000_000;
    AtTime(DateOf(s / 86_400), s, n % 1_000_000_000)
  }

  function AtTime(date: UtcTime, s: nat, nano: nat): UtcTime {
    date.(hour := s / 3600 % 24, minute := s / 60 % 60, second := s % 60, nano := nano)
  }

  lemma NextDayCounts(t: UtcTime)
    requires InCalendar(t)
    ensures InCalendar(NextDay(t)) && DayNumber(NextDay(t)) == DayNumber(t) + 1
  {
    if t.day == DaysInMonth(t.year, t.month) && t.month == 12 {
      FullYear(t.year);
    }
  }

  lemma DayZero()
    ensures InCalendar(UtcTime(0, 1, 1, 0, 0, 0, 0)) && DayNumber(UtcTime(0, 1, 1, 0, 0, 0, 0)) == 0
  {
  }

  lemma {:induction false} DateOfCounts(day: nat)
    ensures InCalendar(DateOf(day)) && DayNumber(DateOf(day)) == day
  {
    hide NextDay, InCalendar, DayNumber;
    if day == 0 {
      DayZero();
    } else {
      DateOfCounts(day - 1);
      NextDayCounts(DateOf(day - 1));
    }
  }

  /** Every instant has a calendar reading, and reading it back gives the instant. */
  lemma UtcOfInverse(n: nat)
    ensures InCalendar(UtcOf(n)) && Nanos(UtcOf(n)) == n
  {
    hide InCalendar, DayNumber, DateOf;
    var s := n / 1_000_000_000;
    DateOfCounts(s / 86_400);
    AtTimeCounts(DateOf(s / 86_400), s, n % 1_000_000_000);
  }

  lemma AtTimeCounts(date: UtcTime, s: nat, nano: nat)
    requires InCalendar(date) && DayNumber(date) == s / 86_400 && nano < 1_000_000_000
    ensures InCalendar(AtTime(date, s, nano)) && Nanos(AtTime(date, s, nano)) == s * 1_000_000_000 + nano
  {
    SplitSeconds(s);
    assert DayNumber(AtTime(date, s, nano)) == DayNumber(date);
  }

  lemma SplitSeconds(s: nat)
    ensures ((s / 86_400 * 24 + s / 3600 % 24) * 60 + s / 60 % 60) * 60 + s % 60 == s
  {
    assert s / 60 / 60 == s / 3600 && s / 3600 / 24 == s / 86_400;
  }

  // ---------- Digit strings ----------

  function Digit(d: nat): char
    requires d < 10
  {
    '0' + d as char
  }

  predicate Digits(s: string) {
    forall i :: 0 <= i < |s| ==> '0' <= s[i] <= '9'
  }

  function DigitValue(c: char): nat
    requires '0' <= c <= '9'
  {
    (c - '0') as nat
  }

  /** The last `w` decimal digits of `n`, most significant first. */
  function Pad(n: nat, w: nat): (s: string)
    ensures |s| == w && Digits(s)
  {
    if w == 0 then "" else Pad(n / 10, w - 1) + [Digit(n % 10)]
  }

  function Pow10(w: nat): nat {
    if w == 0 then 1 else 10 * Pow10(w - 1)
  }

  /** The value of a digit string read as the leading digits of a `w`-digit number. */
  function Scaled(s: string, w: nat): nat
    requires Digits(s) && |s| <= w
  {
    if |s| < w then 10 * Scaled(s, w - 1)
    else if w == 0 then 0
    else 10 * Scaled(s[..w - 1], w - 1) + DigitValue(s[w - 1])
  }

  lemma {:induction false} PadValue(n: nat, w: nat)
    requires n < Pow10(w)
    ensures Scaled(Pad(n, w), w) == n
  {
    if w == 0 {
    } else {
      PadValue(n / 10, w - 1);
      assert Pad(n, w)[..w - 1] == Pad(n / 10, w - 1);
    }
  }

  lemma {:induction false} ScaledBound(s: string, w: nat)
    requires Digits(s) && |s| <= w
    ensures Scaled(s, w) < Pow10(w)
  {
    if |s| < w {
      ScaledBound(s, w - 1);
    } else if w > 0 {
      ScaledBound(s[..w - 1], w - 1);
    }
  }

  /** The last character matters only when everything before it is equal. */
  lemma {:induction false} LexLast(f: string, g: string)
    requires |f| == |g| > 0
    ensures var n := |f| - 1;
            LexLess(f, g) <==> LexLess(f[..n], g[..n]) || (f[..n] == g[..n] && f[n] < g[n])
  {
    var n := |f| - 1;
    assert f == f[..n] + [f[n]] && g == g[..n] + [g[n]];
    if f[..n] == g[..n] {
      LexCommonPrefix(f[..n], [f[n]], [g[n]]);
      LexTrichotomy(f[..n], g[..n]);
    } else {
      LexDecided(f[..n], g[..n], [f[n]], [g[n]]);
    }
  }

  lemma ShorterDecided(f: string, g: string)
    requires |f| < |g| && !ProperPrefix(f, g)
    ensures var h := g[..|g| - 1];
            && f != h && !ProperPrefix(f, h) && !ProperPrefix(h, f)
            && (LexLess(f, g) <==> LexLess(f, h)) && (LexLess(g, f) <==> LexLess(h, f))
  {
    var h, last := g[..|g| - 1], g[|g| - 1..];
    assert h[..|f|] == g[..|f|] && g == h + last && f == f + "";
    LexDecided(f, h, "", last);
    LexDecided(h, f, last, "");
  }

  lemma LastDigit(f: string)
    requires Digits(f) && |f| > 0
    ensures Scaled(f, |f|) == 10 * Scaled(f[..|f| - 1], |f| - 1) + DigitValue(f[|f| - 1])
  {
  }

  /** Equal lengths, the order of everything but the last digit being known. */
  lemma LastDigitOrder(f: string, g: string, w: nat)
    requires Digits(f) && Digits(g) && |f| == |g| == w + 1
    requires LexLess(f[..w], g[..w]) <==> Scaled(f[..w], w) < Scaled(g[..w], w)
    requires f[..w] == g[..w] <==> Scaled(f[..w], w) == Scaled(g[..w], w)
    ensures LexLess(f, g) <==> Scaled(f, w + 1) < Scaled(g, w + 1)
    ensures f == g <==> Scaled(f, w + 1) == Scaled(g, w + 1)
  {
    hide LexLess, Scaled;
    LexLast(f, g);
    LastDigit(f);
    LastDigit(g);
    assert f == f[..w] + [f[w]] && g == g[..w] + [g[w]];
    assert f[w] < g[w] <==> DigitValue(f[w]) < DigitValue(g[w]);
    assert f[w] == g[w] <==> DigitValue(f[w]) == DigitValue(g[w]);
  }

  /**
   Digit strings of any lengths, neither one a proper prefix of the other:
   lexicographic order is numeric order.
   */
  lemma {:induction false} DigitOrder(f: string, g: string, w: nat)
    requires Digits(f) && Digits(g) && |f| <= w && |g| <= w
    requires !ProperPrefix(f, g) && !ProperPrefix(g, f)
    ensures LexLess(f, g) <==> Scaled(f, w) < Scaled(g, w)
    ensures f == g <==> Scaled(f, w) == Scaled(g, w)
    decreases w
  {
    if |f| < w && |g| < w {
      DigitOrder(f, g, w - 1);
    } else if |f| < w {
      ShorterDecided(f, g);
      DigitOrder(f, g[..w - 1], w - 1);
    } else if |g| < w {
      ShorterDecided(g, f);
      DigitOrder(f[..w - 1], g, w - 1);
    } else if w > 0 {
      DigitOrder(f[..w - 1], g[..w - 1], w - 1);
      LastDigitOrder(f, g, w - 1);
    }
  }

  /** A longer digit string is worth at least its prefix, and more if it does not end in zero. */
  lemma {:induction false} PrefixIsSmaller(f: string, g: string, w: nat)
    requires Digits(f) && Digits(g) && |g| <= w && ProperPrefix(f, g)
    ensures Scaled(f, w) <= Scaled(g, w)
    ensures g[|g| - 1] != '0' ==> Scaled(f, w) < Scaled(g, w)
    decreases w
  {
    if |g| < w {
      PrefixIsSmaller(f, g, w - 1);
    } else {
      var h := g[..w - 1];
      if |f| == w - 1 {
        assert f == h;
      } else {
        assert f == h[..|f|];
        PrefixIsSmaller(f, h, w - 1);
      }
    }
  }

  function TrimZeros(f: string): (r: string)
    ensures r <= f && (Digits(f) ==> Digits(r))
    ensures r != "" ==> r[|r| - 1] != '0'
  {
    if f != "" && f[|f| - 1] == '0' then TrimZeros(f[..|f| - 1]) else f
  }

  lemma {:induction false} DropFinalZero(f: string, w: nat)
    requires Digits(f) && f != "" && |f| <= w && f[|f| - 1] == '0'
    ensures Scaled(f[..|f| - 1], w) == Scaled(f, w)
  {
    if |f| == w {
    } else {
      DropFinalZero(f, w - 1);
    }
  }

  /** Trimming trailing zeros of a fraction does not change its value. */
  lemma {:induction false} TrimKeepsValue(f: string, w: nat)
    requires Digits(f) && |f| <= w
    ensures Scaled(TrimZeros(f), w) == Scaled(f, w)
  {
    if f == "" || f[|f| - 1] != '0' {
    } else {
      DropFinalZero(f, w);
      TrimKeepsValue(f[..|f| - 1], w);
    }
  }

  // ---------- Rendering ----------

  lemma PowersOfTen()
    ensures Pow10(2) == 100 && Pow10(3) == 1000 && Pow10(4) == 10_000 && Pow10(9) == 1_000_000_000
  {
    assert Pow10(5) == 100_000 && Pow10(7) == 10_000_000;
  }

  /** `15:04:05`, then `rest`. */
  function TimeText(t: UtcTime, rest: string): string
    requires ValidTime(t)
  {
    Pad(t.hour, 2) + (":" + (Pad(t.minute, 2) + (":" + (Pad(t.second, 2) + rest))))
  }

  /** `2006-01-02T15:04:05`, the part both services share, then `rest`. */
  function Clock(t: UtcTime, rest: string): string
    requires ValidTime(t)
  {
    Pad(t.year, 4) + ("-" + (Pad(t.month, 2) + ("-" + (Pad(t.day, 2) + ("T" + TimeText(t, rest))))))
  }

  /** The fraction with its point, if any, and the UTC designator. */
  function Tail(frac: string): string {
    if frac == "" then "Z" else "." + frac + "Z"
  }

  function Render(t: UtcTime, frac: string): string
    requires ValidTime(t)
  {
    Clock(t, Tail(frac))
  }

  /** The instant a rendered text denotes, in units of the `w`-th decimal of a second. */
  function Denoted(t: UtcTime, frac: string, w: nat): int
    requires Digits(frac) && |frac| <= w
  {
    Seconds(t) * Pow10(w) + Scaled(frac, w)
  }

  function GoFraction(t: UtcTime): (f: string)
    requires ValidTime(t)
    ensures Digits(f) && |f| <= 9
  {
    TrimZeros(Pad(t.nano, 9))
  }

  /** Go's `Format(time.RFC3339Nano)` of a UTC time. */
  function FormatNano(t: UtcTime): string
    requires ValidTime(t)
  {
    Render(t, GoFraction(t))
  }

  function NodeFraction(t: UtcTime): (f: string)
    requires ValidTime(t)
    ensures Digits(f) && |f| == 3
  {
    Pad(t.nano / 1_000_000, 3)
  }

  /** JavaScript's `Date.prototype.toISOString`. */
  function FormatMillis(t: UtcTime): string
    requires ValidTime(t)
  {
    Render(t, NodeFraction(t))
  }

  // ---------- Text order against time order ----------

  lemma PadOrder(x: nat, y: nat, w: nat, a: string, b: string)
    requires x < Pow10(w) && y < Pow10(w)
    ensures LexLess(Pad(x, w) + a, Pad(y, w) + b) <==> x < y || (x == y && LexLess(a, b))
  {
    var f, g := Pad(x, w), Pad(y, w);
    PadValue(x, w);
    PadValue(y, w);
    DigitOrder(f, g, w);
    if x == y {
      LexCommonPrefix(f, a, b);
    } else {
      LexDecided(f, g, a, b);
    }
  }

  lemma TimeTextOrder(a: UtcTime, b: UtcTime, x: string, y: string)
    requires ValidTime(a) && ValidTime(b)
    ensures LexLess(TimeText(a, x), TimeText(b, y)) <==>
            || a.hour < b.hour
            || (a.hour == b.hour && (
                  || a.minute < b.minute
                  || (a.minute == b.minute && (
                        || a.second < b.second
                        || (a.second == b.second && LexLess(x, y))))))
  {
    PowersOfTen();
    var a1, b1 := Pad(a.second, 2) + x, Pad(b.second, 2) + y;
    var a2, b2 := Pad(a.minute, 2) + (":" + a1), Pad(b.minute, 2) + (":" + b1);
    PadOrder(a.hour, b.hour, 2, ":" + a2, ":" + b2);
    LexCommonPrefix(":", a2, b2);
    PadOrder(a.minute, b.minute, 2, ":" + a1, ":" + b1);
    LexCommonPrefix(":", a1, b1);
    PadOrder(a.second, b.second, 2, x, y);
  }

  /** The shared parts of two timestamps, followed by anything, compare as their fields do. */
  lemma ClockOrder(a: UtcTime, b: UtcTime, x: string, y: string)
    requires ValidTime(a) && ValidTime(b)
    ensures LexLess(Clock(a, x), Clock(b, y))
       <==> FieldsBefore(a, b) || (a.(nano := 0) == b.(nano := 0) && LexLess(x, y))
  {
    PowersOfTen();
    var a1, b1 := TimeText(a, x), TimeText(b, y);
    var a2, b2 := Pad(a.day, 2) + ("T" + a1), Pad(b.day, 2) + ("T" + b1);
    var a3, b3 := Pad(a.month, 2) + ("-" + a2), Pad(b.month, 2) + ("-" + b2);
    PadOrder(a.year, b.year, 4, "-" + a3, "-" + b3);
    LexCommonPrefix("-", a3, b3);
    PadOrder(a.month, b.month, 2, "-" + a2, "-" + b2);
    LexCommonPrefix("-", a2, b2);
    PadOrder(a.day, b.day, 2, "T" + a1, "T" + b1);
    LexCommonPrefix("T", a1, b1);
    TimeTextOrder(a, b, x, y);
  }

  /** A proper prefix of a fraction sorts after it: `Z` comes after `.` and after every digit. */
  lemma TailPrefix(f: string, g: string)
    requires Digits(g) && ProperPrefix(f, g)
    ensures LexLess(Tail(g), Tail(f)) && !LexLess(Tail(f), Tail(g))
  {
    if f != "" {
      var rest := g[|f|..] + "Z";
      assert Tail(f) == ("." + f) + "Z";
      assert Tail(g) == ("." + f) + rest;
      LexCommonPrefix("." + f, "Z", rest);
      LexCommonPrefix("." + f, rest, "Z");
      assert rest[0] == g[|f|];
    }
  }

  lemma EmptyPrefix(g: string)
    requires g != ""
    ensures ProperPrefix("", g)
  {
    assert g[..0] == "";
  }

  lemma TailDecided(f: string, g: string)
    requires Digits(f) && Digits(g) && !ProperPrefix(f, g) && !ProperPrefix(g, f)
    ensures LexLess(Tail(f), Tail(g)) <==> LexLess(f, g)
  {
    if f == g {
      LexTrichotomy(f, g);
      LexTrichotomy(Tail(f), Tail(g));
    } else {
      if f == "" { EmptyPrefix(g); }
      if g == "" { EmptyPrefix(f); }
      assert Tail(f) == "." + (f + "Z") && Tail(g) == "." + (g + "Z");
      LexCommonPrefix(".", f + "Z", g + "Z");
      LexDecided(f, g, "Z", "Z");
    }
  }

  /** Whole units decide before remainders. */
  lemma UnitsFirst(a: int, b: int, unit: nat, x: nat, y: nat)
    requires x < unit && y < unit
    ensures a * unit + x < b * unit + y <==> a < b || (a == b && x < y)
  {
    if a < b {
      assert (a + 1) * unit <= b * unit;
    } else if b < a {
      assert (b + 1) * unit <= a * unit;
    }
  }

  lemma DenotedOrder(a: UtcTime, f: string, b: UtcTime, g: string, w: nat)
    requires Digits(f) && Digits(g) && |f| <= w && |g| <= w
    ensures Denoted(a, f, w) < Denoted(b, g, w)
       <==> Seconds(a) < Seconds(b) || (Seconds(a) == Seconds(b) && Scaled(f, w) < Scaled(g, w))
  {
    ScaledBound(f, w);
    ScaledBound(g, w);
    UnitsFirst(Seconds(a), Seconds(b), Pow10(w), Scaled(f, w), Scaled(g, w));
  }

  /**
   String order is time order for timestamps of different seconds, and for
   timestamps neither of whose fractions, of any length, is a proper prefix of
   the other's.
   */
  lemma StringOrderIsTimeOrder(a: UtcTime, f: string, b: UtcTime, g: string, w: nat)
    requires ValidTime(a) && ValidTime(b)
    requires Digits(f) && Digits(g) && |f| <= w && |g| <= w
    requires Seconds(a) != Seconds(b) || (!ProperPrefix(f, g) && !ProperPrefix(g, f))
    ensures LexLess(Render(a, f), Render(b, g)) <==> Denoted(a, f, w) < Denoted(b, g, w)
  {
    ClockOrder(a, b, Tail(f), Tail(g));
    FieldOrderIsChronological(a, b);
    DenotedOrder(a, f, b, g, w);
    hide Clock, Scaled;
    if Seconds(a) == Seconds(b) {
      TailDecided(f, g);
      DigitOrder(f, g, w);
    }
  }

  /**
   Within one second a fraction that is a proper prefix of another sorts
   after it although it is never later, and is earlier if the longer one is trimmed.
   */
  lemma StringOrderReversed(a: UtcTime, f: string, b: UtcTime, g: string, w: nat)
    requires ValidTime(a) && ValidTime(b) && Seconds(a) == Seconds(b)
    requires Digits(f) && Digits(g) && |g| <= w && ProperPrefix(f, g)
    ensures LexLess(Render(b, g), Render(a, f)) && !LexLess(Render(a, f), Render(b, g))
    ensures Denoted(a, f, w) <= Denoted(b, g, w)
    ensures g[|g| - 1] != '0' ==> Denoted(a, f, w) < Denoted(b, g, w)
  {
    ClockOrder(a, b, Tail(f), Tail(g));
    ClockOrder(b, a, Tail(g), Tail(f));
    FieldOrderIsChronological(a, b);
    TailPrefix(f, g);
    PrefixIsSmaller(f, g, w);
    hide Clock, Scaled;
  }

  lemma GoFractionDenotes(t: UtcTime)
    requires ValidTime(t)
    ensures Denoted(t, GoFraction(t), 9) == Nanos(t)
  {
    PowersOfTen();
    PadValue(t.nano, 9);
    TrimKeepsValue(Pad(t.nano, 9), 9);
  }

  /** Two Go timestamps in one second, one trimmed fraction properly prefixing the other. */
  predicate Clash(a: UtcTime, b: UtcTime)
    requires ValidTime(a) && ValidTime(b)
  {
    Seconds(a) == Seconds(b) && ProperPrefix(GoFraction(a), GoFraction(b))
  }

  /** For Go timestamps the string order is wrong exactly on clashing pairs. */
  lemma GoStringOrder(a: UtcTime, b: UtcTime)
    requires ValidTime(a) && ValidTime(b)
    ensures LexLess(FormatNano(a), FormatNano(b))
       <==> (Nanos(a) < Nanos(b) && !Clash(a, b)) || Clash(b, a)
    ensures Clash(a, b) ==> Nanos(a) < Nanos(b)
  {
    var f, g := GoFraction(a), GoFraction(b);
    GoFractionDenotes(a);
    GoFractionDenotes(b);
    if Clash(a, b) {
      StringOrderReversed(a, f, b, g, 9);
    } else if Clash(b, a) {
      StringOrderReversed(b, g, a, f, 9);
    } else {
      StringOrderIsTimeOrder(a, f, b, g, 9);
    }
  }

  /** A Go timestamp text determines its instant. */
  lemma FormatNanoInjective(a: UtcTime, b: UtcTime)
    requires ValidTime(a) && ValidTime(b)
    ensures FormatNano(a) == FormatNano(b) <==> a == b
    ensures Nanos(a) == Nanos(b) <==> a == b
  {
    GoStringOrder(a, b);
    GoStringOrder(b, a);
    LexTrichotomy(FormatNano(a), FormatNano(b));
    FieldOrderIsChronological(a, b);
    assert a == a.(nano := 0).(nano := a.nano) && b == b.(nano := 0).(nano := b.nano);
  }

  /** Node timestamps have equal width, so their string order is exactly millisecond order. */
  lemma NodeStringOrder(a: UtcTime, b: UtcTime)
    requires ValidTime(a) && ValidTime(b)
    ensures LexLess(FormatMillis(a), FormatMillis(b)) <==> Nanos(a) / 1_000_000 < Nanos(b) / 1_000_000
  {
    PowersOfTen();
    StringOrderIsTimeOrder(a, NodeFraction(a), b, NodeFraction(b), 9);
    MillisDenote(a);
    MillisDenote(b);
  }

  lemma MillisDenote(t: UtcTime)
    requires ValidTime(t)
    ensures Denoted(t, NodeFraction(t), 9) == (Nanos(t) / 1_000_000) * 1_000_000
  {
    PowersOfTen();
    var f, ms := NodeFraction(t), t.nano / 1_000_000;
    PadValue(ms, 3);
    assert Scaled(f, 5) == 10 * Scaled(f, 4) == 100 * Scaled(f, 3);
    assert Scaled(f, 7) == 10 * Scaled(f, 6) == 100 * Scaled(f, 5);
    assert Scaled(f, 9) == 10 * Scaled(f, 8) == 100 * Scaled(f, 7);
    assert Nanos(t) / 1_000_000 == Seconds(t) * 1000 + ms;
  }

  lemma FiveAndFiftyOne()
    ensures Scaled("5", 9) == 500_000_000 && Scaled("51", 9) == 510_000_000
  {
    assert "5"[..0] == "" && "51"[..1] == "5";
    assert Scaled("5", 1) == 5 && Scaled("51", 2) == 51;
    assert Scaled("5", 4) == 5000 && Scaled("51", 4) == 5100;
    assert Scaled("5", 7) == 5_000_000 && Scaled("51", 7) == 5_100_000;
  }

  /** `Format(time.RFC3339Nano)` of an instant; years past 9999 are outside the format. */
  function FormatInstant(n: nat): string {
    UtcOfInverse(n);
    if UtcOf(n).year <= 9999 then FormatNano(UtcOf(n)) else ""
  }

  predicate FourDigitYear(n: nat) {
    UtcOf(n).year <= 9999
  }

  lemma FourDigitYearBefore(m: nat, n: nat)
    requires m <= n && FourDigitYear(n)
    ensures FourDigitYear(m)
  {
    UtcOfInverse(m);
    UtcOfInverse(n);
    FieldOrderIsChronological(UtcOf(n), UtcOf(m));
  }

  /** Different instants have different texts. */
  lemma FormatInstantInjective(m: nat, n: nat)
    requires FourDigitYear(m) && FourDigitYear(n) && FormatInstant(m) == FormatInstant(n)
    ensures m == n
  {
    UtcOfInverse(m);
    UtcOfInverse(n);
    FormatNanoInjective(UtcOf(m), UtcOf(n));
  }

  /** In every second: of .5 and .51 the later Go timestamp sorts first. */
  lemma GoOrderCounterexample(t: UtcTime)
    requires ValidTime(t)
    ensures var a, b := t.(nano := 500_000_000), t.(nano := 510_000_000);
            ValidTime(a) && ValidTime(b) && Nanos(a) < Nanos(b) && LexLess(FormatNano(b), FormatNano(a))
  {
    hide DayNumber, Clock, Pad, Scaled;
    var a, b := t.(nano := 500_000_000), t.(nano := 510_000_000);
    FiveAndFiftyOne();
    ShowFraction(500_000_000, "5");
    ShowFraction(510_000_000, "51");
    assert DayNumber(a) == DayNumber(b) by { SameDay(a, b); }
    assert ProperPrefix("5", "51");
    assert Clash(a, b);
    GoStringOrder(b, a);
  }

  lemma SameDay(a: UtcTime, b: UtcTime)
    requires a.year == b.year && a.month == b.month && a.day == b.day
    ensures DayNumber(a) == DayNumber(b)
  {
  }

  /** A trimmed fraction is the only zero-free-ended digit string of its value. */
  lemma ShowFraction(nano: nat, f: string)
    requires nano < 1_000_000_000
    requires Digits(f) && |f| <= 9 && (f != "" ==> f[|f| - 1] != '0') && Scaled(f, 9) == nano
    ensures TrimZeros(Pad(nano, 9)) == f
  {
    PowersOfTen();
    var g := TrimZeros(Pad(nano, 9));
    PadValue(nano, 9);
    TrimKeepsValue(Pad(nano, 9), 9);
    if ProperPrefix(f, g) {
      PrefixIsSmaller(f, g, 9);
    } else if ProperPrefix(g, f) {
      PrefixIsSmaller(g, f, 9);
    } else {
      DigitOrder(f, g, 9);
    }
  }
}
