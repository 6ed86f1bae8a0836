/**
  Every expiry, lease and due column holds a UTC `datetime.isoformat()` string and
  is compared as a string.  That string drops its fraction when the microseconds
  are zero, so equal lengths cannot be taken for granted; the order is right all
  the same, because '+' sorts before '.'.
  */
module Timestamps {

  datatype Instant = Instant(year: nat, month: nat, day: nat, hour: nat, minute: nat, second: nat, micro: nat)

  /******* The calendar, as Python's datetime counts it *******/

  predicate IsLeap(y: nat) {
    y % 4 == 0 && (y % 100 != 0 || y % 400 == 0)
  }

  function YearLength(y: nat): nat {
    if IsLeap(y) then 366 else 365
  }

  function DaysInMonth(y: nat, m: nat): nat {
    if m == 2 then (if IsLeap(y) then 29 else 28)
    else if m in {4, 6, 9, 11} then 30
    else 31
  }

  /** Days before January 1st of a year. */
  function DaysBeforeYear(y: nat): int
    requires y >= 1
  {
    (y - 1) * 365 + (y - 1) / 4 - (y - 1) / 100 + (y - 1) / 400
  }

  /** Days of the year before the 1st of a month. */
  function DaysBeforeMonth(y: nat, m: nat): nat
    requires m >= 1
  {
    if m == 1 then 0 else DaysBeforeMonth(y, m - 1) + DaysInMonth(y, m - 1)
  }

  predicate IsInstant(t: Instant) {
    && 1 <= t.year <= 9999 && 1 <= t.month <= 12 && 1 <= t.day <= DaysInMonth(t.year, t.month)
    && t.hour < 24 && t.minute < 60 && t.second < 60 && t.micro < 1_000_000
  }

  function Ordinal(t: Instant): int
    requires IsInstant(t)
  {
    DaysBeforeYear(t.year) + DaysBeforeMonth(t.year, t.month) + t.day
  }

  /** Chronology: microseconds on the UTC time line. */
  function Micros(t: Instant): int
    requires IsInstant(t)
  {
    (((Ordinal(t) * 24 + t.hour) * 60 + t.minute) * 60 + t.second) * 1_000_000 + t.micro
  }

  /******* The string *******/

  function Digits(n: nat, width: nat): (s: string)
    ensures |s| == width
  {
    if width == 0 then [] else Digits(n / 10, width - 1) + ['0' + (n % 10) as char]
  }

  function Fraction(micro: nat): string {
    (if micro == 0 then [] else ['.'] + Digits(micro, 6)) + "+00:00"
  }

  /** `datetime.isoformat()` of a UTC instant. */
  function Iso(t: Instant): string {
    Digits(t.year, 4) + (['-'] + (Digits(t.month, 2) + (['-'] + (Digits(t.day, 2) + (['T'] + (Digits(t.hour, 2)
      + ([':'] + (Digits(t.minute, 2) + ([':'] + (Digits(t.second, 2) + Fraction(t.micro)))))))))))
  }

  /** String order: bytes for SQLite, code points for Python, the same for ASCII. */
  predicate Less(s: string, t: string) {
    t != [] && (s == [] || s[0] < t[0] || (s[0] == t[0] && Less(s[1..], t[1..])))
  }

  /******* Comparing piece by piece *******/

  lemma {:induction false} LessIrreflexive(s: string)
    ensures !Less(s, s)
  {
    if s != [] {
      LessIrreflexive(s[1..]);
    }
  }

  lemma {:induction false} LessByPiece(p: string, q: string, x: string, y: string)
    requires |p| == |q|
    ensures Less(p + x, q + y) <==> Less(p, q) || (p == q && Less(x, y))
  {
    if p == [] {
      assert p + x == x && q + y == y;
    } else {
      LessByPiece(p[1..], q[1..], x, y);
      assert (p + x)[1..] == p[1..] + x && (q + y)[1..] == q[1..] + y;
      assert p == [p[0]] + p[1..] && q == [q[0]] + q[1..];
    }
  }

  function Pow10(e: nat): nat {
    if e == 0 then 1 else 10 * Pow10(e - 1)
  }

  /** Zero-padded numbers of one width compare like numbers. */
  lemma {:induction false} LessDigits(m: nat, n: nat, width: nat)
    requires m < Pow10(width) && n < Pow10(width)
    ensures Less(Digits(m, width), Digits(n, width)) <==> m < n
    ensures Digits(m, width) == Digits(n, width) <==> m == n
  {
    if width > 0 {
      LessDigits(m / 10, n / 10, width - 1);
      var p, q := Digits(m / 10, width - 1), Digits(n / 10, width - 1);
      var c, d := '0' + (m % 10) as char, '0' + (n % 10) as char;
      LessByPiece(p, q, [c], [d]);
      assert Less([c], [d]) <==> c < d by {
        assert !Less([c][1..], [d][1..]);
      }
      assert p + [c] == q + [d] <==> p == q && c == d by {
        assert (p + [c])[..width - 1] == p && (q + [d])[..width - 1] == q;
        assert (p + [c])[width - 1] == c && (q + [d])[width - 1] == d;
      }
    }
  }

  /** One field and the rest. */
  lemma {:induction false} LessField(m: nat, n: nat, width: nat, x: string, y: string)
    requires m < Pow10(width) && n < Pow10(width)
    ensures Less(Digits(m, width) + x, Digits(n, width) + y) <==> m < n || (m == n && Less(x, y))
  {
    LessByPiece(Digits(m, width), Digits(n, width), x, y);
    LessDigits(m, n, width);
  }

  lemma {:induction false} LessSeparator(c: char, x: string, y: string)
    ensures Less([c] + x, [c] + y) <==> Less(x, y)
  {
    assert ([c] + x)[1..] == x && ([c] + y)[1..] == y;
  }

  lemma LessFraction(a: nat, b: nat)
    requires a < 1_000_000 && b < 1_000_000
    ensures Less(Fraction(a), Fraction(b)) <==> a < b
  {
    assert Pow10(6) == 1_000_000 by {
      assert Pow10(3) == 1000;
    }
    if a == 0 || b == 0 {
      assert (if a == 0 then [] else ['.'] + Digits(a, 6)) + "+00:00" == Fraction(a);
      assert Fraction(a)[0] == (if a == 0 then '+' else '.');
      assert Fraction(b)[0] == (if b == 0 then '+' else '.');
      if a == b {
        LessIrreflexive(Fraction(a));
      }
    } else {
      assert Fraction(a) == ['.'] + (Digits(a, 6) + "+00:00");
      assert Fraction(b) == ['.'] + (Digits(b, 6) + "+00:00");
      LessSeparator('.', Digits(a, 6) + "+00:00", Digits(b, 6) + "+00:00");
      LessField(a, b, 6, "+00:00", "+00:00");
      LessIrreflexive("+00:00");
    }
  }

  ghost predicate FieldsLess(a: Instant, b: Instant) {
    || a.year < b.year
    || (a.year == b.year && a.month < b.month)
    || (a.year == b.year && a.month == b.month && a.day < b.day)
    || (a.year == b.year && a.month == b.month && a.day == b.day && ClockLess(a, b))
  }

  ghost predicate ClockLess(a: Instant, b: Instant) {
    || a.hour < b.hour
    || (a.hour == b.hour && a.minute < b.minute)
    || (a.hour == b.hour && a.minute == b.minute && a.second < b.second)
    || (a.hour == b.hour && a.minute == b.minute && a.second == b.second && a.micro < b.micro)
  }

  function Clock(t: Instant): string {
    Digits(t.hour, 2) + ([':'] + (Digits(t.minute, 2) + ([':'] + (Digits(t.second, 2) + Fraction(t.micro)))))
  }

  lemma ClockStringOrder(a: Instant, b: Instant)
    requires IsInstant(a) && IsInstant(b)
    ensures Less(Clock(a), Clock(b)) <==> ClockLess(a, b)
  {
    assert Pow10(2) == 100;
    var sa, sb := Digits(a.second, 2) + Fraction(a.micro), Digits(b.second, 2) + Fraction(b.micro);
    var ma, mb := Digits(a.minute, 2) + ([':'] + sa), Digits(b.minute, 2) + ([':'] + sb);
    LessFraction(a.micro, b.micro);
    LessField(a.second, b.second, 2, Fraction(a.micro), Fraction(b.micro));
    LessSeparator(':', sa, sb);
    LessField(a.minute, b.minute, 2, [':'] + sa, [':'] + sb);
    LessSeparator(':', ma, mb);
    LessField(a.hour, b.hour, 2, [':'] + ma, [':'] + mb);
  }

  lemma StringOrderIsFieldOrder(a: Instant, b: Instant)
    requires IsInstant(a) && IsInstant(b)
    ensures Less(Iso(a), Iso(b)) <==> FieldsLess(a, b)
  {
    assert Pow10(2) == 100 && Pow10(4) == 10000;
    var da, db := Digits(a.day, 2) + (['T'] + Clock(a)), Digits(b.day, 2) + (['T'] + Clock(b));
    var ma, mb := Digits(a.month, 2) + (['-'] + da), Digits(b.month, 2) + (['-'] + db);
    ClockStringOrder(a, b);
    LessSeparator('T', Clock(a), Clock(b));
    LessField(a.day, b.day, 2, ['T'] + Clock(a), ['T'] + Clock(b));
    LessSeparator('-', da, db);
    LessField(a.month, b.month, 2, ['-'] + da, ['-'] + db);
    LessSeparator('-', ma, mb);
    LessField(a.year, b.year, 4, ['-'] + ma, ['-'] + mb);
  }

  /******* Fields order like time *******/

  lemma StepQuotient4(y: nat)
    requires y >= 1
    ensures y / 4 - (y - 1) / 4 == if y % 4 == 0 then 1 else 0
  {
  }

  lemma StepQuotient100(y: nat)
    requires y >= 1
    ensures y / 100 - (y - 1) / 100 == if y % 100 == 0 then 1 else 0
    ensures y % 100 == 0 ==> y % 4 == 0
  {
  }

  lemma StepQuotient400(y: nat)
    requires y >= 1
    ensures y / 400 - (y - 1) / 400 == if y % 400 == 0 then 1 else 0
    ensures y % 400 == 0 ==> y % 100 == 0
  {
  }

  lemma NextYear(y: nat)
    requires y >= 1
    ensures DaysBeforeYear(y + 1) == DaysBeforeYear(y) + YearLength(y)
  {
    var q4, q100, q400 := y / 4 - (y - 1) / 4, y / 100 - (y - 1) / 100, y / 400 - (y - 1) / 400;
    assert q4 - q100 + q400 == YearLength(y) - 365 by {
      StepQuotient4(y);
      StepQuotient100(y);
      StepQuotient400(y);
    }
  }

  lemma {:induction false} LaterYear(y: nat, y': nat)
    requires 1 <= y < y'
    ensures DaysBeforeYear(y') >= DaysBeforeYear(y) + YearLength(y)
    decreases y' - y
  {
    NextYear(y' - 1);
    if y < y' - 1 {
      LaterYear(y, y' - 1);
    }
  }

  lemma {:induction false} LaterMonth(y: nat, m: nat, m': nat)
    requires 1 <= m < m' <= 13
    ensures DaysBeforeMonth(y, m') >= DaysBeforeMonth(y, m) + DaysInMonth(y, m)
    decreases m' - m
  {
    if m < m' - 1 {
      LaterMonth(y, m, m' - 1);
    }
  }

  lemma {:induction false} MonthsFillYear(y: nat)
    ensures DaysBeforeMonth(y, 13) == YearLength(y)
  {
    var feb := DaysInMonth(y, 2);
    assert DaysBeforeMonth(y, 2) == 31;
    assert DaysBeforeMonth(y, 3) == 31 + feb;
    assert DaysBeforeMonth(y, 4) == 62 + feb;
    assert DaysBeforeMonth(y, 5) == 92 + feb;
    assert DaysBeforeMonth(y, 6) == 123 + feb;
    assert DaysBeforeMonth(y, 7) == 153 + feb;
    assert DaysBeforeMonth(y, 8) == 184 + feb;
    assert DaysBeforeMonth(y, 9) == 215 + feb;
    assert DaysBeforeMonth(y, 10) == 245 + feb;
    assert DaysBeforeMonth(y, 11) == 276 + feb;
    assert DaysBeforeMonth(y, 12) == 306 + feb;
  }

  lemma DateOrder(a: Instant, b: Instant)
    requires IsInstant(a) && IsInstant(b)
    ensures a.year < b.year ==> Ordinal(a) < Ordinal(b)
    ensures a.year == b.year && a.month < b.month ==> Ordinal(a) < Ordinal(b)
    ensures a.year == b.year && a.month == b.month ==> Ordinal(a) - Ordinal(b) == a.day - b.day
  {
    if a.year < b.year {
      LaterYear(a.year, b.year);
      MonthsFillYear(a.year);
      LaterMonth(a.year, a.month, 13);
    } else if a.year == b.year && a.month < b.month {
      LaterMonth(a.year, a.month, b.month);
    }
  }

  lemma FieldsLessMeansEarlier(a: Instant, b: Instant)
    requires IsInstant(a) && IsInstant(b) && FieldsLess(a, b)
    ensures Micros(a) < Micros(b)
  {
    DateOrder(a, b);
  }

  /** Timestamp strings order like time. */
  lemma StringOrderIsTimeOrder(a: Instant, b: Instant)
    requires IsInstant(a) && IsInstant(b)
    ensures Less(Iso(a), Iso(b)) <==> Micros(a) < Micros(b)
    ensures Iso(a) == Iso(b) <==> Micros(a) == Micros(b)
  {
    StringOrderIsFieldOrder(a, b);
    StringOrderIsFieldOrder(b, a);
    LessIrreflexive(Iso(a));
    if FieldsLess(a, b) {
      FieldsLessMeansEarlier(a, b);
    } else if FieldsLess(b, a) {
      FieldsLessMeansEarlier(b, a);
    } else {
      assert a == b;
    }
  }

  /** Time advances by the clock: an hour later, a minute later, a second later on one
      day, and by 86400 seconds from a day to the next one of its month. */
  lemma TimeAdvances(a: Instant, b: Instant)
    requires IsInstant(a) && IsInstant(b) && a.year == b.year && a.month == b.month
    ensures Micros(b) - Micros(a)
         == 86_400_000_000 * (b.day - a.day) + 3_600_000_000 * (b.hour - a.hour) + 60_000_000 * (b.minute - a.minute)
            + 1_000_000 * (b.second - a.second) + (b.micro - a.micro)
  {
    DateOrder(a, b);
  }

  /** So the stored comparison `due <= now` is the comparison of times. */
  lemma DueExactly(due: Instant, now: Instant)
    requires IsInstant(due) && IsInstant(now)
    ensures Less(Iso(due), Iso(now)) || Iso(due) == Iso(now) <==> Micros(due) <= Micros(now)
  {
    StringOrderIsTimeOrder(due, now);
  }
}
