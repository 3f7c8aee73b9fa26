/** The parts of Python's `datetime` and `str` that the ledger relies on: proleptic
    Gregorian dates and their ordinals, weekday names, naive timestamps, the ISO
    spelling of a date, string comparison, and what `strptime` accepts for the
    formats "%Y-%m-%d" and "%H:%M". */
module Calendar {
  import opened Errors
  import opened Config

  const MICROS_PER_DAY: nat := 86_400_000_000

  // ---------------------------------------------------------------- dates

  datatype Date = Date(year: int, month: int, day: int)

  predicate IsLeapYear(y: int) {
    y % 4 == 0 && (y % 100 != 0 || y % 400 == 0)
  }

  function DaysInMonth(y: int, m: int): (n: int)
    ensures 28 <= n <= 31
    ensures n == 29 <==> m == 2 && IsLeapYear(y)
  {
    if m == 2 then (if IsLeapYear(y) then 29 else 28)
    else if m == 4 || m == 6 || m == 9 || m == 11 then 30
    else 31
  }

  /** What `datetime.date(year, month, day)` accepts. */
  predicate ValidDate(d: Date) {
    1 <= d.year <= 9999 && 1 <= d.month <= 12 && 1 <= d.day <= DaysInMonth(d.year, d.month)
  }

  /** `a < b` on Python dates: (year, month, day) compared lexicographically. */
  predicate Before(a: Date, b: Date) {
    a.year < b.year || (a.year == b.year && (a.month < b.month || (a.month == b.month && a.day < b.day)))
  }

  function DaysBeforeYear(y: int): int {
    var p := y - 1;
    p * 365 + p / 4 - p / 100 + p / 400
  }

  function DaysBeforeMonth(y: int, m: int): int
    decreases m
  {
    if m <= 1 then 0 else DaysBeforeMonth(y, m - 1) + DaysInMonth(y, m - 1)
  }

  /** `date.toordinal()`: 0001-01-01 is day 1. */
  function Ordinal(d: Date): int {
    DaysBeforeYear(d.year) + DaysBeforeMonth(d.year, d.month) + d.day
  }

  /** `date.strftime("%A")[:3]`; `date.weekday()` is `(toordinal() + 6) % 7`, Monday being 0. */
  function WeekdayName(d: Date): (w: string)
    ensures w in VALID_DAYS
  {
    VALID_DAYS[(Ordinal(d) + 6) % 7]
  }

  /** The days of a whole year: 365, or 366 in a leap year. */
  lemma DaysInYear(y: int)
    ensures DaysBeforeMonth(y, 13) == if IsLeapYear(y) then 366 else 365
  {
    var feb := DaysInMonth(y, 2);
    assert DaysBeforeMonth(y, 2) == 31;
    assert DaysBeforeMonth(y, 3) == 31 + feb;
    assert DaysBeforeMonth(y, 4) == 62 + feb;
    assert DaysBeforeMonth(y, 5) == 92 + feb;
    assert DaysBeforeMonth(y, 6) == 123 + feb;
    assert DaysBeforeMonth(y, 7) == 153 + feb;
    assert DaysBeforeMonth(y, 8) == 184 + feb;
    assert DaysBeforeMonth(y, 9) == 215 + feb;
    assert DaysBeforeMonth(y, 10) == 245 + feb;
    assert DaysBeforeMonth(y, 11) == 276 + feb;
    assert DaysBeforeMonth(y, 12) == 306 + feb;
  }

  /** Day numbers of the first days of two consecutive years differ by that year's length. */
  lemma NextYear(y: int)
    ensures DaysBeforeYear(y + 1) == DaysBeforeYear(y) + if IsLeapYear(y) then 366 else 365
  {
    DivStep(y, 4);
    DivStep(y, 100);
    DivStep(y, 400);
  }

  /** The quotient by `k` moves up by one exactly at the multiples of `k`. */
  lemma DivStep(y: int, k: int)
    requires k == 4 || k == 100 || k == 400
    ensures y / k - (y - 1) / k == if y % k == 0 then 1 else 0
  {
    if k == 4 {
      assert y / 4 - (y - 1) / 4 == if y % 4 == 0 then 1 else 0;
    } else if k == 100 {
      assert y / 100 - (y - 1) / 100 == if y % 100 == 0 then 1 else 0;
    } else {
      assert y / 400 - (y - 1) / 400 == if y % 400 == 0 then 1 else 0;
    }
  }

  lemma {:induction false} MonthsAfter(y: int, m1: int, m2: int)
    requires 1 <= m1 < m2
    ensures DaysBeforeMonth(y, m2) >= DaysBeforeMonth(y, m1) + DaysInMonth(y, m1)
    decreases m2 - m1
  {
    if m2 > m1 + 1 {
      MonthsAfter(y, m1, m2 - 1);
    }
  }

  lemma {:induction false} YearsAfter(y1: int, y2: int)
    requires y1 <= y2
    ensures DaysBeforeYear(y1) <= DaysBeforeYear(y2)
    decreases y2 - y1
  {
    if y1 < y2 {
      NextYear(y1);
      YearsAfter(y1 + 1, y2);
    }
  }

  /** A valid date's day number lies after the start of its year and within it. */
  lemma OrdinalWithinYear(d: Date)
    requires ValidDate(d)
    ensures DaysBeforeYear(d.year) < Ordinal(d) <= DaysBeforeYear(d.year + 1)
  {
    if d.month > 1 {
      MonthsAfter(d.year, 1, d.month);
    }
    if d.month < 12 {
      MonthsAfter(d.year, d.month, 13);
    }
    DaysInYear(d.year);
    NextYear(d.year);
  }

  /** `toordinal` maps the valid dates onto 1 (0001-01-01) to 3652059 (9999-12-31). */
  lemma OrdinalRange(d: Date)
    requires ValidDate(d)
    ensures 1 <= Ordinal(d) <= 3652059
  {
    OrdinalWithinYear(d);
    YearsAfter(1, d.year);
    YearsAfter(d.year + 1, 10000);
  }

  /** `toordinal` follows the calendar: an earlier valid date has a smaller day number, so
      datetimes compared by `Instant` compare by date first. */
  lemma OrdinalOrder(a: Date, b: Date)
    requires ValidDate(a) && ValidDate(b) && Before(a, b)
    ensures Ordinal(a) < Ordinal(b)
  {
    if a.year < b.year {
      OrdinalLaterYear(a, b);
    } else {
      OrdinalSameYear(a, b);
    }
  }

  lemma OrdinalLaterYear(a: Date, b: Date)
    requires ValidDate(a) && ValidDate(b) && a.year < b.year
    ensures Ordinal(a) < Ordinal(b)
  {
    OrdinalWithinYear(a);
    OrdinalWithinYear(b);
    YearsAfter(a.year + 1, b.year);
  }

  lemma OrdinalSameYear(a: Date, b: Date)
    requires ValidDate(a) && ValidDate(b) && a.year == b.year
    requires a.month < b.month || (a.month == b.month && a.day < b.day)
    ensures Ordinal(a) < Ordinal(b)
  {
    if a.month < b.month {
      MonthsAfter(a.year, a.month, b.month);
    }
  }

  // ----------------------------------------------------------- timestamps

  /** A naive `datetime`: a date and the microseconds elapsed since its midnight. */
  datatype Timestamp = Timestamp(date: Date, micros: nat)

  predicate ValidTimestamp(t: Timestamp) {
    ValidDate(t.date) && t.micros < MICROS_PER_DAY
  }

  /** Microseconds since the start of the proleptic calendar; naive datetimes compare by it. */
  function Instant(t: Timestamp): int {
    Ordinal(t.date) * MICROS_PER_DAY + t.micros
  }

  /** A timestamp on an earlier day is an earlier instant, whatever the time of day. */
  lemma InstantOrder(a: Timestamp, b: Timestamp)
    requires ValidTimestamp(a) && ValidTimestamp(b) && Before(a.date, b.date)
    ensures Instant(a) < Instant(b)
  {
    OrdinalOrder(a.date, b.date);
    assert Ordinal(a.date) * MICROS_PER_DAY + MICROS_PER_DAY <= Ordinal(b.date) * MICROS_PER_DAY;
  }

  /** `t` lies no more than `n` days before `now`. */
  predicate WithinDays(t: Timestamp, now: Timestamp, n: nat) {
    Instant(t) >= Instant(now) - n * MICROS_PER_DAY
  }

  lemma {:induction false} SameDayIsWithin(t: Timestamp, now: Timestamp, n: nat)
    requires t.date == now.date && ValidTimestamp(now) && n >= 1
    ensures WithinDays(t, now, n)
  {
    assert Instant(now) < Ordinal(now.date) * MICROS_PER_DAY + MICROS_PER_DAY;
    assert n * MICROS_PER_DAY >= MICROS_PER_DAY;
  }

  // -------------------------------------------------------- decimal digits

  predicate IsDigit(c: char) { '0' <= c <= '9' }

  predicate AllDigits(s: string) { forall i :: 0 <= i < |s| ==> IsDigit(s[i]) }

  function DigitChar(k: int): (c: char)
    requires 0 <= k < 10
    ensures IsDigit(c)
  {
    (48 + k) as char
  }

  function DigitValue(c: char): int { c as int - 48 }

  function Pow10(n: nat): (p: nat)
    ensures p >= 1
  {
    if n == 0 then 1 else 10 * Pow10(n - 1)
  }

  /** `n` written in exactly `width` decimal digits, zero padded (the "%0Nd" of `isoformat`). */
  function Digits(n: nat, width: nat): (s: string)
    ensures |s| == width && AllDigits(s)
  {
    if width == 0 then "" else Digits(n / 10, width - 1) + [DigitChar(n % 10)]
  }

  /** `int(s)` for a string of ASCII digits. */
  function Value(s: string): int {
    if s == [] then 0 else 10 * Value(s[..|s| - 1]) + DigitValue(s[|s| - 1])
  }

  lemma {:induction false} ValueOfDigits(n: nat, width: nat)
    requires n < Pow10(width)
    ensures Value(Digits(n, width)) == n
  {
    if width > 0 {
      var s := Digits(n, width);
      assert s[..|s| - 1] == Digits(n / 10, width - 1);
      ValueOfDigits(n / 10, width - 1);
    }
  }

  lemma {:induction false} DigitsOfValue(s: string)
    requires AllDigits(s)
    ensures 0 <= Value(s) < Pow10(|s|) && Digits(Value(s), |s|) == s
  {
    if s != [] {
      var p := s[..|s| - 1];
      DigitsOfValue(p);
      var v := Value(s);
      assert v / 10 == Value(p) && v % 10 == DigitValue(s[|s| - 1]);
      assert s == p + [s[|s| - 1]];
    }
  }

  lemma DigitsTwo(n: nat)
    requires n < 100
    ensures Digits(n, 2) == [DigitChar(n / 10), DigitChar(n % 10)]
  {
    var q := n / 10;
    assert q < 10 && q % 10 == q && q / 10 == 0;
    assert Digits(q, 1) == Digits(0, 0) + [DigitChar(q)];
  }

  // --------------------------------------------------- string comparison

  /** Python's `a <= b` on `str`: code points compared lexicographically, a prefix first. */
  predicate StrLe(a: string, b: string) {
    a == [] || (b != [] && (a[0] < b[0] || (a[0] == b[0] && StrLe(a[1..], b[1..]))))
  }

  /** Comparing two strings that begin with blocks of equal length: the blocks decide,
      unless they are equal. */
  /** Python's string order is total and antisymmetric. */
  lemma {:induction false} StrLeTotal(a: string, b: string)
    ensures StrLe(a, b) || StrLe(b, a)
    ensures StrLe(a, b) && StrLe(b, a) ==> a == b
  {
    if a != [] && b != [] && a[0] == b[0] {
      StrLeTotal(a[1..], b[1..]);
      assert a == [a[0]] + a[1..] && b == [b[0]] + b[1..];
    }
  }

  lemma {:induction false} StrLeConcat(p: string, q: string, s: string, t: string)
    requires |p| == |q|
    ensures StrLe(p + s, q + t) <==> if p == q then StrLe(s, t) else StrLe(p, q)
  {
    if p != [] {
      assert (p + s)[0] == p[0] && (q + t)[0] == q[0];
      assert (p + s)[1..] == p[1..] + s && (q + t)[1..] == q[1..] + t;
      StrLeConcat(p[1..], q[1..], s, t);
      assert p == q <==> p[0] == q[0] && p[1..] == q[1..];
    } else {
      assert p + s == s && q + t == t;
    }
  }

  /** Zero-padded decimal strings of one width compare as the numbers they spell. */
  lemma {:induction false} DigitsOrder(x: nat, y: nat, width: nat)
    requires x < Pow10(width) && y < Pow10(width)
    ensures StrLe(Digits(x, width), Digits(y, width)) <==> x <= y
    ensures Digits(x, width) == Digits(y, width) <==> x == y
  {
    ValueOfDigits(x, width);
    ValueOfDigits(y, width);
    if width > 0 {
      var px, py := Digits(x / 10, width - 1), Digits(y / 10, width - 1);
      var cx, cy := DigitChar(x % 10), DigitChar(y % 10);
      assert x / 10 < Pow10(width - 1) && y / 10 < Pow10(width - 1);
      DigitsOrder(x / 10, y / 10, width - 1);
      StrLeConcat(px, py, [cx], [cy]);
      assert StrLe([cx], [cy]) <==> x % 10 <= y % 10;
    }
  }

  // ------------------------------------------------------------- ISO dates

  /** `date.isoformat()`: "YYYY-MM-DD", zero padded. */
  function IsoDate(d: Date): (s: string)
    requires ValidDate(d)
    ensures |s| == 10
  {
    Digits(d.year, 4) + "-" + Digits(d.month, 2) + "-" + Digits(d.day, 2)
  }

  /** The string comparison of the one-time due check agrees with the calendar exactly
      when both sides are ISO spellings of valid dates. */
  lemma IsoDateOrder(a: Date, b: Date)
    requires ValidDate(a) && ValidDate(b)
    ensures StrLe(IsoDate(a), IsoDate(b)) <==> !Before(b, a)
  {
    var ya, yb := Digits(a.year, 4), Digits(b.year, 4);
    var ma, mb := Digits(a.month, 2), Digits(b.month, 2);
    var da, db := Digits(a.day, 2), Digits(b.day, 2);
    DigitsOrder(a.year, b.year, 4);
    DigitsOrder(a.month, b.month, 2);
    DigitsOrder(a.day, b.day, 2);
    assert IsoDate(a) == ya + ("-" + ma + "-" + da);
    assert IsoDate(b) == yb + ("-" + mb + "-" + db);
    StrLeConcat(ya, yb, "-" + ma + "-" + da, "-" + mb + "-" + db);
    assert "-" + ma + "-" + da == "-" + (ma + ("-" + da));
    assert "-" + mb + "-" + db == "-" + (mb + ("-" + db));
    StrLeConcat("-", "-", ma + ("-" + da), mb + ("-" + db));
    StrLeConcat(ma, mb, "-" + da, "-" + db);
    StrLeConcat("-", "-", da, db);
  }

  // ---------------------------------------------------------- strptime

  /** The month field of `strptime`: `1[0-2]|0[1-9]|[1-9]`. */
  function MonthToken(t: string): (r: Option<int>)
    ensures r.Some? ==> 1 <= r.value <= 12
  {
    if |t| == 1 && '1' <= t[0] <= '9' then Some(DigitValue(t[0]))
    else if |t| == 2 && t[0] == '1' && '0' <= t[1] <= '2' then Some(10 + DigitValue(t[1]))
    else if |t| == 2 && t[0] == '0' && '1' <= t[1] <= '9' then Some(DigitValue(t[1]))
    else None
  }

  /** The day field of `strptime`: `3[01]|[12]\d|0[1-9]|[1-9]| [1-9]`. */
  function DayToken(t: string): (r: Option<int>)
    ensures r.Some? ==> 1 <= r.value <= 31
  {
    if |t| == 1 && '1' <= t[0] <= '9' then Some(DigitValue(t[0]))
    else if |t| == 2 && (t[0] == '0' || t[0] == ' ') && '1' <= t[1] <= '9' then Some(DigitValue(t[1]))
    else if |t| == 2 && '1' <= t[0] <= '2' && IsDigit(t[1]) then Some(10 * DigitValue(t[0]) + DigitValue(t[1]))
    else if |t| == 2 && t[0] == '3' && '0' <= t[1] <= '1' then Some(30 + DigitValue(t[1]))
    else None
  }

  /** The spellings the month, hour and minute fields accept for `n`: two digits, or
      one below ten. */
  predicate NumberSpells(t: string, n: int) {
    0 <= n < 100 && (t == Digits(n, 2) || (n < 10 && t == Digits(n, 1)))
  }

  /** The spellings the day field accepts for `d`. */
  predicate DaySpells(t: string, d: int) {
    0 <= d < 100 && (t == Digits(d, 2) || (d < 10 && (t == Digits(d, 1) || t == " " + Digits(d, 1))))
  }

  lemma MonthTokenExact(t: string, m: int)
    requires 1 <= m <= 12
    ensures MonthToken(t) == Some(m) <==> NumberSpells(t, m)
  {
    DigitsTwo(m);
    assert Digits(m, 1) == [DigitChar(m % 10)];
  }

  lemma DayTokenExact(t: string, d: int)
    requires 1 <= d <= 31
    ensures DayToken(t) == Some(d) <==> DaySpells(t, d)
  {
    DigitsTwo(d);
    assert Digits(d, 1) == [DigitChar(d % 10)];
    assert (" " + Digits(d, 1)) == [' ', DigitChar(d % 10)];
  }

  /** `datetime.strptime(s, "%Y-%m-%d").date()`, or None where it raises ValueError
      (no match, unconverted data left over, or a day the month does not have). */
  function ParseDate(s: string): (r: Option<Date>)
    ensures r.Some? ==> ValidDate(r.value)
  {
    if |s| < 7 || !AllDigits(s[..4]) || s[4] != '-' then None
    else
      var k := if s[6] == '-' then 6 else 7;
      if |s| <= k || s[k] != '-' then None
      else
        match (MonthToken(s[5..k]), DayToken(s[k + 1..]))
        case (Some(m), Some(dd)) =>
          var d := Date(Value(s[..4]), m, dd);
          if ValidDate(d) then Some(d) else None
        case _ => None
  }

  /** Every string `ParseDate` accepts is four digits of the year, a dash, a month
      spelling, a dash and a day spelling. */
  lemma ParseDateSound(s: string)
    requires ParseDate(s).Some?
    ensures var d := ParseDate(s).value;
      exists ms, ds :: NumberSpells(ms, d.month) && DaySpells(ds, d.day) &&
        s == Digits(d.year, 4) + "-" + ms + "-" + ds
  {
    var d := ParseDate(s).value;
    var k := if s[6] == '-' then 6 else 7;
    var ms, ds := s[5..k], s[k + 1..];
    DigitsOfValue(s[..4]);
    MonthTokenExact(ms, d.month);
    DayTokenExact(ds, d.day);
    assert s == s[..4] + "-" + ms + "-" + ds;
  }

  /** ... and `ParseDate` accepts every such string whose date exists. */
  lemma ParseDateComplete(d: Date, ms: string, ds: string)
    requires ValidDate(d) && NumberSpells(ms, d.month) && DaySpells(ds, d.day)
    ensures ParseDate(Digits(d.year, 4) + "-" + ms + "-" + ds) == Some(d)
  {
    var s := Digits(d.year, 4) + "-" + ms + "-" + ds;
    var k := 5 + |ms|;
    assert s[..4] == Digits(d.year, 4);
    assert s[4] == '-';
    assert s[5..k] == ms && s[k] == '-' && s[k + 1..] == ds;
    assert |ms| == 2 ==> s[6] == ms[1] && IsDigit(ms[1]);
    MonthTokenExact(ms, d.month);
    DayTokenExact(ds, d.day);
    ValueOfDigits(d.year, 4);
  }

  /** Round trip: the ISO spelling of a date parses back to that date. */
  lemma ParseIsoDate(d: Date)
    requires ValidDate(d)
    ensures ParseDate(IsoDate(d)) == Some(d)
  {
    ParseDateComplete(d, Digits(d.month, 2), Digits(d.day, 2));
  }

  /** The hour field of `strptime`: `2[0-3]|[0-1]\d|\d`. */
  function HourToken(t: string): (r: Option<int>)
    ensures r.Some? ==> 0 <= r.value < 24 && AllDigits(t)
  {
    if |t| == 1 && IsDigit(t[0]) then Some(DigitValue(t[0]))
    else if |t| == 2 && '0' <= t[0] <= '1' && IsDigit(t[1]) then Some(10 * DigitValue(t[0]) + DigitValue(t[1]))
    else if |t| == 2 && t[0] == '2' && '0' <= t[1] <= '3' then Some(20 + DigitValue(t[1]))
    else None
  }

  /** The minute field of `strptime`: `[0-5]\d|\d`. */
  function MinuteToken(t: string): (r: Option<int>)
    ensures r.Some? ==> 0 <= r.value < 60 && AllDigits(t)
  {
    if |t| == 1 && IsDigit(t[0]) then Some(DigitValue(t[0]))
    else if |t| == 2 && '0' <= t[0] <= '5' && IsDigit(t[1]) then Some(10 * DigitValue(t[0]) + DigitValue(t[1]))
    else None
  }

  lemma HourTokenExact(t: string, h: int)
    requires 0 <= h < 24
    ensures HourToken(t) == Some(h) <==> NumberSpells(t, h)
  {
    DigitsTwo(h);
    assert Digits(h, 1) == [DigitChar(h % 10)];
  }

  lemma MinuteTokenExact(t: string, m: int)
    requires 0 <= m < 60
    ensures MinuteToken(t) == Some(m) <==> NumberSpells(t, m)
  {
    DigitsTwo(m);
    assert Digits(m, 1) == [DigitChar(m % 10)];
  }

  /** `datetime.strptime(s, "%H:%M")` as (hour, minute), or None where it raises. */
  function ParseTime(s: string): (r: Option<(int, int)>)
    ensures r.Some? ==> 0 <= r.value.0 < 24 && 0 <= r.value.1 < 60
  {
    var k := if |s| >= 2 && s[1] == ':' then 1 else 2;
    if |s| <= k || s[k] != ':' then None
    else
      match (HourToken(s[..k]), MinuteToken(s[k + 1..]))
      case (Some(h), Some(m)) => Some((h, m))
      case _ => None
  }

  /** `ParseTime` accepts exactly an hour 0-23 and a minute 0-59, each in one of its
      spellings, joined by a colon. */
  lemma ParseTimeExact(hs: string, ms: string, h: int, m: int)
    requires 0 <= h < 24 && 0 <= m < 60
    ensures ParseTime(hs + ":" + ms) == Some((h, m)) <==> NumberSpells(hs, h) && NumberSpells(ms, m)
  {
    var s := hs + ":" + ms;
    HourTokenExact(hs, h);
    MinuteTokenExact(ms, m);
    if NumberSpells(hs, h) && NumberSpells(ms, m) {
      assert |hs| == 2 ==> s[1] == hs[1] && IsDigit(hs[1]);
      assert s[..|hs|] == hs && s[|hs|] == ':' && s[|hs| + 1..] == ms;
    }
    if ParseTime(s) == Some((h, m)) {
      var k := if |s| >= 2 && s[1] == ':' then 1 else 2;
      assert AllDigits(s[..k]) && AllDigits(s[k + 1..]);
      assert s[|hs|] == ':';
      assert s[..k] == hs && s[k + 1..] == ms;
    }
  }

  /** Every string `ParseTime` accepts splits into an hour spelling, a colon and a minute spelling. */
  lemma ParseTimeSound(s: string)
    requires ParseTime(s).Some?
    ensures var (h, m) := ParseTime(s).value;
      exists hs, ms :: NumberSpells(hs, h) && NumberSpells(ms, m) && s == hs + ":" + ms
  {
    var (h, m) := ParseTime(s).value;
    var k := if |s| >= 2 && s[1] == ':' then 1 else 2;
    HourTokenExact(s[..k], h);
    MinuteTokenExact(s[k + 1..], m);
    assert s == s[..k] + ":" + s[k + 1..];
  }
}
