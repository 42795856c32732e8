/**
 * Calendar dates as `TimeStampRule` reads them: `time.strptime(value, '%Y-%m-%d')`
 * followed by `time.mktime`, with the local time zone taken to be UTC.
 *
 * `strptime` matches the format through its own regular expression, in which
 * `%Y` is exactly four digits, `%m` is `1[0-2]|0[1-9]|[1-9]` and `%d` is
 * `3[01]|[12]\d|0[1-9]|[1-9]| [1-9]` (alternatives tried in that order); the
 * whole input must be consumed ("unconverted data remains" otherwise), and the
 * date must then exist (year at least 1, day within the month).
 */
module Calendar {
  import opened Results
  import opened Text

  datatype Date = Date(year: int, month: int, day: int)

  const SECONDS_PER_DAY: int := 86400

  /** `date(1970, 1, 1).toordinal()` */
  const EPOCH_ORDINAL: int := 719163

  predicate IsLeap(y: int) { y % 4 == 0 && (y % 100 != 0 || y % 400 == 0) }

  function DaysInMonth(y: int, m: int): int
    requires 1 <= m <= 12
  {
    if m == 2 then (if IsLeap(y) then 29 else 28)
    else if m == 4 || m == 6 || m == 9 || m == 11 then 30
    else 31
  }

  function DaysInYear(y: int): int { if IsLeap(y) then 366 else 365 }

  /** Days of year `y` before the first of month `m`. */
  function DaysBeforeMonth(y: int, m: int): int
    requires 1 <= m <= 13
  {
    if m == 1 then 0 else DaysBeforeMonth(y, m - 1) + DaysInMonth(y, m - 1)
  }

  /** Days before January 1 of year `y`, counted from January 1 of year 1. */
  function DaysBeforeYear(y: int): int
    requires y >= 1
  {
    var p := y - 1;
    p * 365 + p / 4 - p / 100 + p / 400
  }

  /** A date that `datetime.date` accepts. */
  predicate Valid(dt: Date)
  {
    1 <= dt.year && 1 <= dt.month <= 12 && 1 <= dt.day <= DaysInMonth(dt.year, dt.month)
  }

  /** `date.toordinal()`: January 1 of year 1 is day 1. */
  function Ordinal(dt: Date): int
    requires Valid(dt)
  {
    DaysBeforeYear(dt.year) + DaysBeforeMonth(dt.year, dt.month) + dt.day
  }

  /** `time.mktime` of the date's midnight, in UTC: seconds since the epoch. */
  function Midnight(dt: Date): (t: int)
    requires Valid(dt)
    ensures t % SECONDS_PER_DAY == 0
  {
    (Ordinal(dt) - EPOCH_ORDINAL) * SECONDS_PER_DAY
  }

  function DigitValue(c: char): int requires IsDigit(c) { c as int - '0' as int }

  /** The value of two decimal digits. */
  lemma {:induction false} DigitsValueTwo(a: char, b: char)
    requires IsDigit(a) && IsDigit(b)
    ensures DigitsValue([a, b]) == 10 * DigitValue(a) + DigitValue(b)
    ensures DigitsValue([b]) == DigitValue(b)
  {
    assert [a, b][..1] == [a];
    assert [a][..0] == [] && [b][..0] == [];
    assert DigitsValue([a]) == DigitValue(a);
  }

  /** The `%m` group at index `i` and the `-` after it: (month, digits used). */
  function MonthAt(s: string, i: nat): (r: Option<(int, nat)>)
    ensures r.Some? ==> 1 <= r.value.0 <= 12 && 1 <= r.value.1 <= 2 && i + r.value.1 < |s|
    ensures r.Some? ==> s[i + r.value.1] == '-'
    ensures r.Some? ==> (forall k | i <= k < i + r.value.1 :: IsDigit(s[k])) && r.value.0 == DigitsValue(s[i..i + r.value.1])
  {
    if i + 2 < |s| && s[i] == '1' && '0' <= s[i + 1] <= '2' && s[i + 2] == '-' then
      assert s[i..i + 2] == [s[i], s[i + 1]];
      DigitsValueTwo(s[i], s[i + 1]);
      Some((10 + DigitValue(s[i + 1]), 2))
    else if i + 2 < |s| && s[i] == '0' && '1' <= s[i + 1] <= '9' && s[i + 2] == '-' then
      assert s[i..i + 2] == [s[i], s[i + 1]];
      DigitsValueTwo(s[i], s[i + 1]);
      Some((DigitValue(s[i + 1]), 2))
    else if i + 1 < |s| && '1' <= s[i] <= '9' && s[i + 1] == '-' then
      assert s[i..i + 1] == [s[i]];
      DigitsValueTwo(s[i], s[i]);
      Some((DigitValue(s[i]), 1))
    else None
  }

  /**
   * The first alternative of the `%d` group that matches at index `i`: (day,
   * characters used). The characters are digits, except that a blank may
   * stand for a leading zero.
   */
  function DayAt(s: string, i: nat): (r: Option<(int, nat)>)
    ensures r.Some? ==> 1 <= r.value.0 <= 31 && 1 <= r.value.1 <= 2 && i + r.value.1 <= |s|
    ensures r.Some? && s[i] == ' ' ==> r.value.1 == 2 && IsDigit(s[i + 1]) && r.value.0 == DigitsValue(s[i + 1..i + 2])
    ensures r.Some? && s[i] != ' ' ==> (forall k | i <= k < i + r.value.1 :: IsDigit(s[k])) && r.value.0 == DigitsValue(s[i..i + r.value.1])
  {
    if i + 1 < |s| && s[i] == '3' && (s[i + 1] == '0' || s[i + 1] == '1') then
      assert s[i..i + 2] == [s[i], s[i + 1]];
      DigitsValueTwo(s[i], s[i + 1]);
      Some((30 + DigitValue(s[i + 1]), 2))
    else if i + 1 < |s| && (s[i] == '1' || s[i] == '2') && IsDigit(s[i + 1]) then
      assert s[i..i + 2] == [s[i], s[i + 1]];
      DigitsValueTwo(s[i], s[i + 1]);
      Some((10 * DigitValue(s[i]) + DigitValue(s[i + 1]), 2))
    else if i + 1 < |s| && s[i] == '0' && '1' <= s[i + 1] <= '9' then
      assert s[i..i + 2] == [s[i], s[i + 1]];
      DigitsValueTwo(s[i], s[i + 1]);
      Some((DigitValue(s[i + 1]), 2))
    else if i < |s| && '1' <= s[i] <= '9' then
      assert s[i..i + 1] == [s[i]];
      DigitsValueTwo(s[i], s[i]);
      Some((DigitValue(s[i]), 1))
    else if i + 1 < |s| && s[i] == ' ' && '1' <= s[i + 1] <= '9' then
      assert s[i + 1..i + 2] == [s[i + 1]];
      DigitsValueTwo(s[i + 1], s[i + 1]);
      Some((DigitValue(s[i + 1]), 2))
    else None
  }

  /** `time.strptime(s, '%Y-%m-%d')`; `None` where it raises `ValueError`. */
  function ParseDate(s: string): (r: Option<Date>)
    ensures r.Some? ==> Valid(r.value)
  {
    if |s| < 5 || !(IsDigit(s[0]) && IsDigit(s[1]) && IsDigit(s[2]) && IsDigit(s[3])) || s[4] != '-' then None
    else
      match MonthAt(s, 5)
      case None => None
      case Some((m, ml)) =>
        match DayAt(s, 6 + ml)
        case None => None
        case Some((d, dl)) =>
          var y := DigitsValue(s[..4]);
          if 6 + ml + dl != |s| || y < 1 || d > DaysInMonth(y, m) then None
          else Some(Date(y, m, d))
  }

  /** The decimal digit for `0 <= n <= 9`. */
  function DigitChar(n: int): (c: char)
    requires 0 <= n <= 9
    ensures IsDigit(c) && DigitValue(c) == n
  {
    ('0' as int + n) as char
  }

  /** The last `w` decimal digits of `n`, zero-padded: `%0wd`. */
  function PaddedDigits(n: nat, w: nat): (r: string)
    ensures |r| == w && forall k | 0 <= k < w :: IsDigit(r[k])
  {
    if w == 0 then [] else PaddedDigits(n / 10, w - 1) + [DigitChar(n % 10)]
  }

  /** The zero-padded YYYY-MM-DD text of a date. */
  function DateText(dt: Date): string
    requires 0 <= dt.year && 0 <= dt.month && 0 <= dt.day
  {
    PaddedDigits(dt.year, 4) + "-" + PaddedDigits(dt.month, 2) + "-" + PaddedDigits(dt.day, 2)
  }

  // ---------------------------------------------------------------------
  // The day of a field's instant

  /** The UTC midnight that starts the day of instant `v`. */
  function DayStart(v: int): int { v - v % SECONDS_PER_DAY }

  /** `date.toordinal()` of the UTC day that holds instant `v`. */
  function DayOrdinal(v: int): int { v / SECONDS_PER_DAY + EPOCH_ORDINAL }

  /** Days from a date of years 69 to 99 to the same date 1900 years later. */
  const DAYS_IN_1900_YEARS: int := 693960

  /** Days from a date of years 0 to 68 to the same date 2000 years later. */
  const DAYS_IN_2000_YEARS: int := 730485

  /**
   * What `TimeStampRule.__match__` makes of the field's instant `v`:
   * `time.gmtime`, then `time.strftime('%Y-%m-%d')`, then `time.strptime`
   * with the same format, then `time.mktime`, in UTC; `None` where one of
   * them raises. A day of years 1900 to 9999 comes back as its own midnight.
   * `strftime` refuses a year before 1900 unless `time.accept2dyear` moves
   * it: years 69 to 99 become 1969 to 1999, and years 0 to 68 become 2000 to
   * 2068. `strptime` reads exactly four year digits, so the text of a year
   * from 10000 on does not match the format.
   */
  function FieldMidnight(v: int): Option<int>
  {
    DayRoundTrip(v / SECONDS_PER_DAY)
  }

  /** The round trip of `FieldMidnight` for the day `d` days after 1970-01-01. */
  function DayRoundTrip(d: int): Option<int>
  {
    var o := d + EPOCH_ORDINAL;
    if o > DaysBeforeYear(10000) then None
    else if o > DaysBeforeYear(1900) then Some(d * SECONDS_PER_DAY)
    else if o > DaysBeforeYear(100) then None
    else if o > DaysBeforeYear(69) then Some((d + DAYS_IN_1900_YEARS) * SECONDS_PER_DAY)
    else if o > -366 then Some((d + DAYS_IN_2000_YEARS) * SECONDS_PER_DAY)
    else None
  }

  /** The instant falls on a day of years 1900 to 9999, which the round trip keeps. */
  predicate FourDigitYear(v: int)
  {
    DaysBeforeYear(1900) < DayOrdinal(v) <= DaysBeforeYear(10000)
  }

  // ---------------------------------------------------------------------
  // Properties

  function Pow10(w: nat): nat { if w == 0 then 1 else 10 * Pow10(w - 1) }

  /** Zero-padded digits read back as the number they were written from. */
  lemma {:induction false} PaddedDigitsValue(n: nat, w: nat)
    requires n < Pow10(w)
    ensures DigitsValue(PaddedDigits(n, w)) == n
  {
    if w > 0 {
      var r := PaddedDigits(n, w);
      assert r[..|r| - 1] == PaddedDigits(n / 10, w - 1);
      PaddedDigitsValue(n / 10, w - 1);
    }
  }

  /**
   * Round trip: the zero-padded YYYY-MM-DD text of a date of years 1
   * to 9999 is read back by `strptime` as that very date.
   */
  lemma {:induction false} ParseDateText(dt: Date)
    requires Valid(dt) && dt.year <= 9999
    ensures ParseDate(DateText(dt)) == Some(dt)
  {
    var s := DateText(dt);
    DateTextParts(dt);
    var ms, ds := PaddedDigits(dt.month, 2), PaddedDigits(dt.day, 2);
    assert Pow10(4) == 10000 && Pow10(2) == 100;
    PaddedDigitsValue(dt.year, 4);
    PaddedDigitsValue(dt.month, 2);
    PaddedDigitsValue(dt.day, 2);
    assert ms == [ms[0], ms[1]] && ds == [ds[0], ds[1]];
    DigitsValueTwo(ms[0], ms[1]);
    DigitsValueTwo(ds[0], ds[1]);
    MonthAtTwo(s, 5, dt.month);
    DayAtTwo(s, 8, dt.day);
    ParseDateOf(s, dt);
  }

  /** Where the fields sit in the text of a date. */
  lemma {:induction false} DateTextParts(dt: Date)
    requires 0 <= dt.year && 0 <= dt.month && 0 <= dt.day
    ensures var s, ms, ds := DateText(dt), PaddedDigits(dt.month, 2), PaddedDigits(dt.day, 2);
      && |s| == 10 && s[..4] == PaddedDigits(dt.year, 4) && s[4] == '-' && s[7] == '-'
      && s[5] == ms[0] && s[6] == ms[1] && s[8] == ds[0] && s[9] == ds[1]
  {
  }

  /** Ten characters: four digits of the year, `-`, a two-digit month and a two-digit day. */
  lemma {:induction false} ParseDateOf(s: string, dt: Date)
    requires Valid(dt) && |s| == 10 && s[4] == '-'
    requires (forall k | 0 <= k < 4 :: IsDigit(s[k])) && DigitsValue(s[..4]) == dt.year
    requires MonthAt(s, 5) == Some((dt.month, 2)) && DayAt(s, 8) == Some((dt.day, 2))
    ensures ParseDate(s) == Some(dt)
  {
  }

  /** A two-digit month followed by `-` reads as its value. */
  lemma {:induction false} MonthAtTwo(s: string, i: nat, m: int)
    requires i + 2 < |s| && s[i + 2] == '-' && IsDigit(s[i]) && IsDigit(s[i + 1])
    requires 10 * DigitValue(s[i]) + DigitValue(s[i + 1]) == m && 1 <= m <= 12
    ensures MonthAt(s, i) == Some((m, 2))
  {
  }

  /** Two digits spelling a day from 1 to 31 read as that day. */
  lemma {:induction false} DayAtTwo(s: string, i: nat, d: int)
    requires i + 1 < |s| && IsDigit(s[i]) && IsDigit(s[i + 1])
    requires 10 * DigitValue(s[i]) + DigitValue(s[i + 1]) == d && 1 <= d <= 31
    ensures DayAt(s, i) == Some((d, 2))
  {
  }

  /** The epoch starts at 1970-01-01. */
  lemma {:induction false} EpochIsZero()
    ensures Valid(Date(1970, 1, 1)) && Midnight(Date(1970, 1, 1)) == 0
  {
  }

  lemma {:induction false} DaysBeforeMonthGrows(y: int, a: int, b: int)
    requires 1 <= a <= b <= 13
    ensures DaysBeforeMonth(y, b) >= DaysBeforeMonth(y, a) + (if a < b then DaysInMonth(y, a) else 0)
    decreases b - a
  {
    if a < b {
      DaysBeforeMonthGrows(y, a, b - 1);
    }
  }

  lemma {:induction false} DaysBeforeMonthYear(y: int)
    ensures DaysBeforeMonth(y, 13) == DaysInYear(y)
  {
    var feb := if IsLeap(y) then 29 else 28;
    assert DaysBeforeMonth(y, 2) == 31;
    assert DaysBeforeMonth(y, 3) == 31 + feb;
    assert DaysBeforeMonth(y, 4) == 62 + feb;
    assert DaysBeforeMonth(y, 5) == 92 + feb;
    assert DaysBeforeMonth(y, 6) == 123 + feb;
    assert DaysBeforeMonth(y, 7) == 153 + feb;
    assert DaysBeforeMonth(y, 8) == 184 + feb;
    assert DaysBeforeMonth(y, 9) == 215 + feb;
    assert DaysBeforeMonth(y, 10) == 245 + feb;
    assert DaysBeforeMonth(y, 11) == 276 + feb;
    assert DaysBeforeMonth(y, 12) == 306 + feb;
  }

  lemma {:induction false} DaysBeforeNextYear(y: int)
    requires y >= 1
    ensures DaysBeforeYear(y + 1) == DaysBeforeYear(y) + DaysInYear(y)
  {
    var p := y - 1;
    assert DaysBeforeYear(y + 1) == y * 365 + y / 4 - y / 100 + y / 400;
    assert DaysBeforeYear(y) == p * 365 + p / 4 - p / 100 + p / 400;
    assert y * 365 == p * 365 + 365;
    DivPrev(y, 4);
    DivPrev(y, 100);
    DivPrev(y, 400);
    MultipleChain(y);
  }

  /** The quotient by `k` grows by one exactly at the multiples of `k`. */
  lemma {:induction false} DivPrev(y: int, k: int)
    requires k >= 1
    ensures y / k == (y - 1) / k + (if y % k == 0 then 1 else 0)
  {
    var p := y - 1;
    var q, r := p / k, p % k;
    assert p == q * k + r && 0 <= r < k;
    if r + 1 == k {
      assert y == (q + 1) * k + 0;
      DivUnique(y, k, q + 1, 0);
    } else {
      assert y == q * k + (r + 1);
      DivUnique(y, k, q, r + 1);
    }
    assert y % k == y - (y / k) * k;
  }

  lemma {:induction false} DaysBeforeYearMonotone(a: int, b: int)
    requires 1 <= a <= b
    ensures DaysBeforeYear(a) <= DaysBeforeYear(b)
  {
    if a < b {
      DaysBeforeYearGrows(a, b);
    }
  }

  /** Years of the same kind, leap or common, have the same months. */
  lemma {:induction false} DaysBeforeMonthSameLeap(a: int, b: int, m: int)
    requires IsLeap(a) == IsLeap(b) && 1 <= m <= 13
    ensures DaysBeforeMonth(a, m) == DaysBeforeMonth(b, m)
    decreases m
  {
    if m > 1 {
      DaysBeforeMonthSameLeap(a, b, m - 1);
    }
  }

  /** A date's ordinal lies within its year. */
  lemma {:induction false} OrdinalInYear(dt: Date)
    requires Valid(dt)
    ensures DaysBeforeYear(dt.year) < Ordinal(dt) <= DaysBeforeYear(dt.year + 1)
  {
    DaysBeforeMonthGrows(dt.year, 1, dt.month);
    DaysBeforeMonthGrows(dt.year, dt.month, 13);
    DaysBeforeMonthYear(dt.year);
    DaysBeforeNextYear(dt.year);
  }

  /** Every instant of a date's day has that date's ordinal, and its day starts at the date's midnight. */
  lemma {:induction false} DayOfMidnight(dt: Date, s: int)
    requires Valid(dt) && 0 <= s < SECONDS_PER_DAY
    ensures DayOrdinal(Midnight(dt) + s) == Ordinal(dt)
    ensures DayStart(Midnight(dt) + s) == Midnight(dt)
  {
    var q := Ordinal(dt) - EPOCH_ORDINAL;
    assert Midnight(dt) + s == q * SECONDS_PER_DAY + s;
    DivUnique(Midnight(dt) + s, SECONDS_PER_DAY, q, s);
    ModUnique(Midnight(dt) + s, SECONDS_PER_DAY, q, s);
  }

  /** Years 69 to 99 and the years 1900 later are of the same kind, `DAYS_IN_1900_YEARS` days apart. */
  lemma {:induction false} YearsLater1900(y: int)
    requires 69 <= y <= 99
    ensures DaysBeforeYear(y + 1900) == DaysBeforeYear(y) + DAYS_IN_1900_YEARS
    ensures IsLeap(y + 1900) == IsLeap(y)
  {
    var p := y - 1;
    assert DaysBeforeYear(y + 1900) == (p + 1900) * 365 + (p + 1900) / 4 - (p + 1900) / 100 + (p + 1900) / 400;
    assert p == (p / 4) * 4 + p % 4 && y == (y / 4) * 4 + y % 4;
    DivUnique(p + 1900, 4, p / 4 + 475, p % 4);
    DivUnique(p + 1900, 100, 19, p);
    DivUnique(p + 1900, 400, 4, p + 300);
    DivUnique(p, 100, 0, p);
    DivUnique(p, 400, 0, p);
    ModUnique(y + 1900, 4, y / 4 + 475, y % 4);
    ModUnique(y + 1900, 100, 19, y);
    ModUnique(y, 100, 0, y);
  }

  /** Years 1 to 68 and the years 2000 later are of the same kind, `DAYS_IN_2000_YEARS` days apart. */
  lemma {:induction false} YearsLater2000(y: int)
    requires 1 <= y <= 68
    ensures DaysBeforeYear(y + 2000) == DaysBeforeYear(y) + DAYS_IN_2000_YEARS
    ensures IsLeap(y + 2000) == IsLeap(y)
  {
    var p := y - 1;
    assert DaysBeforeYear(y + 2000) == (p + 2000) * 365 + (p + 2000) / 4 - (p + 2000) / 100 + (p + 2000) / 400;
    assert p == (p / 4) * 4 + p % 4 && y == (y / 4) * 4 + y % 4;
    DivUnique(p + 2000, 4, p / 4 + 500, p % 4);
    DivUnique(p + 2000, 100, 20, p);
    DivUnique(p + 2000, 400, 5, p);
    DivUnique(p, 100, 0, p);
    DivUnique(p, 400, 0, p);
    ModUnique(y + 2000, 4, y / 4 + 500, y % 4);
    ModUnique(y + 2000, 100, 20, y);
    ModUnique(y, 100, 0, y);
  }

  /** An instant of years 1900 to 9999 comes back from the round trip as the midnight of its day. */
  lemma {:induction false} FieldMidnightOfFourDigitYear(v: int)
    requires FourDigitYear(v)
    ensures FieldMidnight(v) == Some(DayStart(v))
  {
    assert v == (v / SECONDS_PER_DAY) * SECONDS_PER_DAY + v % SECONDS_PER_DAY;
  }

  /** A day of years 1900 to 9999 comes back from the round trip as its own midnight. */
  lemma {:induction false} FieldMidnightFourDigits(dt: Date, s: int)
    requires Valid(dt) && 1900 <= dt.year <= 9999 && 0 <= s < SECONDS_PER_DAY
    ensures FourDigitYear(Midnight(dt) + s)
    ensures FieldMidnight(Midnight(dt) + s) == Some(Midnight(dt))
  {
    DayOfMidnight(dt, s);
    OrdinalInYear(dt);
    DaysBeforeYearMonotone(1900, dt.year);
    DaysBeforeYearMonotone(dt.year + 1, 10000);
  }

  /** A day of years 100 to 1899, or of a year from 10000 on, makes the round trip raise. */
  lemma {:induction false} FieldMidnightRefused(dt: Date, s: int)
    requires Valid(dt) && (100 <= dt.year < 1900 || 10000 <= dt.year) && 0 <= s < SECONDS_PER_DAY
    ensures FieldMidnight(Midnight(dt) + s) == None
  {
    DayOfMidnight(dt, s);
    OrdinalInYear(dt);
    if dt.year < 1900 {
      DaysBeforeYearMonotone(100, dt.year);
      DaysBeforeYearMonotone(dt.year + 1, 1900);
    } else {
      DaysBeforeYearMonotone(10000, dt.year);
    }
  }

  /** A day of years 69 to 99 comes back as the midnight of the same day 1900 years later. */
  lemma {:induction false} FieldMidnightNineteenth(dt: Date, s: int)
    requires Valid(dt) && 69 <= dt.year <= 99 && 0 <= s < SECONDS_PER_DAY
    ensures Valid(Date(dt.year + 1900, dt.month, dt.day))
    ensures FieldMidnight(Midnight(dt) + s) == Some(Midnight(Date(dt.year + 1900, dt.month, dt.day)))
  {
    var later := Date(dt.year + 1900, dt.month, dt.day);
    YearsLater1900(dt.year);
    DaysBeforeMonthSameLeap(dt.year, later.year, dt.month);
    assert Ordinal(later) == Ordinal(dt) + DAYS_IN_1900_YEARS;
    DayOfMidnight(dt, s);
    OrdinalInYear(dt);
    DaysBeforeYearMonotone(69, dt.year);
    DaysBeforeYearMonotone(dt.year + 1, 100);
  }

  /** A day of years 1 to 68 comes back as the midnight of the same day 2000 years later. */
  lemma {:induction false} FieldMidnightTwentieth(dt: Date, s: int)
    requires Valid(dt) && 1 <= dt.year <= 68 && 0 <= s < SECONDS_PER_DAY
    ensures Valid(Date(dt.year + 2000, dt.month, dt.day))
    ensures FieldMidnight(Midnight(dt) + s) == Some(Midnight(Date(dt.year + 2000, dt.month, dt.day)))
  {
    var later := Date(dt.year + 2000, dt.month, dt.day);
    YearsLater2000(dt.year);
    DaysBeforeMonthSameLeap(dt.year, later.year, dt.month);
    assert Ordinal(later) == Ordinal(dt) + DAYS_IN_2000_YEARS;
    DayOfMidnight(dt, s);
    OrdinalInYear(dt);
    DaysBeforeYearMonotone(dt.year + 1, 69);
  }

  /**
   * Before year 1: the 366 days of year 0 (a leap year of the proleptic
   * calendar) come back within year 2000, and any earlier day makes the round
   * trip raise.
   */
  lemma {:induction false} FieldMidnightBeforeYearOne(v: int)
    requires DayOrdinal(v) <= 0
    ensures DayOrdinal(v) > -DaysInYear(2000) ==>
      (FieldMidnight(v).Some? && DaysBeforeYear(2000) < DayOrdinal(FieldMidnight(v).value) <= DaysBeforeYear(2001))
    ensures DayOrdinal(v) <= -DaysInYear(2000) ==> FieldMidnight(v) == None
  {
    var q := v / SECONDS_PER_DAY;
    var w := (q + DAYS_IN_2000_YEARS) * SECONDS_PER_DAY;
    DivUnique(w, SECONDS_PER_DAY, q + DAYS_IN_2000_YEARS, 0);
  }

  /** A multiple of 400 is one of 100, and a multiple of 100 is one of 4. */
  lemma MultipleChain(y: int)
    ensures y % 400 == 0 ==> y % 100 == 0
    ensures y % 100 == 0 ==> y % 4 == 0
  {
    if y % 400 == 0 {
      var q := y / 400;
      assert y == q * 400;
      ModUnique(y, 100, 4 * q, 0);
    }
    if y % 100 == 0 {
      var q := y / 100;
      assert y == q * 100;
      ModUnique(y, 4, 25 * q, 0);
    }
  }

  lemma {:induction false} ModUnique(x: int, d: int, q: int, r: int)
    requires d >= 1 && x == q * d + r && 0 <= r < d
    ensures x % d == r
  {
    DivUnique(x, d, q, r);
    assert x == (x / d) * d + x % d;
  }

  lemma {:induction false} DivUnique(x: int, d: int, q: int, r: int)
    requires d >= 1 && x == q * d + r && 0 <= r < d
    ensures x / d == q
  {
    var q' := x / d;
    assert x == q' * d + x % d;
    if q > q' {
      assert (q' + 1) * d == q' * d + d;
      MulLe(q' + 1, q, d);
    } else if q < q' {
      assert (q + 1) * d == q * d + d;
      MulLe(q + 1, q', d);
    }
  }

  lemma {:induction false} MulLe(a: int, b: int, d: int)
    requires a <= b && d >= 0
    ensures a * d <= b * d
  {
    assert b * d - a * d == (b - a) * d;
  }


  lemma {:induction false} DaysBeforeYearGrows(a: int, b: int)
    requires 1 <= a < b
    ensures DaysBeforeYear(b) >= DaysBeforeYear(a) + DaysInYear(a)
    decreases b - a
  {
    DaysBeforeNextYear(a);
    if a + 1 < b {
      DaysBeforeYearGrows(a + 1, b);
    }
  }

  /** Calendar order and ordinal order agree: a later date has a larger ordinal. */
  lemma {:induction false} OrdinalMonotone(d1: Date, d2: Date)
    requires Valid(d1) && Valid(d2)
    requires d1.year < d2.year
          || (d1.year == d2.year && d1.month < d2.month)
          || (d1.year == d2.year && d1.month == d2.month && d1.day < d2.day)
    ensures Ordinal(d1) < Ordinal(d2)
  {
    if d1.year < d2.year {
      DaysBeforeMonthGrows(d1.year, d1.month, 13);
      DaysBeforeMonthYear(d1.year);
      DaysBeforeYearGrows(d1.year, d2.year);
      DaysBeforeMonthGrows(d2.year, 1, d2.month);
    } else if d1.month < d2.month {
      DaysBeforeMonthGrows(d1.year, d1.month, d2.month);
    }
  }

  /** Distinct valid dates have midnights at least a day apart, in calendar order. */
  lemma {:induction false} MidnightMonotone(d1: Date, d2: Date)
    requires Valid(d1) && Valid(d2)
    requires d1.year < d2.year
          || (d1.year == d2.year && d1.month < d2.month)
          || (d1.year == d2.year && d1.month == d2.month && d1.day < d2.day)
    ensures Midnight(d1) + SECONDS_PER_DAY <= Midnight(d2)
  {
    OrdinalMonotone(d1, d2);
  }
}
