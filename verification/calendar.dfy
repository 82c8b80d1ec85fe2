/** The proleptic Gregorian calendar of Python's `datetime.date`: a day is an
    ordinal (0001-01-01 is day 1), weekdays count from Monday = 0, and the
    text form is the RFC 3339 `full-date` (section 5.6 of RFC 3339),
    `YYYY-MM-DD`. */
module Calendar {
  import opened Options
  import opened Decimal

  const MinYear := 1
  const MaxYear := 9999
  /** The ordinal of 9999-12-31, the last day `datetime.date` can hold. */
  const MaxOrdinal := 3652059

  datatype Date = Date(year: int, month: int, day: int)

  predicate IsLeap(y: int) {
    y % 4 == 0 && (y % 100 != 0 || y % 400 == 0)
  }

  function DaysInYear(y: int): int {
    if IsLeap(y) then 366 else 365
  }

  function DaysInMonth(y: int, m: int): int
    requires 1 <= m <= 12
  {
    if m == 2 then (if IsLeap(y) then 29 else 28)
    else if m == 4 || m == 6 || m == 9 || m == 11 then 30
    else 31
  }

  predicate Valid(d: Date) {
    && MinYear <= d.year <= MaxYear
    && 1 <= d.month <= 12
    && 1 <= d.day <= DaysInMonth(d.year, d.month)
  }

  /** Days in the years before `y` (the closed form used by CPython). */
  function DaysBeforeYear(y: int): int
    requires y >= 1
  {
    var z := y - 1;
    z * 365 + z / 4 - z / 100 + z / 400
  }

  /** Days in year `y` before the first of month `m`; month 13 closes the year. */
  function DaysBeforeMonth(y: int, m: int): int
    requires 1 <= m <= 13
  {
    [0, 31, 59, 90, 120, 151, 181, 212, 243, 273, 304, 334, 365][m - 1]
      + (if m > 2 && IsLeap(y) then 1 else 0)
  }

  /** `x / k` is the `q` of any `x == q * k + r` with `0 <= r < k`. */
  lemma DivUnique(x: int, k: int, q: int, r: int)
    requires k > 0 && 0 <= r < k && x == q * k + r
    ensures x / k == q
  {
    var d := x / k - q;
    assert d * k == r - x % k;
    ProductMagnitude(d, k);
  }

  lemma ProductMagnitude(d: int, k: int)
    requires k > 0
    ensures d > 0 ==> d * k >= k
    ensures d < 0 ==> d * k <= -k
  {
  }

  lemma DivStep(z: int, k: int)
    requires z >= 0 && k > 0
    ensures (z + 1) / k == z / k + (if (z + 1) % k == 0 then 1 else 0)
  {
    var q, r := z / k, z % k;
    if r == k - 1 {
      DivUnique(z + 1, k, q + 1, 0);
    } else {
      DivUnique(z + 1, k, q, r + 1);
    }
  }

  lemma MultipleMod(x: int, k: int, q: int)
    requires k > 0 && x == q * k
    ensures x % k == 0
  {
    DivUnique(x, k, q, 0);
  }

  /** Multiples of 400 are multiples of 100, which are multiples of 4. */
  lemma LeapIndicator(y: int)
    ensures (if y % 4 == 0 then 1 else 0) - (if y % 100 == 0 then 1 else 0)
              + (if y % 400 == 0 then 1 else 0) == (if IsLeap(y) then 1 else 0)
  {
    if y % 400 == 0 {
      MultipleMod(y, 100, (y / 400) * 4);
    }
    if y % 100 == 0 {
      MultipleMod(y, 4, (y / 100) * 25);
    }
  }

  lemma DaysBeforeYearStep(y: int)
    requires y >= 1
    ensures DaysBeforeYear(y + 1) == DaysBeforeYear(y) + DaysInYear(y)
  {
    var z := y - 1;
    DivStep(z, 4);
    DivStep(z, 100);
    DivStep(z, 400);
    LeapIndicator(y);
    assert DaysBeforeYear(y + 1) == y * 365 + y / 4 - y / 100 + y / 400;
    assert DaysBeforeYear(y) == z * 365 + z / 4 - z / 100 + z / 400;
  }

  lemma DaysBeforeMonthStep(y: int, m: int)
    requires 1 <= m <= 12
    ensures DaysBeforeMonth(y, m + 1) == DaysBeforeMonth(y, m) + DaysInMonth(y, m)
    ensures DaysBeforeMonth(y, 13) == DaysInYear(y)
  {
  }

  lemma {:induction false} DaysBeforeYearMonotonic(a: int, b: int)
    requires 1 <= a <= b
    ensures DaysBeforeYear(a) + 365 * (b - a) <= DaysBeforeYear(b)
    decreases b - a
  {
    if a < b {
      DaysBeforeYearMonotonic(a, b - 1);
      DaysBeforeYearStep(b - 1);
    }
  }

  /** The ordinal of a valid date (CPython's `toordinal`). */
  function ToOrdinal(d: Date): (n: int)
    requires Valid(d)
    ensures 1 <= n <= MaxOrdinal
  {
    DaysBeforeMonthStep(d.year, d.month);
    DaysBeforeYearStep(d.year);
    DaysBeforeYearMonotonic(d.year + 1, MaxYear + 1);
    DaysBeforeYear(d.year) + DaysBeforeMonth(d.year, d.month) + d.day
  }

  /** The year holding day `n`, searched upwards from year `y`. */
  function FindYear(n: int, y: int): (r: int)
    requires 1 <= y && DaysBeforeYear(y) < n
    ensures y <= r && DaysBeforeYear(r) < n <= DaysBeforeYear(r + 1)
    decreases n - DaysBeforeYear(y)
  {
    DaysBeforeYearStep(y);
    if n <= DaysBeforeYear(y + 1) then y else FindYear(n, y + 1)
  }

  /** The month of year `y` holding day-of-year `doy`, searched upwards from `m`. */
  function FindMonth(y: int, doy: int, m: int): (r: int)
    requires 1 <= m <= 12 && DaysBeforeMonth(y, m) < doy <= DaysInYear(y)
    ensures m <= r <= 12 && DaysBeforeMonth(y, r) < doy <= DaysBeforeMonth(y, r + 1)
    decreases 12 - m
  {
    DaysBeforeMonthStep(y, m);
    if doy <= DaysBeforeMonth(y, m + 1) then m else FindMonth(y, doy, m + 1)
  }

  /** The date of ordinal `n` (CPython's `fromordinal`). */
  function FromOrdinal(n: int): (d: Date)
    requires 1 <= n <= MaxOrdinal
    ensures Valid(d) && ToOrdinal(d) == n
  {
    FindYearBounded(n);
    var y := FindYear(n, 1);
    DaysBeforeYearStep(y);
    var doy := n - DaysBeforeYear(y);
    var m := FindMonth(y, doy, 1);
    DaysBeforeMonthStep(y, m);
    Date(y, m, doy - DaysBeforeMonth(y, m))
  }

  /** The year search for a representable ordinal ends within years 1 to 9999. */
  lemma FindYearBounded(n: int)
    requires 1 <= n <= MaxOrdinal
    ensures FindYear(n, 1) <= MaxYear
  {
    var y := FindYear(n, 1);
    if y > MaxYear {
      DaysBeforeYearMonotonic(MaxYear + 1, y);
      assert false;
    }
  }

  lemma {:induction false} FindYearUnique(n: int, y: int, y0: int)
    requires 1 <= y <= y0 && DaysBeforeYear(y0) < n <= DaysBeforeYear(y0 + 1)
    ensures FindYear(n, y) == y0
    decreases y0 - y
  {
    if y < y0 {
      DaysBeforeYearMonotonic(y + 1, y0);
      FindYearUnique(n, y + 1, y0);
    }
  }

  lemma {:induction false} FindMonthUnique(y: int, doy: int, m: int, m0: int)
    requires 1 <= m <= m0 <= 12 && DaysBeforeMonth(y, m0) < doy <= DaysBeforeMonth(y, m0 + 1)
    ensures DaysBeforeMonth(y, m) < doy <= DaysInYear(y)
    ensures FindMonth(y, doy, m) == m0
    decreases m0 - m
  {
    DaysBeforeMonthStep(y, m0);
    if m < m0 {
      DaysBeforeMonthStep(y, m);
      FindMonthUnique(y, doy, m + 1, m0);
    }
  }

  /** Day numbers and valid dates are in one-to-one correspondence. */
  lemma OrdinalRoundTrip(d: Date)
    requires Valid(d)
    ensures FromOrdinal(ToOrdinal(d)) == d
  {
    var n := ToOrdinal(d);
    DaysBeforeMonthStep(d.year, d.month);
    DaysBeforeYearStep(d.year);
    FindYearUnique(n, 1, d.year);
    FindMonthUnique(d.year, n - DaysBeforeYear(d.year), 1, d.month);
  }

  /** Python's `date.weekday()`: Monday is 0, Sunday is 6. */
  function Weekday(n: int): (w: int)
    ensures 0 <= w < 7
    ensures w == 0 <==> n % 7 == 1
  {
    (n + 6) % 7
  }

  /** Weekdays advance by one each day, and day 1 (0001-01-01) as well as
      2024-01-01 fall on a Monday. */
  lemma WeekdayAnchoredOnMonday(n: int)
    ensures Weekday(n + 1) == (Weekday(n) + 1) % 7
    ensures Weekday(ToOrdinal(Date(1, 1, 1))) == 0
    ensures Weekday(ToOrdinal(Date(2024, 1, 1))) == 0
  {
    WeekdayStep(n);
    NewYear2024();
    assert ToOrdinal(Date(1, 1, 1)) == 1;
  }

  lemma WeekdayStep(n: int)
    ensures Weekday(n + 1) == (Weekday(n) + 1) % 7
  {
  }

  lemma NewYear2024()
    ensures ToOrdinal(Date(2024, 1, 1)) == 738886
    ensures Weekday(738886) == 0
  {
    assert DaysBeforeYear(2024) == 738885;
    assert (738886 + 6) % 7 == 0;
  }

  /** `strftime("%Y-%m-%d")` of a valid date. */
  function FormatFullDate(d: Date): (s: string)
    requires Valid(d)
    ensures |s| == 10 && s[4] == '-' && s[7] == '-'
    ensures AllDigits(s[..4]) && AllDigits(s[5..7]) && AllDigits(s[8..])
  {
    FixedWidth(d.year, 4) + "-" + FixedWidth(d.month, 2) + "-" + FixedWidth(d.day, 2)
  }

  /** Reads an RFC 3339 `full-date`; `None` unless the text has the shape
      `DDDD-DD-DD` and names an existing day of years 1 to 9999. */
  function ParseFullDate(s: string): (r: Option<Date>)
    ensures r.Some? ==> Valid(r.value)
  {
    if |s| == 10 && s[4] == '-' && s[7] == '-'
       && AllDigits(s[..4]) && AllDigits(s[5..7]) && AllDigits(s[8..])
    then
      var d := Date(Value(s[..4]), Value(s[5..7]), Value(s[8..]));
      if Valid(d) then Some(d) else None
    else None
  }

  /** Reading back the formatted date gives the date. */
  lemma ParseFormat(d: Date)
    requires Valid(d)
    ensures ParseFullDate(FormatFullDate(d)) == Some(d)
  {
    var s := FormatFullDate(d);
    assert s[..4] == FixedWidth(d.year, 4);
    assert s[5..7] == FixedWidth(d.month, 2);
    assert s[8..] == FixedWidth(d.day, 2);
    FixedWidthValue(d.year, 4);
    FixedWidthValue(d.month, 2);
    FixedWidthValue(d.day, 2);
  }

  /** A text that reads as a date is exactly that date's formatted text. */
  lemma FormatParse(s: string)
    requires ParseFullDate(s).Some?
    ensures FormatFullDate(ParseFullDate(s).value) == s
  {
    var y, m, d := s[..4], s[5..7], s[8..];
    assert s == y + "-" + m + "-" + d;
    assert ParseFullDate(s).value == Date(Value(y), Value(m), Value(d));
    ValueFixedWidth(y);
    ValueFixedWidth(m);
    ValueFixedWidth(d);
  }
}
