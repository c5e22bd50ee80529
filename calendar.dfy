/** Python's `datetime.date` as the digest scripts use it: proleptic Gregorian
    dates in years 1 to 9999, the constructor that raises on an invalid date,
    day arithmetic through the day ordinal (`toordinal`), and formatting. */
module Calendar {
  import opened Common

  const MinYear := 1
  const MaxYear := 9999

  datatype Date = Date(year: int, month: int, day: int)

  /** `ValueError` from `date(y, m, d)`; `OverflowError` from `date ± timedelta`. */
  datatype DateError = ValueError | OverflowError

  predicate IsLeap(y: int) {
    y % 4 == 0 && (y % 100 != 0 || y % 400 == 0)
  }

  function DaysInMonth(y: int, m: int): (n: int)
    requires 1 <= m <= 12
    ensures 28 <= n <= 31
  {
    if m == 2 then (if IsLeap(y) then 29 else 28)
    else if m == 4 || m == 6 || m == 9 || m == 11 then 30
    else 31
  }

  predicate ValidDate(d: Date) {
    MinYear <= d.year <= MaxYear && 1 <= d.month <= 12 && 1 <= d.day <= DaysInMonth(d.year, d.month)
  }

  const MinDate := Date(MinYear, 1, 1)
  const MaxDate := Date(MaxYear, 12, 31)

  /** `date(y, m, d)`: the date, or the `ValueError` Python raises for it. */
  function MakeDate(y: int, m: int, d: int): (r: Result<Date, DateError>)
    ensures r.Ok? <==> ValidDate(Date(y, m, d))
    ensures r.Ok? ==> r.value == Date(y, m, d)
    ensures r.Err? ==> r.error == ValueError
  {
    if ValidDate(Date(y, m, d)) then Ok(Date(y, m, d)) else Err(ValueError)
  }

  // ---------------------------------------------------------------------------
  // Day ordinals (`date.toordinal()`: 0001-01-01 is day 1)

  function DaysBeforeYear(y: int): int
    requires y >= 1
  {
    var k := y - 1;
    k * 365 + k / 4 - k / 100 + k / 400
  }

  function DaysBeforeMonth(y: int, m: int): int
    requires 1 <= m <= 12
  {
    var table := [0, 31, 59, 90, 120, 151, 181, 212, 243, 273, 304, 334];
    table[m - 1] + (if m > 2 && IsLeap(y) then 1 else 0)
  }

  function Ordinal(d: Date): int
    requires d.year >= 1 && 1 <= d.month <= 12
  {
    DaysBeforeYear(d.year) + DaysBeforeMonth(d.year, d.month) + d.day
  }

  const MaxOrdinal := 3652059

  /** Adding one to `k` adds one to `k / n` exactly when `n` divides `k + 1`. */
  lemma DivStep(k: int, n: int)
    requires k >= 0 && (n == 4 || n == 100 || n == 400)
    ensures (k + 1) / n == k / n + (if (k + 1) % n == 0 then 1 else 0)
  {
    var q, r := k / n, k % n;
    assert k == n * q + r && 0 <= r < n;
    if r == n - 1 {
      assert k + 1 == n * (q + 1);
    } else {
      assert k + 1 == n * q + (r + 1);
    }
  }

  /** A multiple of 400 is a multiple of 100, and a multiple of 100 a multiple of 4. */
  lemma DivisibilityChain(y: int)
    ensures y % 400 == 0 ==> y % 100 == 0
    ensures y % 100 == 0 ==> y % 4 == 0
  {
    var q400, q100, q4 := y / 400, y / 100, y / 4;
    assert y == 400 * q400 + y % 400 && y == 100 * q100 + y % 100 && y == 4 * q4 + y % 4;
    if y % 400 == 0 {
      assert 100 * (4 * q400 - q100) == y % 100;
    }
    if y % 100 == 0 {
      assert 4 * (25 * q100 - q4) == y % 4;
    }
  }

  lemma DaysBeforeNextYear(y: int)
    requires y >= 1
    ensures DaysBeforeYear(y + 1) == DaysBeforeYear(y) + (if IsLeap(y) then 366 else 365)
  {
    DivStep(y - 1, 4);
    DivStep(y - 1, 100);
    DivStep(y - 1, 400);
    DivisibilityChain(y);
  }

  lemma {:induction false} DaysBeforeYearMonotone(y: int, z: int)
    requires 1 <= y <= z
    ensures DaysBeforeYear(y) + 365 * (z - y) <= DaysBeforeYear(z)
    decreases z - y
  {
    if y < z {
      DaysBeforeNextYear(y);
      DaysBeforeYearMonotone(y + 1, z);
    }
  }

  /** Every representable date has an ordinal in 1 .. MaxOrdinal, and the last one has MaxOrdinal. */
  lemma OrdinalBound(d: Date)
    requires ValidDate(d)
    ensures 1 <= Ordinal(d) <= MaxOrdinal
    ensures Ordinal(d) == MaxOrdinal <==> d == MaxDate
  {
    DaysBeforeNextYear(d.year);
    DaysBeforeYearMonotone(d.year + 1, MaxYear + 1);
    if d.year < MaxYear {
      DaysBeforeYearMonotone(d.year + 1, MaxYear);
    }
  }

  /** The day after `d` (`d + timedelta(days=1)` when it does not overflow). */
  function NextDay(d: Date): (r: Date)
    requires ValidDate(d) && d != MaxDate
    ensures ValidDate(r)
  {
    if d.day < DaysInMonth(d.year, d.month) then Date(d.year, d.month, d.day + 1)
    else if d.month < 12 then Date(d.year, d.month + 1, 1)
    else Date(d.year + 1, 1, 1)
  }

  /** The day before `d` (`d - timedelta(days=1)` when it does not overflow). */
  function PrevDay(d: Date): (r: Date)
    requires ValidDate(d) && d != MinDate
    ensures ValidDate(r) && r != MaxDate && NextDay(r) == d
  {
    if d.day > 1 then Date(d.year, d.month, d.day - 1)
    else if d.month > 1 then Date(d.year, d.month - 1, DaysInMonth(d.year, d.month - 1))
    else Date(d.year - 1, 12, 31)
  }

  /** Stepping one day forward adds one to the ordinal. */
  lemma NextDayOrdinal(d: Date)
    requires ValidDate(d) && d != MaxDate
    ensures Ordinal(NextDay(d)) == Ordinal(d) + 1
  {
    if d.day == DaysInMonth(d.year, d.month) && d.month == 12 {
      DaysBeforeNextYear(d.year);
    }
  }

  /** The days of month `m1` all come before the first day of any later month `m2`. */
  lemma DaysBeforeMonthGap(y: int, m1: int, m2: int)
    requires 1 <= m1 < m2 <= 12
    ensures DaysBeforeMonth(y, m1) + DaysInMonth(y, m1) <= DaysBeforeMonth(y, m2)
  {
  }

  /** An ordinal falls inside the days of its own year. */
  lemma OrdinalWithinYear(d: Date)
    requires ValidDate(d)
    ensures DaysBeforeYear(d.year) < Ordinal(d) <= DaysBeforeYear(d.year + 1)
  {
    DaysBeforeNextYear(d.year);
    if d.month < 12 {
      DaysBeforeMonthGap(d.year, d.month, 12);
    }
  }

  /** Distinct representable dates have distinct ordinals. */
  lemma OrdinalInjective(a: Date, b: Date)
    requires ValidDate(a) && ValidDate(b) && Ordinal(a) == Ordinal(b)
    ensures a == b
  {
    OrdinalWithinYear(a);
    OrdinalWithinYear(b);
    if a.year < b.year {
      DaysBeforeYearMonotone(a.year + 1, b.year);
    } else if b.year < a.year {
      DaysBeforeYearMonotone(b.year + 1, a.year);
    } else if a.month < b.month {
      DaysBeforeMonthGap(a.year, a.month, b.month);
    } else if b.month < a.month {
      DaysBeforeMonthGap(a.year, b.month, a.month);
    }
  }

  /** `d + timedelta(days=n)` for a result inside the representable range. */
  function AddDays(d: Date, n: nat): (r: Date)
    requires ValidDate(d) && Ordinal(d) + n <= MaxOrdinal
    ensures ValidDate(r) && Ordinal(r) == Ordinal(d) + n
    decreases n
  {
    if n == 0 then d
    else
      OrdinalBound(d);
      NextDayOrdinal(d);
      AddDays(NextDay(d), n - 1)
  }

  /** `d + timedelta(days=n)`, raising `OverflowError` past 9999-12-31. */
  function AddDaysChecked(d: Date, n: nat): (r: Result<Date, DateError>)
    requires ValidDate(d)
    ensures r.Ok? <==> Ordinal(d) + n <= MaxOrdinal
    ensures r.Ok? ==> ValidDate(r.value) && Ordinal(r.value) == Ordinal(d) + n
    ensures r.Err? ==> r.error == OverflowError
  {
    if Ordinal(d) + n > MaxOrdinal then Err(OverflowError) else Ok(AddDays(d, n))
  }

  /** `d - timedelta(days=1)`, raising `OverflowError` before 0001-01-01. */
  function SubOneDay(d: Date): (r: Result<Date, DateError>)
    requires ValidDate(d)
    ensures r.Ok? <==> d != MinDate
    ensures r.Ok? ==> ValidDate(r.value) && r.value != MaxDate && NextDay(r.value) == d
    ensures r.Err? ==> r.error == OverflowError
  {
    if d == MinDate then Err(OverflowError) else Ok(PrevDay(d))
  }

  // ---------------------------------------------------------------------------
  // Formatting

  /** `%B` in the C locale. */
  function MonthName(m: int): string
    requires 1 <= m <= 12
  {
    ["January", "February", "March", "April", "May", "June", "July",
     "August", "September", "October", "November", "December"][m - 1]
  }

  /** `%Y`, `%m`, `%d`: the year padded to four digits, month and day to two. */
  function YearText(y: int): string
    requires y >= 1
  {
    ZeroPad(y, 4)
  }

  /** `d.strftime("%Y-%m-%d")`, which is also `str(d)` (`isoformat`). */
  function IsoDate(d: Date): (r: string)
    requires ValidDate(d)
  {
    YearText(d.year) + "-" + ZeroPad(d.month, 2) + "-" + ZeroPad(d.day, 2)
  }

  /** `d.strftime("%B %Y")`. */
  function MonthLabel(d: Date): string
    requires ValidDate(d)
  {
    MonthName(d.month) + " " + YearText(d.year)
  }
}
