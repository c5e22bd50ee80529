/** The Window Resolver: the bounds of one calendar month (two algorithms, one
    per digest script), the five comparison windows of a target month (again
    once per script), the default target month, and the day-by-day split of a
    date range used by `--chunk-by-day`. */
module Windows {
  import opened Common
  import opened Calendar

  /** An inclusive date range as `diavgeia_monthly_digest.py` keeps it (a tuple). */
  datatype Span = Span(start: Date, end: Date)

  /** `DigestWindow` of `digest_monthly.py`: a labelled inclusive date range. */
  datatype DigestWindow = DigestWindow(caption: string, start: Date, end: Date)

  /** The five windows of one run, in the order the scripts fetch them. */
  datatype Five<W> = Five(current: W, previous: W, ytd: W, ytdPrev: W, yoy: W)

  /** The first day of the month after (year, month): December rolls into January. */
  function FirstOfNextMonth(year: int, month: int): Date {
    if month == 12 then Date(year + 1, 1, 1) else Date(year, month + 1, 1)
  }

  /** `month_bounds` of `diavgeia_monthly_digest.py`: the first day of the month
      and the day before `date(year + month // 12, month % 12 + 1, 1)`. */
  function MonthBounds(year: int, month: int): (r: Result<Span, DateError>)
    ensures r.Ok? <==> MinYear <= year <= MaxYear && 1 <= month <= 12 && !(year == MaxYear && month == 12)
    ensures r.Ok? ==> r.value.start == Date(year, month, 1)
    ensures r.Ok? ==> r.value.end == Date(year, month, DaysInMonth(year, month))
  {
    var start :- MakeDate(year, month, 1);
    var next :- MakeDate(year + month / 12, month % 12 + 1, 1);
    Ok(Span(start, PrevDay(next)))
  }

  /** The day after a month's last day is the first day of the next month. */
  lemma MonthBoundsEndBeforeNext(year: int, month: int)
    requires MonthBounds(year, month).Ok?
    ensures var e := MonthBounds(year, month).value.end;
      ValidDate(e) && e != MaxDate && NextDay(e) == FirstOfNextMonth(year, month)
  {
  }

  /** Four days after day 28 of a month is day `32 - DaysInMonth` of the next month. */
  lemma Day28PlusFour(year: int, month: int)
    requires MinYear <= year <= MaxYear && 1 <= month <= 12 && !(year == MaxYear && month == 12)
    ensures Ordinal(Date(year, month, 28)) + 4 <= MaxOrdinal
    ensures var n := FirstOfNextMonth(year, month);
      AddDays(Date(year, month, 28), 4) == Date(n.year, n.month, 32 - DaysInMonth(year, month))
  {
    var d0 := Date(year, month, 28);
    var last := Date(year, month, DaysInMonth(year, month));
    var n := FirstOfNextMonth(year, month);
    var target := Date(n.year, n.month, 32 - DaysInMonth(year, month));
    OrdinalBound(last);
    NextDayOrdinal(last);
    assert NextDay(last) == n;
    assert Ordinal(last) == Ordinal(d0) + DaysInMonth(year, month) - 28;
    assert Ordinal(target) == Ordinal(n) + 31 - DaysInMonth(year, month);
    OrdinalBound(n);
    assert ValidDate(target);
    OrdinalBound(target);
    OrdinalInjective(AddDays(d0, 4), target);
  }

  /** Adding four days to day 28 overflows exactly in December 9999, and
      otherwise lands in the month after. */
  lemma Day28Step(year: int, month: int)
    requires ValidDate(Date(year, month, 1))
    ensures var next := AddDaysChecked(Date(year, month, 28), 4);
      && (next.Ok? <==> !(year == MaxYear && month == 12))
      && (next.Ok? ==> Date(next.value.year, next.value.month, 1) == FirstOfNextMonth(year, month))
  {
    OrdinalBound(MaxDate);
    if !(year == MaxYear && month == 12) {
      Day28PlusFour(year, month);
    }
  }

  /** `month_bounds` of `digest_monthly.py`: day 28 of the month plus four days
      lands in the next month; its first day minus one day is the month's end.
      It fails on exactly the months the other algorithm fails on (December
      9999 overflows) and otherwise yields the same range. */
  function MonthBoundsDay28(year: int, month: int): (r: Result<DigestWindow, DateError>)
    ensures r.Ok? <==> MinYear <= year <= MaxYear && 1 <= month <= 12 && !(year == MaxYear && month == 12)
    ensures r.Ok? ==> r.value.start == Date(year, month, 1)
    ensures r.Ok? ==> r.value.end == Date(year, month, DaysInMonth(year, month))
    ensures r.Ok? ==> r.value.caption == MonthLabel(r.value.start)
    ensures r.Err? ==> r.error == (if year == MaxYear && month == 12 then OverflowError else ValueError)
  {
    var start :- MakeDate(year, month, 1);
    Day28Step(year, month);
    var next :- AddDaysChecked(Date(year, month, 28), 4);
    var first := Date(next.year, next.month, 1);
    Ok(DigestWindow(MonthLabel(start), start, PrevDay(first)))
  }

  /** Both scripts' `month_bounds` fail on the same inputs and otherwise give the same range. */
  lemma MonthBoundsAgree(year: int, month: int)
    ensures MonthBoundsDay28(year, month).Ok? <==> MonthBounds(year, month).Ok?
    ensures MonthBounds(year, month).Ok? ==>
      MonthBoundsDay28(year, month).value.start == MonthBounds(year, month).value.start &&
      MonthBoundsDay28(year, month).value.end == MonthBounds(year, month).value.end
  {
  }

  // ---------------------------------------------------------------------------
  // The five windows

  /** The month before (year, month): January goes back to December of the year before. */
  function PreviousMonth(year: int, month: int): (int, int) {
    if month > 1 then (year, month - 1) else (year - 1, 12)
  }

  /** The target months for which the five windows exist. A leap-year February
      fails because the prior-year-to-date end reuses day 29 in a common year. */
  predicate WindowsExist(year: int, month: int) {
    MinYear + 1 <= year <= MaxYear && 1 <= month <= 12 && !(year == MaxYear && month == 12)
    && !(month == 2 && IsLeap(year))
  }

  /** Day `DaysInMonth(year, month)` exists in the same month a year earlier
      unless the month is February of a leap year. */
  lemma SameDayLastYear(year: int, month: int)
    requires 1 <= month <= 12
    ensures DaysInMonth(year, month) <= DaysInMonth(year - 1, month) <==> !(month == 2 && IsLeap(year))
  {
    assert IsLeap(year) ==> !IsLeap(year - 1);
  }

  /** `WindowsExist` holds exactly when every step of the derivation succeeds:
      both month bounds, 1 January of the year before, and the current month's
      last day number in the same month a year earlier. */
  lemma WindowsExistSteps(year: int, month: int)
    ensures WindowsExist(year, month) <==>
      && MinYear <= year <= MaxYear && 1 <= month <= 12 && !(year == MaxYear && month == 12)
      && ValidDate(Date(year - 1, 1, 1))
      && ValidDate(Date(year - 1, month, DaysInMonth(year, month)))
      && var pp := PreviousMonth(year, month);
         MinYear <= pp.0 <= MaxYear && 1 <= pp.1 <= 12 && !(pp.0 == MaxYear && pp.1 == 12)
  {
    if 1 <= month <= 12 {
      SameDayLastYear(year, month);
    }
  }

  /** The window derivation of `diavgeia_monthly_digest.py`'s `main`. */
  /** The five ranges of a digest for (year, month): the whole target month,
      the whole month before it, 1 January to the end of the target month,
      1 January to the target month's last day number a year earlier, and the
      whole target month a year earlier. */
  predicate DigestSpans(w: Five<Span>, year: int, month: int) {
    && 1 <= month <= 12
    && w.current == Span(Date(year, month, 1), Date(year, month, DaysInMonth(year, month)))
    && w.ytd == Span(Date(year, 1, 1), w.current.end)
    && w.ytdPrev == Span(Date(year - 1, 1, 1), Date(year - 1, month, w.current.end.day))
    && w.yoy == Span(Date(year - 1, month, 1), Date(year - 1, month, DaysInMonth(year - 1, month)))
    && var pp := PreviousMonth(year, month);
       w.previous == Span(Date(pp.0, pp.1, 1), Date(pp.0, pp.1, DaysInMonth(pp.0, pp.1)))
  }

  function DeriveWindows(year: int, month: int): (r: Result<Five<Span>, DateError>)
    ensures r.Ok? <==> WindowsExist(year, month)
    ensures r.Ok? ==> DigestSpans(r.value, year, month)
  {
    WindowsExistSteps(year, month);
    var current :- MonthBounds(year, month);
    var pp := PreviousMonth(year, month);
    var previous :- MonthBounds(pp.0, pp.1);
    var lastYear := year - 1;
    // date(year, 1, 1) cannot fail once month_bounds(year, month) has succeeded
    var ytdStart := Date(year, 1, 1);
    var ytdPrevStart :- MakeDate(lastYear, 1, 1);
    var ytdPrevEnd :- MakeDate(lastYear, month, current.end.day);
    // nor month_bounds(year - 1, month) once date(year - 1, month, day) has
    var yoy := MonthBounds(lastYear, month).value;
    Ok(Five(current, previous, Span(ytdStart, current.end), Span(ytdPrevStart, ytdPrevEnd), yoy))
  }

  function Unlabel(w: DigestWindow): Span {
    Span(w.start, w.end)
  }

  /** The five ranges of five captioned windows. */
  function Spans(w: Five<DigestWindow>): Five<Span> {
    Five(Unlabel(w.current), Unlabel(w.previous), Unlabel(w.ytd), Unlabel(w.ytdPrev), Unlabel(w.yoy))
  }

  /** The caption `prepare_windows` gives a year-to-date window: both ends in ISO form. */
  function RangeCaption(start: Date, end: Date): string
    requires ValidDate(start) && ValidDate(end)
  {
    IsoDate(start) + " → " + IsoDate(end)
  }

  /** `prepare_windows` of `digest_monthly.py`, with the captions it renders: the
      same five ranges as the derivation in the other script, failing on the same
      target months. */
  function PrepareWindows(year: int, month: int): (r: Result<Five<DigestWindow>, DateError>)
    ensures r.Ok? <==> WindowsExist(year, month)
    ensures r.Ok? ==> DigestSpans(Spans(r.value), year, month)
  {
    WindowsExistSteps(year, month);
    var current :- MonthBoundsDay28(year, month);
    var pp := PreviousMonth(year, month);
    var previous :- MonthBoundsDay28(pp.0, pp.1);
    var ytdStart := Date(year, 1, 1);
    var ytd := DigestWindow(RangeCaption(ytdStart, current.end), ytdStart, current.end);
    var priorYear := year - 1;
    var ytdPrevStart :- MakeDate(priorYear, 1, 1);
    var ytdPrevEnd :- MakeDate(priorYear, month, current.end.day);
    var ytdPrev := DigestWindow(RangeCaption(ytdPrevStart, ytdPrevEnd), ytdPrevStart, ytdPrevEnd);
    var yoy := MonthBoundsDay28(priorYear, month).value;
    Ok(Five(current, previous, ytd, ytdPrev, yoy))
  }

  /** The captions `prepare_windows` renders: "%B %Y" for the three whole
      months, the two ends in ISO form for the two year-to-date ranges. */
  lemma PrepareWindowsCaptions(year: int, month: int)
    requires WindowsExist(year, month)
    ensures var w := PrepareWindows(year, month).value;
      && w.current.caption == MonthLabel(w.current.start)
      && w.previous.caption == MonthLabel(w.previous.start)
      && w.yoy.caption == MonthLabel(w.yoy.start)
      && w.ytd.caption == RangeCaption(w.ytd.start, w.ytd.end)
      && w.ytdPrev.caption == RangeCaption(w.ytdPrev.start, w.ytdPrev.end)
  {
    WindowsExistSteps(year, month);
  }

  /** The two scripts derive the same five ranges, and fail on the same target months. */
  lemma PrepareAgreesWithDerive(year: int, month: int)
    ensures PrepareWindows(year, month).Ok? <==> DeriveWindows(year, month).Ok?
    ensures PrepareWindows(year, month).Ok? ==>
      Spans(PrepareWindows(year, month).value) == DeriveWindows(year, month).value
  {
  }

  /** The previous window ends the day before the current one starts, the
      year-to-date window starts on 1 January and ends with the current window,
      and the prior-year-to-date window ends with the same-month-last-year window
      except in a February that follows a leap year, where it stops a day short. */
  lemma {:induction false} WindowsAdjacent(year: int, month: int)
    requires WindowsExist(year, month)
    ensures var w := DeriveWindows(year, month).value;
      && ValidDate(w.previous.end) && w.previous.end != MaxDate && NextDay(w.previous.end) == w.current.start
      && w.ytd.start.month == 1 && w.ytd.start.day == 1 && w.ytd.end == w.current.end
      && ValidDate(w.ytdPrev.end) && ValidDate(w.yoy.end)
      && (if month == 2 && IsLeap(year - 1) then NextDay(w.ytdPrev.end) == w.yoy.end
          else w.ytdPrev.end == w.yoy.end)
  {
    var w := DeriveWindows(year, month).value;
    var (py, pm) := PreviousMonth(year, month);
    assert MonthBounds(py, pm).Ok?;
    MonthBoundsEndBeforeNext(py, pm);
  }

  /** As written, a digest for February of a leap year fails: the end of the
      prior-year-to-date window is 29 February of a common year. */
  lemma LeapFebruaryFails()
    ensures MonthBounds(2024, 2).Ok? && MonthBounds(2024, 1).Ok? && MonthBounds(2023, 2).Ok?
    ensures MakeDate(2023, 2, DaysInMonth(2024, 2)) == Err(ValueError)
    ensures DeriveWindows(2024, 2) == Err(ValueError)
    ensures PrepareWindows(2024, 2).Err?
  {
  }

  /** The evidently intended end of the prior-year-to-date window: the current
      month's last day number a year earlier, clamped to that month's length. */
  function PriorYtdEnd(year: int, month: int): (d: Date)
    requires MinYear + 1 <= year <= MaxYear && 1 <= month <= 12
    ensures ValidDate(d) && d.year == year - 1 && d.month == month
    ensures d.day <= DaysInMonth(year, month)
    ensures !(month == 2 && IsLeap(year)) ==> d == Date(year - 1, month, DaysInMonth(year, month))
  {
    SameDayLastYear(year, month);
    var day := DaysInMonth(year, month);
    var last := DaysInMonth(year - 1, month);
    Date(year - 1, month, if day <= last then day else last)
  }

  /** With the clamped end the prior-year-to-date window exists for every
      target month whose other four windows exist, it agrees with the window
      as written wherever that exists, and it ends with the same month last
      year except in a February that follows a leap year. */
  lemma PriorYtdEndSpec(year: int, month: int)
    requires MinYear + 1 <= year <= MaxYear && 1 <= month <= 12 && !(year == MaxYear && month == 12)
    ensures WindowsExist(year, month) ==> PriorYtdEnd(year, month) == DeriveWindows(year, month).value.ytdPrev.end
    ensures var yoyEnd := MonthBounds(year - 1, month).value.end;
      if month == 2 && IsLeap(year - 1) then NextDay(PriorYtdEnd(year, month)) == yoyEnd
      else PriorYtdEnd(year, month) == yoyEnd
  {
    SameDayLastYear(year, month);
    if month == 2 && IsLeap(year - 1) {
      assert !IsLeap(year);
    }
  }

  // ---------------------------------------------------------------------------
  // Default target month

  /** `default_period(today)`: the month before today's month. */
  function DefaultPeriod(today: Date): (r: (int, int))
    requires ValidDate(today)
    ensures 1 <= r.1 <= 12
    ensures r.0 * 12 + r.1 + 1 == today.year * 12 + today.month
  {
    if today.month == 1 then (today.year - 1, 12) else (today.year, today.month - 1)
  }

  /** `resolve_period(args, today)`: the given pair when both are truthy, otherwise
      each falsy (absent or zero) value taken from `default_period`. */
  function ResolvePeriod(year: Option<int>, month: Option<int>, today: Date): (r: (int, int))
    requires ValidDate(today)
    ensures IntTruthy(year) && IntTruthy(month) ==> r == (year.value, month.value)
    ensures r.0 == (if IntTruthy(year) then year.value else DefaultPeriod(today).0)
    ensures r.1 == (if IntTruthy(month) then month.value else DefaultPeriod(today).1)
  {
    if IntTruthy(year) && IntTruthy(month) then (year.value, month.value)
    else
      var (dy, dm) := DefaultPeriod(today);
      (IntOr(year, dy), IntOr(month, dm))
  }

  /** `determine_target_month(year, month)` with today's date as a parameter:
      a missing (None) value comes from the day before the first of this month,
      which overflows when today lies in January of year 1. */
  function DetermineTargetMonth(year: Option<int>, month: Option<int>, today: Date): (r: Result<(int, int), DateError>)
    requires ValidDate(today)
    ensures year.Some? && month.Some? ==> r == Ok((year.value, month.value))
    ensures (year.None? || month.None?) ==> (r.Err? <==> today.year == MinYear && today.month == 1)
    ensures r.Ok? ==> r.value.0 == (if year.Some? then year.value else DefaultPeriod(today).0)
    ensures r.Ok? ==> r.value.1 == (if month.Some? then month.value else DefaultPeriod(today).1)
  {
    if year.Some? && month.Some? then Ok((year.value, month.value))
    else
      var prev :- SubOneDay(Date(today.year, today.month, 1));
      Ok((if year.Some? then year.value else prev.year, if month.Some? then month.value else prev.month))
  }

  /** The two scripts pick the same target month unless a value was given as 0,
      which `resolve_period` treats as missing and `determine_target_month` keeps. */
  lemma ResolveAgreesWithDetermine(year: Option<int>, month: Option<int>, today: Date)
    requires ValidDate(today) && !(today.year == MinYear && today.month == 1)
    ensures (year != Some(0) && month != Some(0)) ==>
      DetermineTargetMonth(year, month, today) == Ok(ResolvePeriod(year, month, today))
    ensures year == Some(0) && month.Some? ==>
      DetermineTargetMonth(year, month, today).value.0 == 0 != ResolvePeriod(year, month, today).0
  {
  }

  // ---------------------------------------------------------------------------
  // Day chunks

  /** The `--chunk-by-day` ranges of `fetch_decisions`: one single-day range for
      each day from `start` to `end` inclusive, none when `end` precedes `start`. */
  function DayChunks(start: Date, end: Date): (r: seq<Span>)
    requires ValidDate(start) && ValidDate(end)
    ensures |r| == if Ordinal(end) < Ordinal(start) then 0 else Ordinal(end) - Ordinal(start) + 1
    ensures forall i :: 0 <= i < |r| ==>
      r[i].start == r[i].end && ValidDate(r[i].start) && Ordinal(r[i].start) == Ordinal(start) + i
  {
    OrdinalBound(end);
    var n := Ordinal(end) - Ordinal(start) + 1;
    if n <= 0 then []
    else seq(n, i requires 0 <= i < n => var d := AddDays(start, i); Span(d, d))
  }

  /** The chunks run from `start` to `end`, each the day after the one before. */
  lemma DayChunksCover(start: Date, end: Date)
    requires ValidDate(start) && ValidDate(end) && Ordinal(start) <= Ordinal(end)
    ensures var c := DayChunks(start, end);
      c[0].start == start && c[|c| - 1].end == end
      && forall i :: 0 <= i < |c| - 1 ==> c[i].end != MaxDate && NextDay(c[i].end) == c[i + 1].start
  {
    var c := DayChunks(start, end);
    OrdinalInjective(c[0].start, start);
    OrdinalInjective(c[|c| - 1].end, end);
    forall i | 0 <= i < |c| - 1
      ensures c[i].end != MaxDate && NextDay(c[i].end) == c[i + 1].start
    {
      OrdinalBound(c[i + 1].start);
      OrdinalBound(c[i].end);
      NextDayOrdinal(c[i].end);
      OrdinalInjective(NextDay(c[i].end), c[i + 1].start);
    }
  }
}
