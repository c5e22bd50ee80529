/** The digest tables computed from a frame of decisions: the slowest
    decisions (outliers), the decision-type mix, the monthly trend figures
    and the per-region totals of the trailing months. */

module Aggregates {
  import opened Common
  import opened Records
  import opened Frames
  import opened Sorting

  // ---------------------------------------------------------------------
  // Slowest decisions (`compute_outliers`, `slowest_decisions`)
  // ---------------------------------------------------------------------

  /** The sort key of a row: its numeric `delay_days`, or NA. */
  function Delay(row: Record): Option<int> {
    match Get(row, "delay_days")
    case JNum(n) => Some(n)
    case _ => None
  }

  /** The deduplication key of a row; NA values compare equal to each other. */
  function Ada(row: Record): Json {
    Get(row, "ada")
  }

  const OutlierColumns: seq<string> := [
    "ada", "organizationUid", "organizationName", "decisionTypeUid", "issueDate",
    "submissionTimestamp", "documentUrl", "delay_days", "subject"
  ]

  const SlowestColumns: seq<string> := [
    "ada", "organizationUid", "organizationName", "organizationLabel", "decisionTypeUid",
    "issueDate", "submissionTimestamp", "documentUrl", "delay_days", "subject"
  ]

  /** A row restricted to the listed columns that it holds. */
  function Select(row: Record, columns: seq<string>): (r: Record)
    ensures forall k :: k in r <==> k in row && k in columns
    ensures forall k :: k in r ==> r[k] == row[k]
  {
    map k | k in row && k in columns :: row[k]
  }

  function Project(rows: seq<Record>, columns: seq<string>): (r: seq<Record>)
    ensures |r| == |rows|
    ensures forall i :: 0 <= i < |r| ==> r[i] == Select(rows[i], columns)
  {
    seq(|rows|, i requires 0 <= i < |rows| => Select(rows[i], columns))
  }

  /** Sort by delay (descending, NA last), keep the first row of each `ada`,
      keep the listed columns, take the first `limit` rows. */
  function SlowestRows(rows: seq<Record>, columns: seq<string>, limit: int): seq<Record> {
    Project(TopDistinct(rows, Delay, Ada, limit), columns)
  }

  /** `x` carries the largest delay among the rows of its `ada`. */
  ghost predicate SlowestOfAda(x: Record, rows: seq<Record>) {
    forall y :: y in rows && Ada(y) == Ada(x) ==> KeyGe(Delay(x), Delay(y))
  }

  /** Each row of the table is a row of the frame, restricted to `columns`,
      and the slowest of its `ada`. */
  ghost predicate FromFrame(r: seq<Record>, rows: seq<Record>, columns: seq<string>) {
    forall i :: 0 <= i < |r| ==> exists x :: x in rows && r[i] == Select(x, columns) && SlowestOfAda(x, rows)
  }

  /** No `ada` twice, delays non-increasing (no order among equal delays). */
  ghost predicate DistinctByDelay(r: seq<Record>) {
    forall i, j :: 0 <= i < j < |r| ==> Ada(r[i]) != Ada(r[j]) && KeyGe(Delay(r[i]), Delay(r[j]))
  }

  /** An `ada` of the frame is missing only when the table holds `limit`
      rows, each at least as slow as every row of that `ada`. */
  ghost predicate TopComplete(r: seq<Record>, rows: seq<Record>, limit: int) {
    forall y :: y in rows && (forall i :: 0 <= i < |r| ==> Ada(r[i]) != Ada(y)) ==>
      |r| == limit && forall i :: 0 <= i < |r| ==> KeyGe(Delay(r[i]), Delay(y))
  }

  /** What the slowest-rows table promises about a frame. */
  ghost predicate TopByDelay(r: seq<Record>, rows: seq<Record>, columns: seq<string>, limit: int) {
    && (limit >= 0 ==> |r| <= limit && TopComplete(r, rows, limit))
    && FromFrame(r, rows, columns)
    && DistinctByDelay(r)
  }

  lemma SlowestRowsSpec(rows: seq<Record>, columns: seq<string>, limit: int)
    requires "ada" in columns && "delay_days" in columns
    ensures TopByDelay(SlowestRows(rows, columns, limit), rows, columns, limit)
  {
    var top := TopDistinct(rows, Delay, Ada, limit);
    var r := SlowestRows(rows, columns, limit);
    TopDistinctShape(rows, Delay, Ada, limit);
    assert forall i :: 0 <= i < |r| ==> Ada(r[i]) == Ada(top[i]) && Delay(r[i]) == Delay(top[i]) by {
      forall i | 0 <= i < |r| ensures Ada(r[i]) == Ada(top[i]) && Delay(r[i]) == Delay(top[i]) {
        assert r[i] == Select(top[i], columns);
      }
    }
    assert FromFrame(r, rows, columns) by {
      forall i | 0 <= i < |r|
        ensures exists x :: x in rows && r[i] == Select(x, columns) && SlowestOfAda(x, rows)
      {
        assert top[i] in rows && r[i] == Select(top[i], columns) && SlowestOfAda(top[i], rows);
      }
    }
    assert DistinctByDelay(r);
    if limit >= 0 {
      assert TopComplete(r, rows, limit) by {
        forall y | y in rows && (forall i :: 0 <= i < |r| ==> Ada(r[i]) != Ada(y))
          ensures |r| == limit && forall i :: 0 <= i < |r| ==> KeyGe(Delay(r[i]), Delay(y))
        {
          TopDistinctComplete(rows, Delay, Ada, limit, y);
        }
      }
    }
  }

  /** `compute_outliers`: the ten slowest distinct decisions of the month.
      The source raises when a non-empty frame lacks `delay_days` or `ada`. */
  function ComputeOutliers(rows: seq<Record>): (r: seq<Record>)
    requires !FrameEmpty(rows) ==> HasColumn(rows, "delay_days") && HasColumn(rows, "ada")
    ensures FrameEmpty(rows) ==> r == []
    ensures !FrameEmpty(rows) ==> TopByDelay(r, rows, OutlierColumns, 10)
  {
    if FrameEmpty(rows) then []
    else
      SlowestRowsSpec(rows, OutlierColumns, 10);
      SlowestRows(rows, OutlierColumns, 10)
  }

  /** `slowest_decisions`: the `limit` slowest distinct decisions; no table
      without a `delay_days` column. Deduplication needs the `ada` column. */
  function SlowestDecisions(rows: seq<Record>, limit: int): (r: seq<Record>)
    requires !FrameEmpty(rows) && HasColumn(rows, "delay_days") ==> HasColumn(rows, "ada")
    ensures FrameEmpty(rows) || !HasColumn(rows, "delay_days") ==> r == []
    ensures !FrameEmpty(rows) && HasColumn(rows, "delay_days") ==> TopByDelay(r, rows, SlowestColumns, limit)
  {
    if FrameEmpty(rows) || !HasColumn(rows, "delay_days") then []
    else
      SlowestRowsSpec(rows, SlowestColumns, limit);
      SlowestRows(rows, SlowestColumns, limit)
  }

  // ---------------------------------------------------------------------
  // Decision-type mix (`compute_mix`, `build_mix`)
  // ---------------------------------------------------------------------

  /** The built-in decision-type labels. */
  const DecisionLabels: map<string, string> := map[
    "Α.1" := "Regulatory act",
    "Α.2" := "Internal regulation",
    "Β.1.1" := "Budget commitment",
    "Β.1.2" := "Budget amendment",
    "Β.1.3" := "Payment warrant",
    "Β.2.1" := "Expenditure approval",
    "Β.2.2" := "Payment finalization",
    "Γ.2" := "Personnel change",
    "Δ.1" := "Procurement assignment",
    "Δ.2.2" := "Contract award",
    "2.4.7.1" := "Other administrative act"
  ]

  datatype MixEntry = MixEntry(code: Json, name: string, share: real)

  /** The non-NA `decisionTypeUid` values of the frame, in row order. */
  function Codes(rows: seq<Record>): (cs: seq<Json>)
    ensures forall c :: c in cs <==> c != JNull && exists row :: row in rows && Get(row, "decisionTypeUid") == c
  {
    if rows == [] then []
    else
      var c := Get(rows[0], "decisionTypeUid");
      (if c == JNull then [] else [c]) + Codes(rows[1..])
  }

  /** How often a code occurs among the codes. */
  function Freq(cs: seq<Json>, c: Json): nat {
    multiset(cs)[c]
  }

  function FreqOf(cs: seq<Json>): Json -> Option<int> {
    c => Some(Freq(cs, c))
  }

  function Identity(j: Json): Json {
    j
  }

  /** `labels.get(code, "")`. */
  function LabelOf(labels: map<string, string>, code: Json): (r: string)
    ensures code.JStr? && code.s in labels ==> r == labels[code.s]
    ensures !(code.JStr? && code.s in labels) ==> r == ""
  {
    if code.JStr? && code.s in labels then labels[code.s] else ""
  }

  /** `value_counts(normalize=True).head(limit) * 100` over the non-NA codes,
      labelled: the most frequent codes first, each with its share. */
  function Ranked(cs: seq<Json>, labels: map<string, string>, limit: int): seq<MixEntry> {
    if cs == [] then []
    else
      var top := TopDistinct(cs, FreqOf(cs), Identity, limit);
      seq(|top|, i requires 0 <= i < |top| => MixEntry(top[i], LabelOf(labels, top[i]), Percent(Freq(cs, top[i]), |cs|)))
  }

  /** The mix is computed only for a non-empty frame with the column. */
  predicate MixApplies(rows: seq<Record>) {
    !FrameEmpty(rows) && HasColumn(rows, "decisionTypeUid")
  }

  /** The mix of a frame; none without a `decisionTypeUid` column. */
  function Mix(rows: seq<Record>, labels: map<string, string>, limit: int): seq<MixEntry> {
    if !MixApplies(rows) then [] else Ranked(Codes(rows), labels, limit)
  }

  /** `compute_mix`: the five most frequent types with the labels given. */
  function ComputeMix(rows: seq<Record>, labels: map<string, string>): seq<MixEntry> {
    Mix(rows, labels, 5)
  }

  /** `build_mix`: the `limit` most frequent types with the built-in labels. */
  function BuildMix(rows: seq<Record>, limit: int): seq<MixEntry> {
    Mix(rows, DecisionLabels, limit)
  }

  lemma PercentMonotone(a: nat, b: nat, m: nat)
    requires m > 0 && a >= b
    ensures Percent(a, m) >= Percent(b, m)
  {
    DivMonotone((b as real) * 100.0, (a as real) * 100.0, m as real);
  }

  lemma RankedEntries(cs: seq<Json>, labels: map<string, string>, limit: int)
    requires cs != []
    ensures var r := Ranked(cs, labels, limit); var top := TopDistinct(cs, FreqOf(cs), Identity, limit);
      |r| == |top| && forall i :: 0 <= i < |r| ==>
        r[i] == MixEntry(top[i], LabelOf(labels, top[i]), Percent(Freq(cs, top[i]), |cs|))
  {
  }

  /** A ranking of codes: distinct codes of the list, each with its label
      and its share, most frequent first, at most `limit` of them. */
  ghost predicate RankingOf(r: seq<MixEntry>, cs: seq<Json>, labels: map<string, string>, limit: int) {
    && (limit >= 0 ==> |r| <= limit)
    && (forall i :: 0 <= i < |r| ==>
          && r[i].code in cs
          && r[i].name == LabelOf(labels, r[i].code)
          && r[i].share == Percent(Freq(cs, r[i].code), |cs|))
    && (forall i, j :: 0 <= i < j < |r| ==>
          && r[i].code != r[j].code
          && Freq(cs, r[i].code) >= Freq(cs, r[j].code)
          && r[i].share >= r[j].share)
  }

  /** Top-k: a code of the list is missing from the ranking only when `limit`
      entries were listed, each at least as frequent as the missing code. */
  ghost predicate TopK(r: seq<MixEntry>, cs: seq<Json>, limit: int) {
    limit >= 0 ==>
      forall c :: c in cs && (forall i :: 0 <= i < |r| ==> r[i].code != c) ==>
        |r| == limit && forall i :: 0 <= i < |r| ==> Freq(cs, r[i].code) >= Freq(cs, c)
  }

  /** The ranked codes form a ranking of the list. */
  lemma RankedShape(cs: seq<Json>, labels: map<string, string>, limit: int)
    ensures RankingOf(Ranked(cs, labels, limit), cs, labels, limit)
  {
    if cs != [] {
      var r := Ranked(cs, labels, limit);
      var top := TopDistinct(cs, FreqOf(cs), Identity, limit);
      RankedEntries(cs, labels, limit);
      TopDistinctShape(cs, FreqOf(cs), Identity, limit);
      forall i | 0 <= i < |r|
        ensures r[i].code in cs && r[i].name == LabelOf(labels, r[i].code)
        ensures r[i].share == Percent(Freq(cs, r[i].code), |cs|)
      {
        assert r[i].code == top[i];
      }
      forall i, j | 0 <= i < j < |r|
        ensures r[i].code != r[j].code && Freq(cs, r[i].code) >= Freq(cs, r[j].code)
        ensures r[i].share >= r[j].share
      {
        assert r[i].code == top[i] && r[j].code == top[j];
        assert Identity(top[i]) != Identity(top[j]);
        assert KeyGe(FreqOf(cs)(top[i]), FreqOf(cs)(top[j]));
        PercentMonotone(Freq(cs, top[i]), Freq(cs, top[j]), |cs|);
      }
    }
  }

  /** A code of the list missing from the ranking is outranked by `limit`
      listed entries. */
  lemma RankedComplete(cs: seq<Json>, labels: map<string, string>, limit: int, c: Json)
    requires limit >= 0 && c in cs
    requires var r := Ranked(cs, labels, limit); forall i :: 0 <= i < |r| ==> r[i].code != c
    ensures var r := Ranked(cs, labels, limit);
      |r| == limit && forall i :: 0 <= i < |r| ==> Freq(cs, r[i].code) >= Freq(cs, c)
  {
    var r := Ranked(cs, labels, limit);
    var top := TopDistinct(cs, FreqOf(cs), Identity, limit);
    RankedEntries(cs, labels, limit);
    assert forall i :: 0 <= i < |top| ==> Identity(top[i]) != Identity(c) by {
      forall i | 0 <= i < |top| ensures Identity(top[i]) != Identity(c) {
        assert r[i].code == top[i];
      }
    }
    TopDistinctComplete(cs, FreqOf(cs), Identity, limit, c);
    forall i | 0 <= i < |r| ensures Freq(cs, r[i].code) >= Freq(cs, c) {
      assert r[i].code == top[i];
      assert KeyGe(FreqOf(cs)(top[i]), FreqOf(cs)(c));
    }
  }

  /** The ranking of a list is complete in the top-k sense. */
  lemma RankedTopK(cs: seq<Json>, labels: map<string, string>, limit: int)
    ensures TopK(Ranked(cs, labels, limit), cs, limit)
  {
    var r := Ranked(cs, labels, limit);
    if limit >= 0 {
      forall c | c in cs && (forall i :: 0 <= i < |r| ==> r[i].code != c)
        ensures |r| == limit && forall i :: 0 <= i < |r| ==> Freq(cs, r[i].code) >= Freq(cs, c)
      {
        RankedComplete(cs, labels, limit, c);
      }
    }
  }

  /** The mix of a frame: nothing for an empty frame or one without the
      column; otherwise the top-k ranking of its non-NA codes. */
  lemma MixSpec(rows: seq<Record>, labels: map<string, string>, limit: int)
    ensures var r := Mix(rows, labels, limit);
      && (!MixApplies(rows) ==> r == [])
      && RankingOf(r, Codes(rows), labels, limit)
      && (MixApplies(rows) ==> TopK(r, Codes(rows), limit))
  {
    var cs := Codes(rows);
    if MixApplies(rows) {
      RankedShape(cs, labels, limit);
      RankedTopK(cs, labels, limit);
    }
  }

  /** With the built-in labels, an entry's label is empty exactly when its
      code is not a key of the label table. */
  lemma BuildMixLabels(rows: seq<Record>, limit: int)
    ensures var r := BuildMix(rows, limit);
      && (limit >= 0 ==> |r| <= limit)
      && forall i :: 0 <= i < |r| ==>
           (r[i].name == "" <==> !(r[i].code.JStr? && r[i].code.s in DecisionLabels))
  {
    var r := BuildMix(rows, limit);
    MixSpec(rows, DecisionLabels, limit);
    LabelsNonEmpty();
    forall i | 0 <= i < |r|
      ensures r[i].name == "" <==> !(r[i].code.JStr? && r[i].code.s in DecisionLabels)
    {
      assert r[i].name == LabelOf(DecisionLabels, r[i].code);
    }
  }

  /** No built-in label is empty. */
  lemma LabelsNonEmpty()
    ensures forall k :: k in DecisionLabels ==> DecisionLabels[k] != ""
  {
  }

  // ---------------------------------------------------------------------
  // Monthly counts (`compute_recent_months`, `compute_trend_stats`)
  // ---------------------------------------------------------------------

  predicate Increasing(s: seq<int>) {
    forall i, j :: 0 <= i < j < |s| ==> s[i] < s[j]
  }

  /** A month index in a strictly increasing list of distinct months. */
  function InsertMonth(s: seq<int>, m: int): (r: seq<int>)
    requires Increasing(s)
    ensures Increasing(r)
    ensures forall x :: x in r <==> x in s || x == m
  {
    if s == [] then [m]
    else if m < s[0] then [m] + s
    else if m == s[0] then s
    else
      IncreasingTail(s);
      var rest := InsertMonth(s[1..], m);
      IncreasingCons(s[0], rest);
      [s[0]] + rest
  }

  /** The tail of an increasing list is increasing and above its head. */
  lemma IncreasingTail(s: seq<int>)
    requires Increasing(s) && s != []
    ensures Increasing(s[1..]) && forall x :: x in s[1..] ==> s[0] < x
  {
    forall x | x in s[1..] ensures s[0] < x {
      var k :| 0 <= k < |s[1..]| && s[1..][k] == x;
      assert s[k + 1] == x;
    }
  }

  /** A head below every element of an increasing list keeps it increasing. */
  lemma IncreasingCons(x: int, s: seq<int>)
    requires Increasing(s) && forall y :: y in s ==> x < y
    ensures Increasing([x] + s)
  {
    forall i, j | 0 <= i < j < |[x] + s| ensures ([x] + s)[i] < ([x] + s)[j] {
      assert ([x] + s)[j] == s[j - 1];
      if i > 0 {
        assert ([x] + s)[i] == s[i - 1];
      } else {
        assert s[j - 1] in s;
      }
    }
  }

  /** Whether some row falls in month `x`. */
  predicate HasMonth(rows: seq<Record>, month: Record -> Option<int>, x: int) {
    exists row :: row in rows && month(row) == Some(x)
  }

  /** The months that occur in the frame, oldest first (the sorted group keys;
      rows without a parsed date form no group). */
  function MonthsOf(rows: seq<Record>, month: Record -> Option<int>): (ms: seq<int>)
    ensures Increasing(ms)
  {
    if rows == [] then []
    else
      var rest := MonthsOf(rows[1..], month);
      match month(rows[0])
      case None => rest
      case Some(m) => InsertMonth(rest, m)
  }

  /** The month list holds exactly the months of the frame's rows. */
  lemma {:induction false} MonthsOfMembers(rows: seq<Record>, month: Record -> Option<int>)
    ensures forall x :: x in MonthsOf(rows, month) <==> HasMonth(rows, month, x)
  {
    if rows != [] {
      MonthsOfMembers(rows[1..], month);
      forall x ensures HasMonth(rows, month, x) <==> month(rows[0]) == Some(x) || HasMonth(rows[1..], month, x) {
        if HasMonth(rows, month, x) {
          var row :| row in rows && month(row) == Some(x);
          if row != rows[0] {
            assert row in rows[1..];
          }
        }
        if HasMonth(rows[1..], month, x) {
          var row :| row in rows[1..] && month(row) == Some(x);
          assert row in rows;
        }
      }
    }
  }

  /** `count("ada")` of one month group: rows of the month with a non-NA `ada`. */
  function MonthCount(rows: seq<Record>, month: Record -> Option<int>, m: int): (n: nat)
    ensures n <= |rows|
  {
    if rows == [] then 0
    else (if month(rows[0]) == Some(m) && Ada(rows[0]) != JNull then 1 else 0) + MonthCount(rows[1..], month, m)
  }

  /** The `count` column of the month groups, oldest month first. */
  function MonthlyCounts(rows: seq<Record>, month: Record -> Option<int>): (cs: seq<nat>)
    ensures var ms := MonthsOf(rows, month);
      |cs| == |ms| && forall i :: 0 <= i < |cs| ==> cs[i] == MonthCount(rows, month, ms[i])
  {
    var ms := MonthsOf(rows, month);
    seq(|ms|, i requires 0 <= i < |ms| => MonthCount(rows, month, ms[i]))
  }

  /** `tail(n)`: the last `n` elements, or all of them. */
  function Tail<T>(s: seq<T>, n: nat): (r: seq<T>)
    ensures |r| == Min(n, |s|)
    ensures forall i :: 0 <= i < |r| ==> r[i] == s[|s| - |r| + i]
  {
    s[|s| - Min(n, |s|)..]
  }

  function Min(a: int, b: int): int {
    if a < b then a else b
  }

  /** The month groups, oldest first, each with its `count("ada")`. */
  function MonthGroups(rows: seq<Record>, month: Record -> Option<int>): (g: seq<(int, nat)>)
    ensures var ms := MonthsOf(rows, month);
      |g| == |ms| && forall i :: 0 <= i < |g| ==> g[i] == (ms[i], MonthCount(rows, month, ms[i]))
  {
    var ms := MonthsOf(rows, month);
    seq(|ms|, i requires 0 <= i < |ms| => (ms[i], MonthCount(rows, month, ms[i])))
  }

  /** `compute_recent_months`: the last six month groups. */
  function RecentMonths(rows: seq<Record>, month: Record -> Option<int>): seq<(int, nat)>
    requires !FrameEmpty(rows) ==> HasColumn(rows, "ada")
  {
    if FrameEmpty(rows) then [] else Tail(MonthGroups(rows, month), 6)
  }

  /** Every month strictly later than the `i`-th present month is one of the
      months listed after it: the `i`-th entry has exactly
      `|ms| - 1 - i` later months. */
  lemma MonthRank(rows: seq<Record>, month: Record -> Option<int>, i: int)
    requires 0 <= i < |MonthsOf(rows, month)|
    ensures var ms := MonthsOf(rows, month);
      forall x :: HasMonth(rows, month, x) && x > ms[i] <==> x in ms[i + 1..]
  {
    var ms := MonthsOf(rows, month);
    MonthsOfMembers(rows, month);
    forall x ensures HasMonth(rows, month, x) && x > ms[i] <==> x in ms[i + 1..] {
      if x in ms[i + 1..] {
        var k :| i + 1 <= k < |ms| && ms[k] == x;
        assert x in ms;
      }
      if HasMonth(rows, month, x) && x > ms[i] {
        var k :| 0 <= k < |ms| && ms[k] == x;
        assert k > i;
        assert ms[k] == ms[i + 1..][k - (i + 1)];
      }
    }
  }

  /** The recent months are the last six months present, oldest first, each
      with its count; none for an empty frame. */
  lemma RecentMonthsSpec(rows: seq<Record>, month: Record -> Option<int>)
    requires !FrameEmpty(rows) ==> HasColumn(rows, "ada")
    ensures var r := RecentMonths(rows, month); var ms := MonthsOf(rows, month);
      && (FrameEmpty(rows) ==> r == [])
      && (!FrameEmpty(rows) ==> |r| == Min(6, |ms|))
      && (!FrameEmpty(rows) ==> forall i :: 0 <= i < |r| ==>
            r[i] == (ms[|ms| - |r| + i], MonthCount(rows, month, ms[|ms| - |r| + i])))
  {
    if !FrameEmpty(rows) {
      var ms := MonthsOf(rows, month);
      var g := MonthGroups(rows, month);
      var r := RecentMonths(rows, month);
      assert r == Tail(g, 6);
      forall i | 0 <= i < |r|
        ensures r[i] == (ms[|ms| - |r| + i], MonthCount(rows, month, ms[|ms| - |r| + i]))
      {
        assert r[i] == g[|g| - |r| + i];
      }
    }
  }

  function Sum(xs: seq<nat>): nat {
    if xs == [] then 0 else xs[0] + Sum(xs[1..])
  }

  /** `int(mean)` of a list of counts, 0 for none. */
  function Mean(xs: seq<nat>): nat {
    if |xs| == 0 then 0 else Sum(xs) / |xs|
  }

  lemma MulLe(a: int, b: int, n: nat)
    requires a <= b
    ensures a * n <= b * n
  {
  }

  lemma MulSucc(a: int, n: int)
    ensures (a + 1) * n == a * n + n
  {
  }

  lemma DivBounds(s: nat, n: nat)
    requires n > 0
    ensures (s / n) * n <= s < (s / n + 1) * n
  {
    MulSucc(s / n, n);
  }

  lemma {:induction false} SumBounds(xs: seq<nat>, lo: nat, hi: nat)
    requires forall i :: 0 <= i < |xs| ==> lo <= xs[i] <= hi
    ensures |xs| * lo <= Sum(xs) <= |xs| * hi
  {
    if xs != [] {
      var n := |xs| - 1;
      assert |xs[1..]| == n;
      SumBounds(xs[1..], lo, hi);
      assert Sum(xs) == xs[0] + Sum(xs[1..]);
      MulSucc(n, lo);
      MulSucc(n, hi);
    }
  }

  /** `a` is the integer quotient of `s` by `n`. */
  predicate FloorMean(a: nat, s: nat, n: nat) {
    a * n <= s < (a + 1) * n
  }

  /** The truncated mean of counts lies between their least and greatest,
      and it is the integer quotient of their sum by their number. */
  lemma MeanBounds(xs: seq<nat>, lo: nat, hi: nat)
    requires xs != [] && forall i :: 0 <= i < |xs| ==> lo <= xs[i] <= hi
    ensures lo <= Mean(xs) <= hi
    ensures FloorMean(Mean(xs), Sum(xs), |xs|)
  {
    SumBounds(xs, lo, hi);
    var n := |xs|;
    var s := Sum(xs);
    var q := s / n;
    assert q == Mean(xs);
    DivBounds(s, n);
    if q < lo {
      MulLe(q + 1, lo, n);
      assert false;
    }
    if q > hi {
      MulLe(hi + 1, q, n);
      MulSucc(hi, n);
      assert false;
    }
  }

  datatype TrendCounts = TrendCounts(avg6: nat, avg12: nat, m1: nat, m2: nat, m3: nat)

  /** `rel(index, "count")`: the count `index + 2` places from the end of
      the last four months, or 0. */
  function Rel(tail: seq<nat>, index: nat): nat {
    if |tail| >= index + 2 then tail[|tail| - (index + 2)] else 0
  }

  /** `compute_trend_stats`, the count half: nothing for an empty frame. */
  function TrendStats(rows: seq<Record>, month: Record -> Option<int>): Option<TrendCounts>
    requires !FrameEmpty(rows) ==> HasColumn(rows, "ada")
  {
    if FrameEmpty(rows) then None
    else
      var counts := MonthlyCounts(rows, month);
      var tail := Tail(counts, 4);
      Some(TrendCounts(Mean(Tail(counts, 6)), Mean(Tail(counts, 12)), Rel(tail, 0), Rel(tail, 1), Rel(tail, 2)))
  }

  /** Looking back within the last four months reaches the whole list for
      the second to fourth most recent entries. */
  lemma RelOfTail(counts: seq<nat>, index: nat)
    requires index <= 2
    ensures Rel(Tail(counts, 4), index) == if |counts| >= index + 2 then counts[|counts| - (index + 2)] else 0
  {
    var tail := Tail(counts, 4);
    if |counts| >= index + 2 {
      assert tail[|tail| - (index + 2)] == counts[|counts| - |tail| + |tail| - (index + 2)];
    }
  }

  /** `m1`, `m2`, `m3` are the counts of the second, third and fourth most
      recent months present, or 0 when there are fewer months. */
  lemma TrendLookback(rows: seq<Record>, month: Record -> Option<int>)
    requires !FrameEmpty(rows) && HasColumn(rows, "ada")
    ensures var t := TrendStats(rows, month); var ms := MonthsOf(rows, month);
      && t.Some?
      && t.value.m1 == (if |ms| >= 2 then MonthCount(rows, month, ms[|ms| - 2]) else 0)
      && t.value.m2 == (if |ms| >= 3 then MonthCount(rows, month, ms[|ms| - 3]) else 0)
      && t.value.m3 == (if |ms| >= 4 then MonthCount(rows, month, ms[|ms| - 4]) else 0)
  {
    var counts := MonthlyCounts(rows, month);
    var t := TrendStats(rows, month).value;
    assert t.m1 == Rel(Tail(counts, 4), 0) && t.m2 == Rel(Tail(counts, 4), 1) && t.m3 == Rel(Tail(counts, 4), 2);
    RelOfTail(counts, 0);
    RelOfTail(counts, 1);
    RelOfTail(counts, 2);
  }

  /** The truncated mean of the last `n` counts lies within the counts'
      bounds and is the quotient of their sum by their number. */
  lemma TailMean(counts: seq<nat>, n: nat, lo: nat, hi: nat)
    requires n > 0 && counts != []
    requires forall i :: 0 <= i < |counts| ==> lo <= counts[i] <= hi
    ensures var t := Tail(counts, n);
      lo <= Mean(t) <= hi && FloorMean(Mean(t), Sum(t), Min(n, |counts|))
  {
    var t := Tail(counts, n);
    forall i | 0 <= i < |t| ensures lo <= t[i] <= hi {
      assert t[i] == counts[|counts| - |t| + i];
    }
    MeanBounds(t, lo, hi);
  }

  /** The counts of the last `n` months present, summed. */
  function SumLast(rows: seq<Record>, month: Record -> Option<int>, n: nat): nat {
    Sum(Tail(MonthlyCounts(rows, month), n))
  }

  /** `avg6` and `avg12` are the truncated means of the counts of the last 6
      and 12 months present (0 when none), so they lie within those counts. */
  lemma TrendAverages(rows: seq<Record>, month: Record -> Option<int>, lo: nat, hi: nat)
    requires !FrameEmpty(rows) && HasColumn(rows, "ada")
    requires forall x :: HasMonth(rows, month, x) ==> lo <= MonthCount(rows, month, x) <= hi
    ensures var t := TrendStats(rows, month); var ms := MonthsOf(rows, month);
      && t.Some?
      && (ms == [] ==> t.value.avg6 == 0 && t.value.avg12 == 0)
      && (ms != [] ==> lo <= t.value.avg6 <= hi && lo <= t.value.avg12 <= hi)
      && (ms != [] ==> FloorMean(t.value.avg6, SumLast(rows, month, 6), Min(6, |ms|)))
      && (ms != [] ==> FloorMean(t.value.avg12, SumLast(rows, month, 12), Min(12, |ms|)))
  {
    var ms := MonthsOf(rows, month);
    var counts := MonthlyCounts(rows, month);
    var t := TrendStats(rows, month).value;
    assert t.avg6 == Mean(Tail(counts, 6)) && t.avg12 == Mean(Tail(counts, 12));
    if ms != [] {
      MonthsOfMembers(rows, month);
      forall i | 0 <= i < |counts| ensures lo <= counts[i] <= hi {
        assert ms[i] in ms;
      }
      TailMean(counts, 6, lo, hi);
      TailMean(counts, 12, lo, hi);
    }
  }

  // ---------------------------------------------------------------------
  // Regional totals (`compute_regional_trends`)
  // ---------------------------------------------------------------------

  function Region(row: Record): Json {
    Get(row, "region")
  }

  /** The rows whose month is at or after `cutoff`; rows without a month fail
      the comparison. */
  function Window(rows: seq<Record>, month: Record -> Option<int>, cutoff: int): (w: seq<Record>)
    ensures forall row :: row in w <==> row in rows && month(row).Some? && month(row).value >= cutoff
  {
    if rows == [] then []
    else
      var m := month(rows[0]);
      (if m.Some? && m.value >= cutoff then [rows[0]] else []) + Window(rows[1..], month, cutoff)
  }

  /** The non-NA region values of the rows, in row order. */
  function Regions(rows: seq<Record>): (gs: seq<Json>)
    ensures |gs| <= |rows|
  {
    if rows == [] then []
    else (if Region(rows[0]) == JNull then [] else [Region(rows[0])]) + Regions(rows[1..])
  }

  /** The region list holds exactly the non-NA regions of the rows. */
  lemma {:induction false} RegionsMembers(rows: seq<Record>)
    ensures forall g :: g in Regions(rows) <==> g != JNull && exists row :: row in rows && Region(row) == g
  {
    if rows != [] {
      RegionsMembers(rows[1..]);
      forall g | g != JNull && (exists row :: row in rows && Region(row) == g)
        ensures g in Regions(rows)
      {
        var row :| row in rows && Region(row) == g;
        if row != rows[0] {
          assert row in rows[1..];
        }
      }
      forall g | g in Regions(rows[1..]) ensures exists row :: row in rows && Region(row) == g {
        var row :| row in rows[1..] && Region(row) == g;
        assert row in rows;
      }
    }
  }

  /** The summed `count("ada")` of one region: its rows with a non-NA `ada`. */
  function RegionTotal(rows: seq<Record>, g: Json): (n: nat)
    ensures n <= |rows|
  {
    if rows == [] then 0
    else (if Region(rows[0]) == g && Ada(rows[0]) != JNull then 1 else 0) + RegionTotal(rows[1..], g)
  }

  function TotalOf(rows: seq<Record>): Json -> Option<int> {
    g => Some(RegionTotal(rows, g))
  }

  /** The first day of the trailing window of `months` months that ends with
      the latest month present. */
  function Cutoff(rows: seq<Record>, month: Record -> Option<int>, months: int): int
    requires MonthsOf(rows, month) != []
  {
    var ms := MonthsOf(rows, month);
    ms[|ms| - 1] - (months - 1)
  }

  /** The regions of the rows with their totals, largest total first
      (`groupby("region")`, summed counts, `sort_values` descending). */
  function RegionRanking(w: seq<Record>): seq<(Json, nat)> {
    var order := Dedup(SortDesc(Regions(w), TotalOf(w)), Identity);
    seq(|order|, i requires 0 <= i < |order| => (order[i], RegionTotal(w, order[i])))
  }

  /** The region summary of `compute_regional_trends`: each region of the
      trailing window with its decision total, largest first. */
  function RegionalTotals(rows: seq<Record>, month: Record -> Option<int>, months: int): seq<(Json, nat)>
    requires !FrameEmpty(rows) && MonthsOf(rows, month) != [] ==> HasColumn(rows, "ada")
  {
    if FrameEmpty(rows) || MonthsOf(rows, month) == [] then []
    else RegionRanking(Window(rows, month, Cutoff(rows, month, months)))
  }

  /** Every region of the rows appears exactly once, with its total, and the
      totals never increase down the list. */
  lemma RegionRankingEntries(w: seq<Record>)
    ensures var r := RegionRanking(w); var order := Dedup(SortDesc(Regions(w), TotalOf(w)), Identity);
      |r| == |order| && forall i :: 0 <= i < |r| ==> r[i] == (order[i], RegionTotal(w, order[i]))
  {
  }

  lemma RegionRankingMembers(w: seq<Record>)
    ensures var r := RegionRanking(w);
      forall i :: 0 <= i < |r| ==> r[i].0 in Regions(w) && r[i].1 == RegionTotal(w, r[i].0)
  {
    var r := RegionRanking(w);
    var order := Dedup(SortDesc(Regions(w), TotalOf(w)), Identity);
    RegionRankingEntries(w);
    DedupSortedProps(Regions(w), TotalOf(w), Identity);
    forall i | 0 <= i < |r| ensures r[i].0 in Regions(w) && r[i].1 == RegionTotal(w, r[i].0) {
      assert r[i].0 == order[i];
    }
  }

  lemma RegionRankingOrder(w: seq<Record>)
    ensures var r := RegionRanking(w);
      forall i, j :: 0 <= i < j < |r| ==> r[i].0 != r[j].0 && r[i].1 >= r[j].1
  {
    var r := RegionRanking(w);
    var order := Dedup(SortDesc(Regions(w), TotalOf(w)), Identity);
    RegionRankingEntries(w);
    DedupSortedProps(Regions(w), TotalOf(w), Identity);
    forall i, j | 0 <= i < j < |r| ensures r[i].0 != r[j].0 && r[i].1 >= r[j].1 {
      assert r[i].0 == order[i] && r[j].0 == order[j];
      assert Identity(order[i]) != Identity(order[j]);
      assert KeyGe(TotalOf(w)(order[i]), TotalOf(w)(order[j]));
    }
  }

  lemma RegionRankingComplete(w: seq<Record>)
    ensures var r := RegionRanking(w);
      forall g :: g in Regions(w) ==> exists i :: 0 <= i < |r| && r[i].0 == g
  {
    var r := RegionRanking(w);
    var order := Dedup(SortDesc(Regions(w), TotalOf(w)), Identity);
    RegionRankingEntries(w);
    DedupSortedProps(Regions(w), TotalOf(w), Identity);
    forall g | g in Regions(w) ensures exists i :: 0 <= i < |r| && r[i].0 == g {
      var i :| 0 <= i < |order| && Identity(order[i]) == Identity(g);
      assert r[i].0 == g;
    }
  }

  /** The window ends at the latest month present. */
  lemma CutoffIsTrailing(rows: seq<Record>, month: Record -> Option<int>, months: int)
    requires MonthsOf(rows, month) != []
    ensures var end := Cutoff(rows, month, months) + (months - 1);
      HasMonth(rows, month, end) && forall x :: HasMonth(rows, month, x) ==> x <= end
  {
    var ms := MonthsOf(rows, month);
    MonthsOfMembers(rows, month);
    assert ms[|ms| - 1] in ms;
    forall x | HasMonth(rows, month, x) ensures x <= ms[|ms| - 1] {
      var k :| 0 <= k < |ms| && ms[k] == x;
    }
  }

  /** The summary lists every region of the window exactly once, with its
      total, largest totals first; nothing for an empty frame or a frame
      without a dated row. */
  lemma RegionalTotalsSpec(rows: seq<Record>, month: Record -> Option<int>, months: int)
    requires !FrameEmpty(rows) && MonthsOf(rows, month) != [] ==> HasColumn(rows, "ada")
    ensures var r := RegionalTotals(rows, month, months);
      && (FrameEmpty(rows) || MonthsOf(rows, month) == [] ==> r == [])
      && (!FrameEmpty(rows) && MonthsOf(rows, month) != [] ==>
            var w := Window(rows, month, Cutoff(rows, month, months));
            && (forall i :: 0 <= i < |r| ==> r[i].0 in Regions(w) && r[i].1 == RegionTotal(w, r[i].0))
            && (forall i, j :: 0 <= i < j < |r| ==> r[i].0 != r[j].0 && r[i].1 >= r[j].1)
            && (forall g :: g in Regions(w) ==> exists i :: 0 <= i < |r| && r[i].0 == g))
  {
    if !FrameEmpty(rows) && MonthsOf(rows, month) != [] {
      var w := Window(rows, month, Cutoff(rows, month, months));
      RegionRankingMembers(w);
      RegionRankingOrder(w);
      RegionRankingComplete(w);
    }
  }
}
