/** The Query Builders: the issue-date range query of the two digest scripts,
    and the filter queries of the two fetch scripts (organisation, decision
    type, keyword and a date range, joined with " AND ", or "*:*" when no
    filter is given). */
module Queries {
  import opened Common
  import opened Calendar

  /** Python's truth value of an optional string argument: None and "" are false. */
  predicate Given(s: Option<string>) {
    s.Some? && s.value != ""
  }

  /** `s or d` for an optional string argument. */
  function OrElse(s: Option<string>, d: string): (r: string)
    ensures Given(s) ==> r == s.value
    ensures !Given(s) ==> r == d
  {
    if Given(s) then s.value else d
  }

  const AndSep := " AND "
  const MatchAll := "*:*"

  function OrgClause(org: string): string {
    "organizationUid:\"" + org + "\""
  }

  function TypeClause(dtype: string): string {
    "type:\"" + dtype + "\""
  }

  function KeywordClause(keyword: string): string {
    "\"" + keyword + "\""
  }

  function RangeClause(field: string, left: string, right: string): string {
    field + ":[DT(" + left + ") TO DT(" + right + ")]"
  }

  // ---------------------------------------------------------------------------
  // The digest scripts: `_export_query` and the query of `fetch_range`

  /** The `issueDate` clause covering whole days from `from` to `to`. */
  function IssueRangeClause(from: Date, to: Date): string
    requires ValidDate(from) && ValidDate(to)
  {
    RangeClause("issueDate", IsoDate(from) + "T00:00:00", IsoDate(to) + "T23:59:59")
  }

  /** The date clause first, then the organisation clause when one is given. */
  function IssueRangeQuery(from: Date, to: Date, org: Option<string>): (q: string)
    requires ValidDate(from) && ValidDate(to)
    ensures !Given(org) ==> q == IssueRangeClause(from, to)
    ensures Given(org) ==> q == IssueRangeClause(from, to) + AndSep + OrgClause(org.value)
  {
    Join([IssueRangeClause(from, to)] + (if Given(org) then [OrgClause(org.value)] else []), AndSep)
  }

  // ---------------------------------------------------------------------------
  // The fetch scripts: `build_query`

  function OrgPart(org: Option<string>): seq<string> {
    if Given(org) then [OrgClause(org.value)] else []
  }

  function TypePart(dtype: Option<string>): seq<string> {
    if Given(dtype) then [TypeClause(dtype.value)] else []
  }

  function KeywordPart(keyword: Option<string>): seq<string> {
    if Given(keyword) then [KeywordClause(keyword.value)] else []
  }

  function DatePart(dateClause: Option<string>): seq<string> {
    if dateClause.Some? then [dateClause.value] else []
  }

  /** The clauses of a filter query in the order both builders append them. */
  function FilterClauses(org: Option<string>, dtype: Option<string>, keyword: Option<string>,
                         dateClause: Option<string>): seq<string>
  {
    OrgPart(org) + TypePart(dtype) + KeywordPart(keyword) + DatePart(dateClause)
  }

  /** The clauses joined with " AND ", or "*:*" when there are none. */
  function Query(clauses: seq<string>): string {
    if clauses == [] then MatchAll else Join(clauses, AndSep)
  }

  /** Every clause either builder produces begins with a field name or a quote, never with '*'. */
  predicate IsFieldClause(c: string) {
    |c| > 0 && c[0] != '*'
  }

  lemma RangeClauseIsField(field: string, left: string, right: string)
    requires |field| > 0 && field[0] != '*'
    ensures IsFieldClause(RangeClause(field, left, right))
  {
    assert RangeClause(field, left, right)[0] == field[0];
  }

  /** A joined query is "*:*" only for an empty clause list, and otherwise begins
      with its first clause and ends with its last. */
  lemma QueryShape(cs: seq<string>)
    requires cs != [] ==> IsFieldClause(cs[0])
    ensures Query(cs) == MatchAll <==> cs == []
    ensures cs != [] ==> StartsWith(Query(cs), cs[0]) && EndsWith(Query(cs), cs[|cs| - 1])
  {
    if cs != [] {
      JoinStartsWithFirst(cs, AndSep);
      JoinEndsWithLast(cs, AndSep);
      assert Query(cs)[0] == cs[0][0];
    }
  }

  /** The clause list is empty exactly when no filter is given; the organisation
      clause comes first and the date clause last. */
  lemma FilterClausesOrder(org: Option<string>, dtype: Option<string>, keyword: Option<string>,
                           dateClause: Option<string>)
    requires dateClause.Some? ==> IsFieldClause(dateClause.value)
    ensures var cs := FilterClauses(org, dtype, keyword, dateClause);
      && (cs == [] <==> !(Given(org) || Given(dtype) || Given(keyword) || dateClause.Some?))
      && (cs != [] ==> IsFieldClause(cs[0]))
      && (Given(org) ==> cs[0] == OrgClause(org.value))
      && (dateClause.Some? ==> cs[|cs| - 1] == dateClause.value)
  {
  }

  /** A filter query is "*:*" exactly when no filter is given; otherwise it begins
      with the organisation clause when there is one and ends with the date
      clause when there is one. */
  lemma FilterQueryShape(org: Option<string>, dtype: Option<string>, keyword: Option<string>,
                         dateClause: Option<string>)
    requires dateClause.Some? ==> IsFieldClause(dateClause.value)
    ensures var q := Query(FilterClauses(org, dtype, keyword, dateClause));
      && (q == MatchAll <==> !(Given(org) || Given(dtype) || Given(keyword) || dateClause.Some?))
      && (Given(org) ==> StartsWith(q, OrgClause(org.value)))
      && (dateClause.Some? ==> EndsWith(q, dateClause.value))
  {
    FilterClausesOrder(org, dtype, keyword, dateClause);
    QueryShape(FilterClauses(org, dtype, keyword, dateClause));
  }

  // ---------------------------------------------------------------------------
  // `build_query` of `fetch_diavgeia_export.py`

  /** The command-line filters of `fetch_diavgeia_export.py`. */
  datatype ExportFilters = ExportFilters(org: Option<string>, dtype: Option<string>, keyword: Option<string>,
                                         dateFrom: Option<string>, dateTo: Option<string>)

  predicate HasDateBound(f: ExportFilters) {
    Given(f.dateFrom) || Given(f.dateTo)
  }

  /** `--date-field`: "publish" and "submission" select the timestamps, anything else `issueDate`. */
  function ExportDateField(dateField: string): string {
    if dateField == "publish" then "publishTimestamp"
    else if dateField == "submission" then "submissionTimestamp"
    else "issueDate"
  }

  /** The date clause, an open end filled with 1970-01-01 or 2099-12-31. */
  function ExportDateClause(f: ExportFilters, dateField: string): Option<string> {
    if HasDateBound(f) then
      Some(RangeClause(ExportDateField(dateField), OrElse(f.dateFrom, "1970-01-01") + "T00:00:00",
                       OrElse(f.dateTo, "2099-12-31") + "T23:59:59"))
    else None
  }

  function ExportQuery(f: ExportFilters, dateField: string): string {
    Query(FilterClauses(f.org, f.dtype, f.keyword, ExportDateClause(f, dateField)))
  }

  /** `build_query`: appends the clauses one by one to a list of parts. */
  method BuildExportQuery(f: ExportFilters, dateField: string) returns (q: string)
    ensures q == ExportQuery(f, dateField)
  {
    var parts: seq<string> := [];
    if Given(f.org) {
      parts := parts + [OrgClause(f.org.value)];
    }
    assert parts == OrgPart(f.org);
    if Given(f.dtype) {
      parts := parts + [TypeClause(f.dtype.value)];
    }
    assert parts == OrgPart(f.org) + TypePart(f.dtype);
    if Given(f.keyword) {
      parts := parts + [KeywordClause(f.keyword.value)];
    }
    assert parts == OrgPart(f.org) + TypePart(f.dtype) + KeywordPart(f.keyword);
    if HasDateBound(f) {
      var left := OrElse(f.dateFrom, "1970-01-01") + "T00:00:00";
      var right := OrElse(f.dateTo, "2099-12-31") + "T23:59:59";
      var field := if dateField == "publish" then "publishTimestamp"
                   else if dateField == "submission" then "submissionTimestamp"
                   else "issueDate";
      assert field == ExportDateField(dateField);
      parts := parts + [RangeClause(field, left, right)];
    }
    assert parts == FilterClauses(f.org, f.dtype, f.keyword, ExportDateClause(f, dateField));
    if parts != [] {
      q := Join(parts, AndSep);
    } else {
      q := MatchAll;
    }
  }



  // ---------------------------------------------------------------------------
  // `build_query` and `stamp` of `fetch_diavgeia.py`

  /** `f"{off[:-2]}:{off[-2:]}"` with Python's slice rules (a string shorter than
      two characters is all suffix). */
  function ColonOffset(off: string): string {
    if |off| >= 2 then off[..|off| - 2] + ":" + off[|off| - 2..] else ":" + off
  }

  /** The rewrite only inserts a colon: taking it out again gives back the offset. */
  lemma ColonOffsetInverse(off: string)
    ensures var r, i := ColonOffset(off), if |off| >= 2 then |off| - 2 else 0;
      |r| == |off| + 1 && r[i] == ':' && r[..i] + r[i + 1..] == off
  {
    var r := ColonOffset(off);
    if |off| >= 2 {
      var i := |off| - 2;
      assert r[..i] == off[..i];
      assert r[i + 1..] == off[i..];
    } else {
      assert r[1..] == off;
    }
  }

  /** An offset of the form "+HHMM" becomes "+HH:MM". */
  lemma ColonOffsetHours(off: string)
    requires |off| == 5
    ensures ColonOffset(off) == off[..3] + ":" + off[3..]
  {
  }

  /** `stamp(d, end)`: the local start (00:00:00) or end (23:59:59) of day `d`
      with its UTC offset, which `zone` gives in `%z` form; None without a date. */
  function Stamp(d: Option<Date>, end: bool, zone: (Date, bool) -> string): (r: Option<string>)
    requires d.Some? ==> ValidDate(d.value)
    ensures r.Some? <==> d.Some?
  {
    if d.None? then None
    else Some(IsoDate(d.value) + "T" + (if end then "23:59:59" else "00:00:00") + ColonOffset(zone(d.value, end)))
  }

  /** A stamp is the ISO date, "T", the time of day, and the offset with a colon
      inserted before its last two characters. */
  lemma StampShape(d: Date, end: bool, zone: (Date, bool) -> string)
    requires ValidDate(d)
    ensures var s := Stamp(Some(d), end, zone).value;
      var prefix := IsoDate(d) + "T" + (if end then "23:59:59" else "00:00:00");
      var off := zone(d, end);
      |s| == |prefix| + |off| + 1 && s[..|prefix|] == prefix
      && (|off| >= 2 ==> s[|prefix|..] == off[..|off| - 2] + ":" + off[|off| - 2..])
  {
    var prefix := IsoDate(d) + "T" + (if end then "23:59:59" else "00:00:00");
    assert Stamp(Some(d), end, zone).value == prefix + ColonOffset(zone(d, end));
  }

  /** The command-line filters of `fetch_diavgeia.py`; the dates are already parsed. */
  datatype SearchFilters = SearchFilters(org: Option<string>, dtype: Option<string>, keyword: Option<string>,
                                         dateFrom: Option<Date>, dateTo: Option<Date>)

  predicate ValidSearchDates(f: SearchFilters) {
    (f.dateFrom.Some? ==> ValidDate(f.dateFrom.value)) && (f.dateTo.Some? ==> ValidDate(f.dateTo.value))
  }

  const DefaultLeft := "1970-01-01T00:00:00+02:00"
  const DefaultRight := "2099-12-31T23:59:59+02:00"

  function OptOr(s: Option<string>, d: string): string {
    if s.Some? then s.value else d
  }

  /** The `submissionTimestamp` clause, an open end filled with a fixed +02:00 stamp. */
  function SearchDateClause(f: SearchFilters, zone: (Date, bool) -> string): Option<string>
    requires ValidSearchDates(f)
  {
    if f.dateFrom.Some? || f.dateTo.Some? then
      Some(RangeClause("submissionTimestamp", OptOr(Stamp(f.dateFrom, false, zone), DefaultLeft),
                       OptOr(Stamp(f.dateTo, true, zone), DefaultRight)))
    else None
  }

  function SearchQuery(f: SearchFilters, zone: (Date, bool) -> string): string
    requires ValidSearchDates(f)
  {
    Query(FilterClauses(f.org, f.dtype, f.keyword, SearchDateClause(f, zone)))
  }

  /** `build_query`: appends the clauses to a list of parts, and "*:*" to an empty list. */
  method BuildSearchQuery(f: SearchFilters, zone: (Date, bool) -> string) returns (q: string)
    requires ValidSearchDates(f)
    ensures q == SearchQuery(f, zone)
  {
    var parts: seq<string> := [];
    if Given(f.org) {
      parts := parts + [OrgClause(f.org.value)];
    }
    assert parts == OrgPart(f.org);
    if Given(f.dtype) {
      parts := parts + [TypeClause(f.dtype.value)];
    }
    assert parts == OrgPart(f.org) + TypePart(f.dtype);
    if Given(f.keyword) {
      parts := parts + [KeywordClause(f.keyword.value)];
    }
    assert parts == OrgPart(f.org) + TypePart(f.dtype) + KeywordPart(f.keyword);
    if f.dateFrom.Some? || f.dateTo.Some? {
      var left := OptOr(Stamp(f.dateFrom, false, zone), DefaultLeft);
      var right := OptOr(Stamp(f.dateTo, true, zone), DefaultRight);
      parts := parts + [RangeClause("submissionTimestamp", left, right)];
    }
    assert parts == FilterClauses(f.org, f.dtype, f.keyword, SearchDateClause(f, zone));
    if parts == [] {
      parts := parts + [MatchAll];
    }
    q := Join(parts, AndSep);
  }



  /** The export query is "*:*" exactly when no filter is given; otherwise it
      begins with the organisation clause when one is given and ends with the
      date range when a bound is given. */
  lemma ExportQueryShape(f: ExportFilters, dateField: string)
    ensures var q := ExportQuery(f, dateField);
      && (q == MatchAll <==> !(Given(f.org) || Given(f.dtype) || Given(f.keyword) || HasDateBound(f)))
      && (Given(f.org) ==> StartsWith(q, OrgClause(f.org.value)))
      && (HasDateBound(f) ==> EndsWith(q, ExportDateClause(f, dateField).value))
  {
    if HasDateBound(f) {
      RangeClauseIsField(ExportDateField(dateField), OrElse(f.dateFrom, "1970-01-01") + "T00:00:00",
                         OrElse(f.dateTo, "2099-12-31") + "T23:59:59");
    }
    FilterQueryShape(f.org, f.dtype, f.keyword, ExportDateClause(f, dateField));
  }

  /** The search query is "*:*" exactly when no filter is given; otherwise it
      begins with the organisation clause when one is given and ends with the
      `submissionTimestamp` range when a date is given. */
  lemma SearchQueryShape(f: SearchFilters, zone: (Date, bool) -> string)
    requires ValidSearchDates(f)
    ensures var q := SearchQuery(f, zone);
      && (q == MatchAll <==> !(Given(f.org) || Given(f.dtype) || Given(f.keyword) || f.dateFrom.Some? || f.dateTo.Some?))
      && (Given(f.org) ==> StartsWith(q, OrgClause(f.org.value)))
      && (f.dateFrom.Some? || f.dateTo.Some? ==> EndsWith(q, SearchDateClause(f, zone).value))
  {
    if f.dateFrom.Some? || f.dateTo.Some? {
      RangeClauseIsField("submissionTimestamp", OptOr(Stamp(f.dateFrom, false, zone), DefaultLeft),
                         OptOr(Stamp(f.dateTo, true, zone), DefaultRight));
    }
    FilterQueryShape(f.org, f.dtype, f.keyword, SearchDateClause(f, zone));
  }

  /** A missing start of the search range reads 1970-01-01T00:00:00+02:00 and a
      missing end 2099-12-31T23:59:59+02:00; a given one is its stamp. */
  lemma SearchDateDefaults(f: SearchFilters, zone: (Date, bool) -> string)
    requires ValidSearchDates(f) && (f.dateFrom.Some? || f.dateTo.Some?)
    ensures SearchDateClause(f, zone) == Some(RangeClause("submissionTimestamp",
      if f.dateFrom.None? then DefaultLeft else Stamp(f.dateFrom, false, zone).value,
      if f.dateTo.None? then DefaultRight else Stamp(f.dateTo, true, zone).value))
  {
  }
}
