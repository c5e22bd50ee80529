/** The region classifier of `diavgeia_monthly_digest.py`: canonical region
    names from free text (`normalize_region`), the region of one decision row
    (`infer_region`), the organisation-to-region table read from a CSV file
    (`load_region_mapping`, its per-row filter) and the region column
    (`enrich_regions`). Python's `str.upper` and `str.lower` on Greek text are
    parameters: the model does not fix a Unicode case mapping. */
module Regions {
  import opened Common
  import opened Records
  import opened Frames

  /** The region reported when nothing identifies one. */
  const Unknown: string := "Άγνωστη"

  /** `REGION_ALIASES` in its insertion order: (alias, canonical name). */
  const Aliases: seq<(string, string)> := [
    ("ΑΤΤΙΚΗ", "Αττική"),
    ("ΚΕΝΤΡΙΚΗ ΜΑΚΕΔΟΝΙΑ", "Κεντρική Μακεδονία"),
    ("ΔΥΤΙΚΗ ΜΑΚΕΔΟΝΙΑ", "Δυτική Μακεδονία"),
    ("ΔΥΤΙΚΗ ΕΛΛΑΔΑ", "Δυτική Ελλάδα"),
    ("ΑΝΑΤΟΛΙΚΗ ΜΑΚΕΔΟΝΙΑ ΚΑΙ ΘΡΑΚΗ", "Ανατολική Μακεδονία και Θράκη"),
    ("ΘΕΣΣΑΛΙΑ", "Θεσσαλία"),
    ("ΠΕΛΟΠΟΝΝΗΣΟΣ", "Πελοπόννησος"),
    ("ΗΠΕΙΡΟΣ", "Ήπειρος"),
    ("ΙΟΝΙΑ ΝΗΣΙΑ", "Ιόνια Νησιά"),
    ("ΝΟΤΙΟ ΑΙΓΑΙΟ", "Νότιο Αιγαίο"),
    ("ΒΟΡΕΙΟ ΑΙΓΑΙΟ", "Βόρειο Αιγαίο"),
    ("ΣΤΕΡΕΑ ΕΛΛΑΔΑ", "Στερεά Ελλάδα"),
    ("ΚΡΗΤΗ", "Κρήτη")
  ]
  const Keywords: seq<(string, string)> := [
    ("ΑΘΗΝ", "Αττική"),
    ("ΠΕΙΡ", "Αττική"),
    ("ΜΑΡΟΥΣΙ", "Αττική"),
    ("ΘΕΣΣΑΛΟΝΙΚ", "Κεντρική Μακεδονία"),
    ("ΣΕΡΡ", "Κεντρική Μακεδονία"),
    ("ΚΑΒΑΛ", "Ανατολική Μακεδονία και Θράκη"),
    ("ΚΟΜΟΤΗΝ", "Ανατολική Μακεδονία και Θράκη"),
    ("ΞΑΝΘ", "Ανατολική Μακεδονία και Θράκη"),
    ("ΠΑΤΡ", "Δυτική Ελλάδα"),
    ("ΑΓΡΙΝ", "Δυτική Ελλάδα"),
    ("ΙΩΑΝΝ", "Ήπειρος"),
    ("ΛΑΡΙΣ", "Θεσσαλία"),
    ("ΒΟΛ", "Θεσσαλία"),
    ("ΤΡΙΚ", "Θεσσαλία"),
    ("ΚΕΡΚΥΡ", "Ιόνια Νησιά"),
    ("ΖΑΚΥΝ", "Ιόνια Νησιά"),
    ("ΛΕΥΚΑΔ", "Ιόνια Νησιά"),
    ("ΡΟΔ", "Νότιο Αιγαίο"),
    ("ΣΥΡ", "Νότιο Αιγαίο"),
    ("ΚΩ", "Νότιο Αιγαίο"),
    ("ΜΥΤΙΛ", "Βόρειο Αιγαίο"),
    ("ΧΙ", "Βόρειο Αιγαίο"),
    ("ΗΡΑΚΛΕΙ", "Κρήτη"),
    ("ΧΑΝΙ", "Κρήτη"),
    ("ΡΕΘΥΜ", "Κρήτη"),
    ("ΛΑΣΙΘ", "Κρήτη"),
    ("ΤΡΙΠΟΛ", "Πελοπόννησος"),
    ("ΚΑΛΑΜΑΤ", "Πελοπόννησος"),
    ("ΚΟΡΙΝΘ", "Πελοπόννησος"),
    ("ΚΑΡΔΙΤ", "Θεσσαλία"),
    ("ΚΟΖΑΝ", "Δυτική Μακεδονία"),
    ("ΦΛΩΡΙΝ", "Δυτική Μακεδονία")
  ]

  /** A case mapping such as `str.upper` or `str.lower`. */
  type CaseMap = string -> string

  /** The value of the first entry of `table`, in table order, whose needle
      occurs in `hay`. */
  function FirstMatch(table: seq<(string, string)>, hay: string): (r: Option<string>)
    ensures r.Some? ==> exists i :: 0 <= i < |table| && r.value == table[i].1
  {
    if |table| == 0 then None
    else if Contains(table[0].0, hay) then Some(table[0].1)
    else FirstMatch(table[1..], hay)
  }

  /** Entry `i` is the first entry whose needle occurs in `hay`. */
  predicate FirstHitAt(table: seq<(string, string)>, hay: string, i: int) {
    0 <= i < |table| && Contains(table[i].0, hay)
    && forall j :: 0 <= j < i ==> !Contains(table[j].0, hay)
  }

  /** `FirstMatch` is the first-hit search: it finds the value of the first
      entry that matches, and nothing when no entry matches. */
  lemma {:induction false} FirstMatchIsFirstHit(table: seq<(string, string)>, hay: string)
    ensures FirstMatch(table, hay).None? <==> forall i :: 0 <= i < |table| ==> !Contains(table[i].0, hay)
    ensures forall i :: FirstHitAt(table, hay, i) ==> FirstMatch(table, hay) == Some(table[i].1)
  {
    if |table| > 0 && !Contains(table[0].0, hay) {
      FirstMatchIsFirstHit(table[1..], hay);
      forall i | FirstHitAt(table, hay, i)
        ensures FirstMatch(table, hay) == Some(table[i].1)
      {
        assert FirstHitAt(table[1..], hay, i - 1);
      }
      if forall i :: 0 <= i < |table[1..]| ==> !Contains(table[1..][i].0, hay) {
        forall i | 0 <= i < |table| ensures !Contains(table[i].0, hay) {
          if i > 0 {
            assert table[i] == table[1..][i - 1];
          }
        }
      }
    } else if |table| > 0 {
      assert FirstHitAt(table, hay, 0);
    }
  }

  /** Every canonical name is a non-empty string. */
  lemma CanonicalNamesNonEmpty()
    ensures forall i :: 0 <= i < |Aliases| ==> Aliases[i].1 != ""
    ensures forall i :: 0 <= i < |Keywords| ==> Keywords[i].1 != ""
    ensures Unknown != ""
  {
  }

  // ---------------------------------------------------------------------------
  // normalize_region

  /** `normalize_region(value)`: "Άγνωστη" when the trimmed, upper-cased text is
      empty; else the canonical name of the first alias occurring in it; else
      the trimmed text itself (or "Άγνωστη" when that is empty). */
  function NormalizedRegion(value: string, upper: CaseMap): (r: string)
    ensures r != ""
  {
    var up := upper(Strip(value));
    if up == "" then Unknown
    else
      match FirstMatch(Aliases, up)
      case Some(canonical) =>
        CanonicalNamesNonEmpty();
        canonical
      case None => if Strip(value) == "" then Unknown else Strip(value)
  }

  /** The three outcomes of `normalize_region`, in the order the code tries them:
      blank input, first matching alias in table order, trimmed original text. */
  lemma NormalizedRegionCases(value: string, upper: CaseMap)
    ensures var up := upper(Strip(value));
      var r := NormalizedRegion(value, upper);
      && (up == "" ==> r == Unknown)
      && (up != "" ==> forall i :: FirstHitAt(Aliases, up, i) ==> r == Aliases[i].1)
      && (up != "" && (forall i :: 0 <= i < |Aliases| ==> !Contains(Aliases[i].0, up)) ==>
            r == (if Strip(value) == "" then Unknown else Strip(value)))
  {
    FirstMatchIsFirstHit(Aliases, upper(Strip(value)));
  }

  /** With Python's upper-casing of the empty string, a blank or all-whitespace
      value becomes "Άγνωστη". */
  lemma BlankIsUnknown(value: string, upper: CaseMap)
    requires upper("") == ""
    requires forall i :: 0 <= i < |value| ==> IsSpace(value[i])
    ensures NormalizedRegion(value, upper) == Unknown
  {
  }

  /** `normalize_region`'s loop over the alias table with its early returns. */
  method NormalizeRegion(value: string, upper: CaseMap) returns (r: string)
    ensures r == NormalizedRegion(value, upper)
  {
    var up := upper(Strip(value));
    if up == "" {
      return Unknown;
    }
    var hit := ScanNeedles(Aliases, up);
    if hit.Some? {
      return hit.value;
    }
    r := Strip(value);
    if r == "" {
      r := Unknown;
    }
  }

  // ---------------------------------------------------------------------------
  // infer_region

  /** The fields the keyword scan looks at, in order. */
  const KeywordFields: seq<string> := ["organizationName", "organizationLabel", "subject"]

  /** A region column of the row: its lower-cased name contains "region" and
      its cell is a string that is not all whitespace (so `strip()` leaves
      something, by `Strip`'s contract). */
  predicate RegionCell(column: string, row: Record, lower: CaseMap) {
    Contains("region", lower(column)) && Get(row, column).JStr? && !Blank(Get(row, column).s)
  }

  /** The first region column at or after position `k`, in column order. */
  function RegionColumnFrom(columns: seq<string>, row: Record, lower: CaseMap, k: nat): (c: Option<string>)
    ensures c.Some? ==> RegionCell(c.value, row, lower)
    decreases |columns| - k
  {
    if k >= |columns| then None
    else if RegionCell(columns[k], row, lower) then Some(columns[k])
    else RegionColumnFrom(columns, row, lower, k + 1)
  }

  /** The first region column, in column order. */
  function RegionColumnOf(columns: seq<string>, row: Record, lower: CaseMap): (c: Option<string>)
    ensures c.Some? ==> RegionCell(c.value, row, lower)
  {
    RegionColumnFrom(columns, row, lower, 0)
  }

  /** The second stage: the first region column's text, normalised. */
  function ColumnRegion(columns: seq<string>, row: Record, upper: CaseMap, lower: CaseMap): Option<string> {
    match RegionColumnOf(columns, row, lower)
    case None => None
    case Some(c) => Some(NormalizedRegion(Get(row, c).s, upper))
  }

  /** Column `i` is the first region column. */
  predicate FirstRegionColumn(columns: seq<string>, row: Record, lower: CaseMap, i: int) {
    0 <= i < |columns| && RegionCell(columns[i], row, lower)
    && forall j :: 0 <= j < i ==> !RegionCell(columns[j], row, lower)
  }

  /** `ColumnRegion` finds the first region column, and nothing without one. */
  lemma ColumnRegionIsFirst(columns: seq<string>, row: Record, upper: CaseMap, lower: CaseMap)
    ensures ColumnRegion(columns, row, upper, lower).None? <==>
      forall i :: 0 <= i < |columns| ==> !RegionCell(columns[i], row, lower)
    ensures forall i :: FirstRegionColumn(columns, row, lower, i) ==>
      ColumnRegion(columns, row, upper, lower) == Some(NormalizedRegion(Get(row, columns[i]).s, upper))
  {
    RegionColumnNone(columns, row, lower);
    forall i | FirstRegionColumn(columns, row, lower, i)
      ensures ColumnRegion(columns, row, upper, lower) == Some(NormalizedRegion(Get(row, columns[i]).s, upper))
    {
      RegionColumnAt(columns, row, lower, i);
    }
  }

  lemma RegionColumnNone(columns: seq<string>, row: Record, lower: CaseMap)
    ensures RegionColumnOf(columns, row, lower).None? <==>
      forall i :: 0 <= i < |columns| ==> !RegionCell(columns[i], row, lower)
  {
    RegionColumnNoneFrom(columns, row, lower, 0);
  }

  lemma {:induction false} RegionColumnNoneFrom(columns: seq<string>, row: Record, lower: CaseMap, k: nat)
    ensures RegionColumnFrom(columns, row, lower, k).None? <==>
      forall i :: k <= i < |columns| ==> !RegionCell(columns[i], row, lower)
    decreases |columns| - k
  {
    if k < |columns| && !RegionCell(columns[k], row, lower) {
      RegionColumnNoneFrom(columns, row, lower, k + 1);
    }
  }

  lemma RegionColumnAt(columns: seq<string>, row: Record, lower: CaseMap, i: int)
    requires FirstRegionColumn(columns, row, lower, i)
    ensures RegionColumnOf(columns, row, lower) == Some(columns[i])
  {
    RegionColumnAtFrom(columns, row, lower, 0, i);
  }

  lemma {:induction false} RegionColumnAtFrom(columns: seq<string>, row: Record, lower: CaseMap, k: nat, i: int)
    requires k <= i && FirstRegionColumn(columns, row, lower, i)
    ensures RegionColumnFrom(columns, row, lower, k) == Some(columns[i])
    decreases i - k
  {
    if k < i {
      assert !RegionCell(columns[k], row, lower);
      RegionColumnAtFrom(columns, row, lower, k + 1, i);
    }
  }

  /** The keyword hit for one field: a string cell whose upper-cased text
      contains a needle. */
  function FieldKeyword(field: string, row: Record, upper: CaseMap): Option<string> {
    var v := Get(row, field);
    if v.JStr? then FirstMatch(Keywords, upper(v.s)) else None
  }

  /** The third stage: fields in order as the outer loop, needles in table
      order as the inner loop; the first hit wins. */
  function KeywordRegion(fields: seq<string>, row: Record, upper: CaseMap): Option<string> {
    if |fields| == 0 then None
    else if FieldKeyword(fields[0], row, upper).Some? then FieldKeyword(fields[0], row, upper)
    else KeywordRegion(fields[1..], row, upper)
  }

  /** Field `f` is the first field with a keyword hit. */
  predicate FirstKeywordField(fields: seq<string>, row: Record, upper: CaseMap, f: int) {
    0 <= f < |fields| && FieldKeyword(fields[f], row, upper).Some?
    && forall g :: 0 <= g < f ==> FieldKeyword(fields[g], row, upper).None?
  }

  /** The keyword scan answers with the first needle of the first field that
      has one. */
  lemma {:induction false} KeywordRegionIsFirst(fields: seq<string>, row: Record, upper: CaseMap)
    ensures KeywordRegion(fields, row, upper).None? <==>
      forall f :: 0 <= f < |fields| ==> FieldKeyword(fields[f], row, upper).None?
    ensures forall f :: FirstKeywordField(fields, row, upper, f) ==>
      KeywordRegion(fields, row, upper) == FieldKeyword(fields[f], row, upper)
  {
    if |fields| > 0 && FieldKeyword(fields[0], row, upper).None? {
      KeywordRegionIsFirst(fields[1..], row, upper);
      forall f | FirstKeywordField(fields, row, upper, f)
        ensures KeywordRegion(fields, row, upper) == FieldKeyword(fields[f], row, upper)
      {
        assert FirstKeywordField(fields[1..], row, upper, f - 1);
      }
      if forall f :: 0 <= f < |fields[1..]| ==> FieldKeyword(fields[1..][f], row, upper).None? {
        forall f | 0 <= f < |fields| ensures FieldKeyword(fields[f], row, upper).None? {
          if f > 0 {
            assert fields[f] == fields[1..][f - 1];
          }
        }
      }
    } else if |fields| > 0 {
      assert FirstKeywordField(fields, row, upper, 0);
    }
  }

  /** `infer_region(row, mapping)` for a row of a frame with columns `columns`
      (in frame order): the mapping entry of a string `organizationUid`, else
      the first region column, else the keyword scan, else "Άγνωστη". */
  function InferredRegion(columns: seq<string>, row: Record, mapping: map<string, string>,
                          upper: CaseMap, lower: CaseMap): string
  {
    var uid := Get(row, "organizationUid");
    if uid.JStr? && uid.s in mapping then mapping[uid.s]
    else
      match ColumnRegion(columns, row, upper, lower)
      case Some(region) => region
      case None =>
        match KeywordRegion(KeywordFields, row, upper)
        case Some(region) => region
        case None => Unknown
  }

  /** The four stages of `infer_region` in order, each taken only when the
      ones before it found nothing; within the keyword stage the field order
      is the outer loop and the needle order the inner loop. */
  lemma InferredRegionStages(columns: seq<string>, row: Record, mapping: map<string, string>,
                             upper: CaseMap, lower: CaseMap)
    ensures var uid := Get(row, "organizationUid");
      var r := InferredRegion(columns, row, mapping, upper, lower);
      var mapped := uid.JStr? && uid.s in mapping;
      var noColumn := forall i :: 0 <= i < |columns| ==> !RegionCell(columns[i], row, lower);
      && (mapped ==> r == mapping[uid.s])
      && (!mapped ==> forall i :: FirstRegionColumn(columns, row, lower, i) ==>
            r == NormalizedRegion(Get(row, columns[i]).s, upper))
      && (!mapped && noColumn ==>
            forall f, k :: FirstKeywordField(KeywordFields, row, upper, f) ==>
              FirstHitAt(Keywords, upper(Get(row, KeywordFields[f]).s), k) ==> r == Keywords[k].1)
      && (!mapped && noColumn
          && (forall f :: 0 <= f < |KeywordFields| ==> FieldKeyword(KeywordFields[f], row, upper).None?) ==>
            r == Unknown)
  {
    ColumnRegionIsFirst(columns, row, upper, lower);
    KeywordRegionIsFirst(KeywordFields, row, upper);
    forall f | 0 <= f < |KeywordFields| && Get(row, KeywordFields[f]).JStr? {
      FirstMatchIsFirstHit(Keywords, upper(Get(row, KeywordFields[f]).s));
    }
  }

  /** `infer_region`'s loops with their early returns. */
  method InferRegion(columns: seq<string>, row: Record, mapping: map<string, string>,
                     upper: CaseMap, lower: CaseMap) returns (r: string)
    ensures r == InferredRegion(columns, row, mapping, upper, lower)
  {
    var uid := Get(row, "organizationUid");
    if uid.JStr? && uid.s in mapping {
      return mapping[uid.s];
    }
    var fromColumn := ScanRegionColumns(columns, row, upper, lower);
    if fromColumn.Some? {
      return fromColumn.value;
    }
    var fromKeyword := ScanKeywordFields(KeywordFields, row, upper);
    if fromKeyword.Some? {
      return fromKeyword.value;
    }
    return Unknown;
  }

  /** The loop over the row's columns: the first region column's value,
      normalised. */
  method ScanRegionColumns(columns: seq<string>, row: Record, upper: CaseMap, lower: CaseMap)
    returns (r: Option<string>)
    ensures r == ColumnRegion(columns, row, upper, lower)
  {
    var i := 0;
    while i < |columns|
      invariant 0 <= i <= |columns|
      invariant RegionColumnFrom(columns, row, lower, i) == RegionColumnOf(columns, row, lower)
    {
      var value := Get(row, columns[i]);
      if Contains("region", lower(columns[i])) && value.JStr? && Strip(value.s) != "" {
        var region := NormalizeRegion(value.s, upper);
        return Some(region);
      }
      i := i + 1;
    }
    return None;
  }

  /** The loop over the keyword fields: the first needle hit of the first
      string field that has one. */
  method ScanKeywordFields(fields: seq<string>, row: Record, upper: CaseMap) returns (r: Option<string>)
    ensures r == KeywordRegion(fields, row, upper)
  {
    var f := 0;
    while f < |fields|
      invariant 0 <= f <= |fields|
      invariant KeywordRegion(fields[f..], row, upper) == KeywordRegion(fields, row, upper)
    {
      var value := Get(row, fields[f]);
      if value.JStr? {
        var hit := ScanNeedles(Keywords, upper(value.s));
        if hit.Some? {
          return hit;
        }
      }
      assert fields[f..][1..] == fields[f + 1..];
      f := f + 1;
    }
    return None;
  }

  /** The loop over a needle table for one upper-cased text. */
  method ScanNeedles(table: seq<(string, string)>, up: string) returns (r: Option<string>)
    ensures r == FirstMatch(table, up)
  {
    var k := 0;
    while k < |table|
      invariant 0 <= k <= |table|
      invariant FirstMatch(table[k..], up) == FirstMatch(table, up)
    {
      if Contains(table[k].0, up) {
        return Some(table[k].1);
      }
      assert table[k..][1..] == table[k + 1..];
      k := k + 1;
    }
    return None;
  }

  // ---------------------------------------------------------------------------
  // load_region_mapping: the row filter

  /** A row of `csv.DictReader`; a missing key stands for a missing or `None` cell. */
  type CsvRow = map<string, string>

  /** `(row.get(key) or "").strip()`. */
  function CsvField(row: CsvRow, key: string): string {
    if key in row then Strip(row[key]) else ""
  }

  /** A row as the filter sees it: its trimmed organisation and region. */
  function Entry(row: CsvRow): (string, string) {
    (CsvField(row, "organizationUid"), CsvField(row, "region"))
  }

  /** The entries of the rows, in file order. */
  function Entries(rows: seq<CsvRow>): (es: seq<(string, string)>)
    ensures |es| == |rows| && forall i :: 0 <= i < |rows| ==> es[i] == Entry(rows[i])
  {
    seq(|rows|, i requires 0 <= i < |rows| => Entry(rows[i]))
  }

  /** The filter: both the organisation and the region are non-blank. */
  predicate Kept(e: (string, string)) {
    e.0 != "" && e.1 != ""
  }

  /** The table built from the entries in order: each kept entry sets its
      organisation to its region as `canon` rewrites it, overwriting earlier
      entries. `load_region_mapping` uses `normalize_region` for `canon`. */
  function MappingOf(es: seq<(string, string)>, canon: string -> string): map<string, string>
    decreases |es|
  {
    if es == [] then map[]
    else
      var m := MappingOf(es[..|es| - 1], canon);
      var e := es[|es| - 1];
      if Kept(e) then m[e.0 := canon(e.1)] else m
  }

  /** Entry `e` is kept and names organisation `k`. */
  predicate KeptFor(e: (string, string), k: string) {
    Kept(e) && e.0 == k
  }

  /** Entry `i` is the last kept entry for organisation `k`. */
  predicate LastRowFor(es: seq<(string, string)>, k: string, i: int) {
    0 <= i < |es| && KeptFor(es[i], k)
    && forall j :: i < j < |es| ==> !KeptFor(es[j], k)
  }

  /** An organisation is in the table exactly when some kept row names it. */
  lemma {:induction false} MappingHasKeptRows(es: seq<(string, string)>, canon: string -> string, k: string)
    ensures k in MappingOf(es, canon) <==> exists i :: 0 <= i < |es| && KeptFor(es[i], k)
    decreases |es|
  {
    if es != [] {
      var n := |es| - 1;
      var init := es[..n];
      MappingHasKeptRows(init, canon, k);
      if !KeptFor(es[n], k) {
        if exists i :: 0 <= i < |es| && KeptFor(es[i], k) {
          var i :| 0 <= i < |es| && KeptFor(es[i], k);
          assert init[i] == es[i];
        }
        if exists i :: 0 <= i < |init| && KeptFor(init[i], k) {
          var i :| 0 <= i < |init| && KeptFor(init[i], k);
          assert es[i] == init[i];
        }
      }
    }
  }

  /** An organisation's region is the rewritten region of the last kept row
      naming it: later rows overwrite earlier ones. */
  lemma {:induction false} MappingLastRowWins(es: seq<(string, string)>, canon: string -> string, k: string, i: int)
    requires LastRowFor(es, k, i)
    ensures k in MappingOf(es, canon)
    ensures MappingOf(es, canon)[k] == canon(es[i].1)
    decreases |es|
  {
    var n := |es| - 1;
    if i < n {
      var init := es[..n];
      assert init[i] == es[i];
      assert LastRowFor(init, k, i);
      MappingLastRowWins(init, canon, k, i);
      assert !KeptFor(es[n], k);
    }
  }

  /** One more entry: a kept one sets its organisation, any other changes nothing. */
  lemma MappingStep(es: seq<(string, string)>, i: int, canon: string -> string)
    requires 0 <= i < |es|
    ensures MappingOf(es[..i + 1], canon) ==
      if Kept(es[i]) then MappingOf(es[..i], canon)[es[i].0 := canon(es[i].1)] else MappingOf(es[..i], canon)
  {
    assert es[..i + 1][..i] == es[..i];
  }

  /** `load_region_mapping`'s loop over the rows of the file. */
  method LoadRegionMapping(rows: seq<CsvRow>, upper: CaseMap) returns (mapping: map<string, string>)
    ensures mapping == MappingOf(Entries(rows), region => NormalizedRegion(region, upper))
  {
    ghost var es := Entries(rows);
    mapping := map[];
    var i := 0;
    while i < |rows|
      invariant 0 <= i <= |rows|
      invariant mapping == MappingOf(es[..i], region => NormalizedRegion(region, upper))
    {
      var uid := CsvField(rows[i], "organizationUid");
      var region := CsvField(rows[i], "region");
      MappingStep(es, i, region => NormalizedRegion(region, upper));
      if uid != "" && region != "" {
        var canonical := NormalizeRegion(region, upper);
        mapping := mapping[uid := canonical];
      }
      i := i + 1;
    }
    assert es[..|rows|] == es;
  }

  // ---------------------------------------------------------------------------
  // enrich_regions

  /** `enrich_regions(df, mapping)`: the frame with a `region` column. A frame
      without rows stays without rows; a frame whose rows have no column gets
      an empty (missing) region in every row; otherwise each row gets its
      inferred region. */
  function EnrichRegions(columns: seq<string>, rows: seq<Record>, mapping: map<string, string>,
                         upper: CaseMap, lower: CaseMap): (r: seq<Record>)
    ensures |r| == |rows|
    ensures forall i :: 0 <= i < |r| ==> r[i].Keys == rows[i].Keys + {"region"}
    ensures forall i, k :: 0 <= i < |r| && k in rows[i] && k != "region" ==> r[i][k] == rows[i][k]
    ensures FrameEmpty(rows) ==> forall i :: 0 <= i < |r| ==> r[i]["region"] == JNull
    ensures !FrameEmpty(rows) ==> forall i :: 0 <= i < |r| ==>
      r[i]["region"] == JStr(InferredRegion(columns, rows[i], mapping, upper, lower))
  {
    if FrameEmpty(rows) then
      seq(|rows|, i requires 0 <= i < |rows| => rows[i]["region" := JNull])
    else
      seq(|rows|, i requires 0 <= i < |rows| => rows[i]["region" := JStr(InferredRegion(columns, rows[i], mapping, upper, lower))])
  }
}
