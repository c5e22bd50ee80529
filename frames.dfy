/** A pandas frame built from decoded records (`pd.DataFrame(rows)`): its
    columns are the keys the rows carry, and a cell is missing (NA) when its
    row lacks the key or holds `null`. On top of that: the headline KPIs of
    both digest scripts, the `organizationLabel` → `organizationName` rename
    of their `main`, and `pct_change`. */
module Frames {
  import opened Common
  import opened Records

  /** `pd.DataFrame(rows).empty`: no rows, or rows without a single column. */
  predicate FrameEmpty(rows: seq<Record>) {
    rows == [] || forall i :: 0 <= i < |rows| ==> rows[i] == map[]
  }

  /** `column in df.columns`. */
  predicate HasColumn(rows: seq<Record>, column: string) {
    exists i :: 0 <= i < |rows| && column in rows[i]
  }

  /** The cell of `column` in `row` is NA (`isna()`). */
  predicate IsNA(row: Record, column: string) {
    Get(row, column) == JNull
  }

  /** How many rows have an NA cell in `column`. */
  function CountNA(rows: seq<Record>, column: string): (n: nat)
    ensures n <= |rows|
  {
    if rows == [] then 0
    else CountNA(rows[..|rows| - 1], column) + (if IsNA(rows[|rows| - 1], column) then 1 else 0)
  }

  /** `CountNA` counts exactly the NA rows: none when no row is NA, all of them
      when every row is. */
  lemma {:induction false} CountNABounds(rows: seq<Record>, column: string)
    ensures CountNA(rows, column) == 0 <==> forall i :: 0 <= i < |rows| ==> !IsNA(rows[i], column)
    ensures CountNA(rows, column) == |rows| <==> forall i :: 0 <= i < |rows| ==> IsNA(rows[i], column)
  {
    if rows != [] {
      var init := rows[..|rows| - 1];
      CountNABounds(init, column);
      assert forall i :: 0 <= i < |init| ==> init[i] == rows[i];
    }
  }

  /** The share of NA cells of a column, times 100; NaN (None) for an empty
      series. */
  function PctMissingOf(cells: seq<Json>): (r: Option<real>)
    ensures r.None? <==> cells == []
  {
    if cells == [] then None
    else Some(Percent(CountNullCells(cells), |cells|))
  }

  /** How many of the cells are null. */
  function CountNullCells(cells: seq<Json>): (n: nat)
    ensures n <= |cells|
  {
    if cells == [] then 0
    else CountNullCells(cells[..|cells| - 1]) + (if cells[|cells| - 1] == JNull then 1 else 0)
  }

  /** `df.get(column, pd.Series(dtype=float))`: the column's cells, or an empty
      series when the frame has no such column. */
  function ColumnCells(rows: seq<Record>, column: string): (cells: seq<Json>)
    ensures HasColumn(rows, column) ==> |cells| == |rows|
    ensures !HasColumn(rows, column) ==> cells == []
  {
    if HasColumn(rows, column) then seq(|rows|, i requires 0 <= i < |rows| => Get(rows[i], column)) else []
  }

  /** Counting the null cells of a column counts its NA rows. */
  lemma {:induction false} CountNullCellsOfColumn(rows: seq<Record>, column: string)
    ensures CountNullCells(seq(|rows|, i requires 0 <= i < |rows| => Get(rows[i], column))) == CountNA(rows, column)
  {
    if rows != [] {
      var init := rows[..|rows| - 1];
      var cells := seq(|rows|, i requires 0 <= i < |rows| => Get(rows[i], column));
      CountNullCellsOfColumn(init, column);
      assert cells[..|cells| - 1] == seq(|init|, i requires 0 <= i < |init| => Get(init[i], column));
    }
  }

  /** The KPIs of a window. The median and 90th percentile of the delay are
      floating-point statistics and are not modelled. */
  datatype Kpis = Kpis(count: nat, missPub: Option<real>, missOrg: Option<real>)

  /** `n` out of `m`, in percent. */
  function Percent(n: nat, m: nat): real
    requires m > 0
  {
    (n as real) * 100.0 / (m as real)
  }

  lemma DivMonotone(a: real, b: real, y: real)
    requires y > 0.0 && a <= b
    ensures a / y <= b / y
  {
  }

  lemma DivInjective(a: real, b: real, y: real)
    requires y > 0.0 && a / y == b / y
    ensures a == b
  {
    assert (a / y) * y == a && (b / y) * y == b;
  }

  lemma MulDivCancel(c: real, y: real)
    requires y > 0.0
    ensures (y * c) / y == c
  {
  }

  /** A share of a positive total lies between 0 and 100 percent, and is 0
      exactly for none of it and 100 exactly for all of it. */
  lemma PercentRange(n: nat, m: nat)
    requires 0 < m && n <= m
    ensures 0.0 <= Percent(n, m) <= 100.0
    ensures Percent(n, m) == 0.0 <==> n == 0
    ensures Percent(n, m) == 100.0 <==> n == m
  {
    var x, y := n as real, m as real;
    var a := x * 100.0;
    assert Percent(n, m) == a / y;
    DivMonotone(0.0, a, y);
    DivMonotone(a, y * 100.0, y);
    MulDivCancel(100.0, y);
    MulDivCancel(0.0, y);
    if a / y == (y * 0.0) / y {
      DivInjective(a, y * 0.0, y);
    }
    if a / y == (y * 100.0) / y {
      DivInjective(a, y * 100.0, y);
    }
  }

  /** The NA rate of a present column of a non-empty frame, in percent. */
  function MissingRate(rows: seq<Record>, column: string): real
    requires rows != []
  {
    Percent(CountNA(rows, column), |rows|)
  }

  /** A missing-value rate lies between 0 and 100; it is 0 exactly when no
      row is NA in the column and 100 exactly when every row is. */
  lemma MissingRateBounds(rows: seq<Record>, column: string)
    requires rows != []
    ensures 0.0 <= MissingRate(rows, column) <= 100.0
    ensures MissingRate(rows, column) == 0.0 <==> forall i :: 0 <= i < |rows| ==> !IsNA(rows[i], column)
    ensures MissingRate(rows, column) == 100.0 <==> forall i :: 0 <= i < |rows| ==> IsNA(rows[i], column)
  {
    CountNABounds(rows, column);
    PercentRange(CountNA(rows, column), |rows|);
  }

  /** `compute_kpis` of `diavgeia_monthly_digest.py`. */
  function ComputeKpis(rows: seq<Record>): Kpis {
    if FrameEmpty(rows) then Kpis(0, None, None)
    else
      Kpis(|rows|,
           if HasColumn(rows, "publishTimestamp") then Some(MissingRate(rows, "publishTimestamp")) else None,
           if HasColumn(rows, "organizationLabel") then Some(MissingRate(rows, "organizationLabel")) else None)
  }

  /** An empty frame has a count of 0 and no rates; otherwise the count is the
      number of rows, a rate is present exactly when its column is, and every
      rate lies between 0 and 100. */
  lemma ComputeKpisSpec(rows: seq<Record>)
    ensures var k := ComputeKpis(rows);
      && (FrameEmpty(rows) ==> k == Kpis(0, None, None))
      && (!FrameEmpty(rows) ==> k.count == |rows|)
      && (!FrameEmpty(rows) ==> (k.missPub.Some? <==> HasColumn(rows, "publishTimestamp")))
      && (!FrameEmpty(rows) ==> (k.missOrg.Some? <==> HasColumn(rows, "organizationLabel")))
      && (k.missPub.Some? ==> 0.0 <= k.missPub.value <= 100.0)
      && (k.missOrg.Some? ==> 0.0 <= k.missOrg.value <= 100.0)
  {
    if !FrameEmpty(rows) {
      MissingRateBounds(rows, "publishTimestamp");
      MissingRateBounds(rows, "organizationLabel");
    }
  }

  /** `compute_kpis` of `digest_monthly.py`, through `_pct_missing` of the
      column or of an empty series. */
  function DigestKpis(rows: seq<Record>): Kpis {
    if FrameEmpty(rows) then Kpis(0, None, None)
    else Kpis(|rows|, PctMissingOf(ColumnCells(rows, "publishTimestamp")),
              PctMissingOf(ColumnCells(rows, "organizationLabel")))
  }

  /** The two scripts compute the same KPIs. */
  lemma KpisAgree(rows: seq<Record>)
    ensures DigestKpis(rows) == ComputeKpis(rows)
  {
    CountNullCellsOfColumn(rows, "publishTimestamp");
    CountNullCellsOfColumn(rows, "organizationLabel");
  }

  // ---------------------------------------------------------------------------
  // The rename in both scripts' main

  /** The rename applies to a non-empty frame that has `organizationLabel`
      but not `organizationName`. */
  predicate RenameApplies(rows: seq<Record>) {
    !FrameEmpty(rows) && HasColumn(rows, "organizationLabel") && !HasColumn(rows, "organizationName")
  }

  /** One row with its `organizationLabel` cell moved to `organizationName`. */
  function RenameRow(row: Record): (r: Record)
    ensures "organizationLabel" !in r
    ensures "organizationLabel" in row ==> "organizationName" in r && r["organizationName"] == row["organizationLabel"]
    ensures forall k :: k in row && k != "organizationLabel" && k != "organizationName" ==> k in r && r[k] == row[k]
    ensures forall k :: k in r && k != "organizationName" ==> k in row
  {
    if "organizationLabel" in row then (row - {"organizationLabel"})["organizationName" := row["organizationLabel"]]
    else row - {"organizationLabel"}
  }

  /** `frame.rename(columns={"organizationLabel": "organizationName"})` when it
      applies, the frame unchanged otherwise. */
  function RenameOrg(rows: seq<Record>): (r: seq<Record>)
    ensures |r| == |rows|
    ensures RenameApplies(rows) ==> forall i, k :: 0 <= i < |rows| && k in rows[i] && k != "organizationLabel" && k != "organizationName" ==>
      k in r[i] && r[i][k] == rows[i][k]
    ensures !RenameApplies(rows) ==> r == rows
  {
    if RenameApplies(rows) then seq(|rows|, i requires 0 <= i < |rows| => RenameRow(rows[i])) else rows
  }

  /** After the rename the label column is gone, the name column carries the
      label's cells, and every other column is untouched. */
  lemma RenameOrgColumns(rows: seq<Record>)
    requires RenameApplies(rows)
    ensures var r := RenameOrg(rows);
      && !HasColumn(r, "organizationLabel") && HasColumn(r, "organizationName")
      && !FrameEmpty(r)
      && forall i :: 0 <= i < |rows| ==> Get(r[i], "organizationName") == Get(rows[i], "organizationLabel")
  {
    var r := RenameOrg(rows);
    var i :| 0 <= i < |rows| && "organizationLabel" in rows[i];
    assert "organizationName" in r[i];
    forall j | 0 <= j < |rows| ensures Get(r[j], "organizationName") == Get(rows[j], "organizationLabel") {
      assert "organizationName" !in rows[j];
    }
  }

  /** The rename changes neither the frame's emptiness nor its row count, nor
      the publication rate. */
  lemma RenameKeepsOtherKpis(rows: seq<Record>)
    ensures ComputeKpis(RenameOrg(rows)).count == ComputeKpis(rows).count
    ensures ComputeKpis(RenameOrg(rows)).missPub == ComputeKpis(rows).missPub
  {
    if RenameApplies(rows) {
      var r := RenameOrg(rows);
      RenameOrgColumns(rows);
      var pub := "publishTimestamp";
      forall i | 0 <= i < |rows| ensures Get(r[i], pub) == Get(rows[i], pub) && (pub in r[i] <==> pub in rows[i]) {
        assert r[i] == RenameRow(rows[i]);
      }
      assert HasColumn(r, pub) <==> HasColumn(rows, pub) by {
        if HasColumn(rows, pub) {
          var i :| 0 <= i < |rows| && pub in rows[i];
          assert pub in r[i];
        }
        if HasColumn(r, pub) {
          var i :| 0 <= i < |r| && pub in r[i];
          assert pub in rows[i];
        }
      }
      SameNA(rows, r, pub);
      assert !FrameEmpty(r) && !FrameEmpty(rows);
      assert MissingRate(r, pub) == MissingRate(rows, pub);
      assert ComputeKpis(r).missPub == if HasColumn(rows, pub) then Some(MissingRate(rows, pub)) else None;
    }
  }

  /** Rows that agree cell by cell on a column have the same NA count there. */
  lemma {:induction false} SameNA(a: seq<Record>, b: seq<Record>, column: string)
    requires |a| == |b| && forall i :: 0 <= i < |a| ==> Get(a[i], column) == Get(b[i], column)
    ensures CountNA(a, column) == CountNA(b, column)
  {
    if a != [] {
      SameNA(a[..|a| - 1], b[..|b| - 1], column);
    }
  }

  /** As written, both scripts compute the KPIs after the rename, which looks
      for `organizationLabel`: whenever the rename applies, the organisation
      rate is lost (NaN), although the frame had the column. */
  lemma RenameLosesOrgRate(rows: seq<Record>)
    requires RenameApplies(rows)
    ensures ComputeKpis(rows).missOrg.Some?
    ensures ComputeKpis(RenameOrg(rows)).missOrg.None?
  {
    RenameOrgColumns(rows);
  }

  /** A concrete frame: one decision whose organisation label is present. Its
      organisation rate is 0 before the rename and NaN after it. */
  lemma RenameLosesOrgRateExample()
    ensures var rows := [map["organizationLabel" := JStr("X")]];
      ComputeKpis(rows).missOrg == Some(0.0) && ComputeKpis(RenameOrg(rows)).missOrg == None
  {
    var rows := [map["organizationLabel" := JStr("X")]];
    assert "organizationLabel" in rows[0];
    assert rows[0] != map[];
    assert !HasColumn(rows, "organizationName");
    RenameLosesOrgRate(rows);
    assert CountNA(rows, "organizationLabel") == 0;
  }

  /** The column that holds the organisation after the rename step. */
  function OrgColumn(rows: seq<Record>): string {
    if HasColumn(rows, "organizationName") then "organizationName" else "organizationLabel"
  }

  /** The corrected KPIs: the organisation rate is read from the column that
      holds the organisation whichever name it carries. */
  function KpisFixed(rows: seq<Record>): Kpis {
    if FrameEmpty(rows) then Kpis(0, None, None)
    else
      Kpis(|rows|, ComputeKpis(rows).missPub,
           if HasColumn(rows, OrgColumn(rows)) then Some(MissingRate(rows, OrgColumn(rows))) else None)
  }

  /** The corrected KPIs do not depend on whether the rename ran: computed
      after the rename they report the label's missing rate the frame had
      before it, and the other KPIs as before. */
  lemma KpisFixedRenameInvariant(rows: seq<Record>)
    ensures KpisFixed(RenameOrg(rows)) == KpisFixed(rows)
    ensures RenameApplies(rows) ==> KpisFixed(RenameOrg(rows)).missOrg == ComputeKpis(rows).missOrg
    ensures KpisFixed(rows).count == ComputeKpis(rows).count && KpisFixed(rows).missPub == ComputeKpis(rows).missPub
  {
    RenameKeepsOtherKpis(rows);
    if RenameApplies(rows) {
      var r := RenameOrg(rows);
      RenameOrgColumns(rows);
      assert OrgColumn(r) == "organizationName";
      assert OrgColumn(rows) == "organizationLabel";
      SameNAAcross(r, rows, "organizationName", "organizationLabel");
      assert MissingRate(r, "organizationName") == MissingRate(rows, "organizationLabel");
      assert !FrameEmpty(r) && HasColumn(r, "organizationName");
      assert KpisFixed(r).missOrg == Some(MissingRate(rows, "organizationLabel"));
      assert KpisFixed(rows).missOrg == Some(MissingRate(rows, "organizationLabel"));
    }
  }

  /** Rows whose cells in column `c` match other rows' cells in column `d`
      have as many NA cells there. */
  lemma {:induction false} SameNAAcross(a: seq<Record>, b: seq<Record>, c: string, d: string)
    requires |a| == |b| && forall i :: 0 <= i < |a| ==> Get(a[i], c) == Get(b[i], d)
    ensures CountNA(a, c) == CountNA(b, d)
  {
    if a != [] {
      SameNAAcross(a[..|a| - 1], b[..|b| - 1], c, d);
    }
  }

  // ---------------------------------------------------------------------------
  // pct_change (both digest scripts)

  /** `pct_change(current, previous)`: NaN (None) when the previous value is
      missing, NaN or 0, or the current one is NaN; otherwise the relative
      change in percent. */
  function PctChange(current: Option<real>, previous: Option<real>): (r: Option<real>)
    ensures r.Some? <==> current.Some? && previous.Some? && previous.value != 0.0
  {
    if previous.None? || previous.value == 0.0 || current.None? then None
    else Some((current.value - previous.value) / previous.value * 100.0)
  }

  /** The change undoes: applying it to the previous value gives back the
      current one; and it is positive exactly when the value grew from a
      positive base. */
  lemma PctChangeInverse(current: real, previous: real)
    requires previous != 0.0
    ensures var r := PctChange(Some(current), Some(previous)).value;
      && previous * (1.0 + r / 100.0) == current
      && (previous > 0.0 ==> (r > 0.0 <==> current > previous))
  {
    var r := (current - previous) / previous * 100.0;
    assert r / 100.0 == (current - previous) / previous;
    assert previous * ((current - previous) / previous) == current - previous;
    if previous > 0.0 {
      assert r > 0.0 <==> (current - previous) / previous > 0.0;
    }
  }
}
