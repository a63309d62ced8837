/** The cleaner stage (clean_data.py `main`): strip and rename the header,
    coerce the five numeric columns in place, then drop every row whose
    document count or citation count is missing. */
module Cleaner {
  import opened Wrappers
  import opened Tables
  import opened Headers
  import opened Numbers

  /** `dropna(subset=[...])` raises when a subset column does not exist. */
  datatype CleanError = MissingSubset(missing: set<string>)

  /** The value of the table after the coercion loop: a cell is coerced
      exactly when its column carries one of the five numeric names. */
  function CoerceNumeric(t: Table): (r: Table)
    requires t.Rectangular()
    ensures r.Rectangular() && r.columns == t.columns && |r.rows| == |t.rows|
  {
    Table(t.columns, seq(|t.rows|, i requires 0 <= i < |t.rows| =>
      seq(|t.columns|, j requires 0 <= j < |t.columns| =>
        if t.columns[j] in NumericColumns then CoerceCell(t.rows[i][j]) else t.rows[i][j])))
  }

  /** The DataFrame being cleaned, updated column by column by the loop of
      lines 31-40. */
  class Frame {
    var columns: seq<string>
    var rows: seq<seq<Cell>>

    ghost predicate Valid()
      reads this
    {
      Table(columns, rows).Rectangular()
    }

    function Snapshot(): Table
      reads this
    {
      Table(columns, rows)
    }

    constructor (t: Table)
      requires t.Rectangular()
      ensures Valid() && Snapshot() == t
    {
      columns := t.columns;
      rows := t.rows;
    }

    /** One turn of the loop (lines 32-40): when the column exists, every one
        of its cells is replaced by its coercion; other columns, and every
        other cell, stay as they were. */
    method CoerceColumn(name: string)
      requires Valid()
      modifies this
      ensures Valid() && columns == old(columns) && |rows| == old(|rows|)
      ensures forall i, j :: 0 <= i < |rows| && 0 <= j < |columns| ==>
        rows[i][j] == if columns[j] == name then CoerceCell(old(rows)[i][j]) else old(rows)[i][j]
    {
      if name in columns {
        var before, header := rows, columns;
        rows := seq(|before|, i requires 0 <= i < |before| =>
          seq(|header|, j requires 0 <= j < |header| =>
            if header[j] == name then CoerceCell(before[i][j]) else before[i][j]));
      }
    }

    /** The loop of lines 30-40 over the five numeric column names: only the
        numeric columns that are present are coerced, every other column is
        left alone. */
    method CoerceNumericColumns()
      requires Valid()
      modifies this
      ensures Valid() && Snapshot() == CoerceNumeric(old(Snapshot()))
    {
      ghost var start := Snapshot();
      for k := 0 to |NumericColumns|
        invariant Valid() && columns == start.columns && |rows| == |start.rows|
        invariant forall i, j :: 0 <= i < |rows| && 0 <= j < |columns| ==>
          rows[i][j] == if columns[j] in NumericColumns[..k] then CoerceCell(start.rows[i][j]) else start.rows[i][j]
      {
        CoerceColumn(NumericColumns[k]);
        assert NumericColumns[..k + 1] == NumericColumns[..k] + [NumericColumns[k]];
      }
      assert NumericColumns[..|NumericColumns|] == NumericColumns;
      var goal := CoerceNumeric(start);
      assert forall i :: 0 <= i < |rows| ==> rows[i] == goal.rows[i];
    }
  }

  /** A row keeps both required fields. */
  predicate Complete(columns: seq<string>, row: seq<Cell>)
  {
    forall j :: 0 <= j < |row| && j < |columns| && columns[j] in RequiredColumns ==> !row[j].Null?
  }

  /** The rows that survive `dropna`, in their original order. */
  function KeepComplete(columns: seq<string>, rows: seq<seq<Cell>>): (kept: seq<seq<Cell>>)
    ensures |kept| <= |rows|
    ensures forall r :: r in kept ==> r in rows && Complete(columns, r)
  {
    if |rows| == 0 then []
    else if Complete(columns, rows[0]) then [rows[0]] + KeepComplete(columns, rows[1..])
    else KeepComplete(columns, rows[1..])
  }

  /** Line 43: drop the rows missing a document count or a citation count;
      a missing subset column is an error. */
  function DropIncomplete(t: Table): (r: Result<Table, CleanError>)
    ensures r.Success? ==> r.value.columns == t.columns && |r.value.rows| <= |t.rows|
    ensures r.Success? && t.Rectangular() ==> r.value.Rectangular()
  {
    var missing := MissingRequired(t.columns);
    if missing != {} then Failure(MissingSubset(missing))
    else
      var kept := KeepComplete(t.columns, t.rows);
      assert forall i :: 0 <= i < |kept| ==> kept[i] in t.rows;
      Success(Table(t.columns, kept))
  }

  /** The whole cleaner as one function of the raw table. */
  function CleanSpec(raw: Table): Result<Table, CleanError>
    requires raw.Rectangular()
  {
    var renamed := Table(NormalizeColumns(raw.columns), raw.rows);
    DropIncomplete(CoerceNumeric(renamed))
  }

  /** The cleaner's `main`, without the file reading and writing around it. */
  method Clean(raw: Table) returns (r: Result<Table, CleanError>)
    requires raw.Rectangular()
    ensures r == CleanSpec(raw)
  {
    var header := StripColumns(raw.columns);
    header := RenameColumns(header);
    var frame := new Frame(Table(header, raw.rows));
    frame.CoerceNumericColumns();
    r := DropIncomplete(frame.Snapshot());
  }

  // ---------------------------------------------------------------------
  // Properties of the row filter

  /** `xs` is `ys` with some elements deleted, the rest in order. */
  ghost predicate IsSubsequence<T>(xs: seq<T>, ys: seq<T>)
    decreases |ys|
  {
    xs == [] || (ys != [] && ((xs[0] == ys[0] && IsSubsequence(xs[1..], ys[1..])) || IsSubsequence(xs, ys[1..])))
  }

  /** Every retained row has both required fields, every complete row is
      retained as often as it occurs, and the retained rows keep their order. */
  lemma {:induction false} KeepCompleteSpec(columns: seq<string>, rows: seq<seq<Cell>>)
    ensures forall r :: r in KeepComplete(columns, rows) ==> r in rows && Complete(columns, r)
    ensures forall r :: r in rows && Complete(columns, r) ==> r in KeepComplete(columns, rows)
    ensures IsSubsequence(KeepComplete(columns, rows), rows)
    ensures forall r ::
      multiset(KeepComplete(columns, rows))[r] == if Complete(columns, r) then multiset(rows)[r] else 0
  {
    if |rows| > 0 {
      KeepCompleteSpec(columns, rows[1..]);
      var rest := KeepComplete(columns, rows[1..]);
      assert rows == [rows[0]] + rows[1..];
      assert multiset(rows) == multiset{rows[0]} + multiset(rows[1..]);
      if Complete(columns, rows[0]) {
        assert ([rows[0]] + rest)[1..] == rest;
        assert multiset([rows[0]] + rest) == multiset{rows[0]} + multiset(rest);
      } else {
        assert rest == [] || IsSubsequence(rest, rows);
      }
      forall r | r in rows && Complete(columns, r) ensures r in KeepComplete(columns, rows) {
        if r != rows[0] {
          assert r in rows[1..];
        }
      }
    }
  }

  /** Filtering keeps exactly as many rows as are complete: none when all
      rows are incomplete, all of them when none is. */
  lemma {:induction false} KeepCompleteAll(columns: seq<string>, rows: seq<seq<Cell>>)
    requires forall i :: 0 <= i < |rows| ==> Complete(columns, rows[i])
    ensures KeepComplete(columns, rows) == rows
  {
    if |rows| > 0 {
      KeepCompleteAll(columns, rows[1..]);
      assert rows == [rows[0]] + rows[1..];
    }
  }

  lemma {:induction false} KeepCompleteNone(columns: seq<string>, rows: seq<seq<Cell>>)
    requires forall i :: 0 <= i < |rows| ==> !Complete(columns, rows[i])
    ensures KeepComplete(columns, rows) == []
  {
    if |rows| > 0 {
      KeepCompleteNone(columns, rows[1..]);
    }
  }

  /** The filter fails exactly when a required column is absent, and then
      names precisely the absent ones. */
  lemma DropIncompleteFails(t: Table)
    ensures DropIncomplete(t).Failure? <==> !(DocumentCount in t.columns && TotalCitations in t.columns)
    ensures DropIncomplete(t).Failure? ==>
      forall c :: c in DropIncomplete(t).error.missing <==> c in RequiredColumns && c !in t.columns
  {
    MissingRequiredSpec(t.columns);
  }

  // ---------------------------------------------------------------------
  // Properties of the whole cleaner

  /** The cleaned header is the raw header, stripped and renamed, column for
      column; the cleaner fails exactly when a required column is still
      absent after renaming. */
  lemma CleanColumns(raw: Table)
    requires raw.Rectangular()
    ensures CleanSpec(raw).Failure? <==>
      !(DocumentCount in NormalizeColumns(raw.columns) && TotalCitations in NormalizeColumns(raw.columns))
    ensures CleanSpec(raw).Success? ==>
      CleanSpec(raw).value.columns == NormalizeColumns(raw.columns) && CleanSpec(raw).value.Rectangular()
  {
    var coerced := CoerceNumeric(Table(NormalizeColumns(raw.columns), raw.rows));
    DropIncompleteFails(coerced);
    KeepCompleteSpec(coerced.columns, coerced.rows);
  }

  /** The cleaned rows are the coerced rows that have both required fields,
      in their original order: each kept row has both, no complete row is
      lost, and each complete row is kept exactly as often as it occurs. */
  lemma CleanRows(raw: Table)
    requires raw.Rectangular()
    ensures CleanSpec(raw).Success? ==>
      var coerced := CoerceNumeric(Table(NormalizeColumns(raw.columns), raw.rows));
      var out := CleanSpec(raw).value;
      && IsSubsequence(out.rows, coerced.rows)
      && (forall r :: r in out.rows ==> Complete(out.columns, r))
      && (forall i :: 0 <= i < |coerced.rows| && Complete(coerced.columns, coerced.rows[i]) ==> coerced.rows[i] in out.rows)
      && (forall r :: multiset(out.rows)[r] == if Complete(coerced.columns, r) then multiset(coerced.rows)[r] else 0)
  {
    var coerced := CoerceNumeric(Table(NormalizeColumns(raw.columns), raw.rows));
    KeepCompleteSpec(coerced.columns, coerced.rows);
  }

  /** In the cleaned table every cell under a required column is a number. */
  lemma CleanRequiredAreNumbers(raw: Table)
    requires raw.Rectangular()
    ensures CleanSpec(raw).Success? ==>
      var out := CleanSpec(raw).value;
      forall i, j :: 0 <= i < |out.rows| && 0 <= j < |out.columns| && out.columns[j] in RequiredColumns ==>
        out.rows[i][j].Number?
  {
    var coerced := CoerceNumeric(Table(NormalizeColumns(raw.columns), raw.rows));
    if CleanSpec(raw).Success? {
      var out := CleanSpec(raw).value;
      forall i, j | 0 <= i < |out.rows| && 0 <= j < |out.columns| && out.columns[j] in RequiredColumns
        ensures out.rows[i][j].Number?
      {
        var r := out.rows[i];
        assert r in coerced.rows;
        var k :| 0 <= k < |coerced.rows| && coerced.rows[k] == r;
        CoerceCellIdempotent(raw.rows[k][j]);
      }
    }
  }

  /** Coercing the cleaned table again changes no cell. */
  lemma CleanedCoerced(raw: Table)
    requires raw.Rectangular() && CleanSpec(raw).Success?
    ensures CoerceNumeric(CleanSpec(raw).value) == CleanSpec(raw).value
  {
    var out := CleanSpec(raw).value;
    var coerced := CoerceNumeric(Table(NormalizeColumns(raw.columns), raw.rows));
    var again := CoerceNumeric(out);
    forall i | 0 <= i < |out.rows| ensures again.rows[i] == out.rows[i] {
      var r := out.rows[i];
      assert r in coerced.rows;
      var k :| 0 <= k < |coerced.rows| && coerced.rows[k] == r;
      forall j | 0 <= j < |out.columns| ensures again.rows[i][j] == r[j] {
        CoerceCellIdempotent(raw.rows[k][j]);
      }
    }
  }

  /** Cleaning a cleaned table gives the same table back. */
  lemma CleanIdempotent(raw: Table)
    requires raw.Rectangular()
    ensures CleanSpec(raw).Success? ==> CleanSpec(CleanSpec(raw).value) == CleanSpec(raw)
  {
    if CleanSpec(raw).Success? {
      var out := CleanSpec(raw).value;
      CleanColumns(raw);
      CleanRows(raw);
      NormalizeColumnsIdempotent(raw.columns);
      CleanedCoerced(raw);
      assert Table(NormalizeColumns(out.columns), out.rows) == out;
      KeepCompleteAll(out.columns, out.rows);
    }
  }
}
