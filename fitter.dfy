/** The non-numeric logic of the fitter stage (run_regression.py): the check
    for the two required columns (lines 84-87), the top-3 highlight with its
    name labels (lines 40-68), and the integer x-axis ticks (lines 27-29),
    in the order `main` runs them. */
module Fitter {
  import opened Wrappers
  import opened Tables
  import opened Selection
  import opened Ticks
  import Cleaner

  datatype FitError =
    | MissingColumns(missing: set<string>)  // the ValueError of line 87
    | EmptyColumn                           // the reduction of line 27 on no rows

  /** Lines 84-87: fail, naming the missing ones, unless both required
      columns are present. */
  function CheckColumns(columns: seq<string>): (r: Result<(), FitError>)
    ensures r.Success? <==> DocumentCount in columns && TotalCitations in columns
    ensures r.Failure? ==> r.error.MissingColumns? && r.error.missing != {}
    ensures r.Failure? ==> forall c :: c in r.error.missing <==> c in RequiredColumns && c !in columns
  {
    MissingRequiredSpec(columns);
    var missing := MissingRequired(columns);
    if missing != {} then Failure(MissingColumns(missing)) else Success(())
  }

  /** The input the fitter reads: the cleaner's output, where every cell
      under a required column is a number. */
  predicate NumericInput(t: Table)
  {
    forall i, j :: 0 <= i < |t.rows| && 0 <= j < |t.rows[i]| && j < |t.columns| && t.columns[j] in RequiredColumns ==>
      t.rows[i][j].Number?
  }

  /** `df[name]` for a required column. */
  function Column(t: Table, name: string): (xs: seq<real>)
    requires t.Rectangular() && NumericInput(t) && name in RequiredColumns && name in t.columns
    ensures |xs| == |t.rows|
  {
    var j := IndexOf(t.columns, name);
    seq(|t.rows|, i requires 0 <= i < |t.rows| => t.rows[i][j].value)
  }

  /** The highlighted rows, by position, and the name cell drawn beside each
      (none when the table has no name column). */
  datatype Highlight = Highlight(rows: seq<nat>, labels: seq<Cell>)

  /** `_highlight_top3` */
  function HighlightTop3(t: Table): (h: Highlight)
    requires t.Rectangular() && NumericInput(t) && DocumentCount in t.columns && TotalCitations in t.columns
  {
    if |t.rows| == 0 then Highlight([], [])
    else
      var top := Top3(Column(t, TotalCitations));
      Top3Properties(Column(t, TotalCitations));
      var labels :=
        if ResearcherName in t.columns then
          var j := IndexOf(t.columns, ResearcherName);
          seq(|top|, p requires 0 <= p < |top| => t.rows[top[p]][j])
        else [];
      Highlight(top, labels)
  }

  /** What `main` hands to the plots. */
  datatype PlotData = PlotData(highlight: Highlight, ticks: seq<int>)

  /** The fitter's `main` up to the plots: check the columns, highlight, and
      compute the ticks, which fail on a table without rows. */
  function Prepare(t: Table): Result<PlotData, FitError>
    requires t.Rectangular() && NumericInput(t)
  {
    match CheckColumns(t.columns)
    case Failure(e) => Failure(e)
    case Success(_) =>
      var highlight := HighlightTop3(t);
      match XTicks(Column(t, DocumentCount))
      case None => Failure(EmptyColumn)
      case Some(ticks) => Success(PlotData(highlight, ticks))
  }

  // ---------------------------------------------------------------------
  // Properties

  /** An empty table highlights and labels nothing; otherwise the highlight
      is exactly the top `min(3, n)` rows by citations with ties to the
      earlier row, and each label is the name cell of its highlighted row. */
  lemma HighlightSpec(t: Table)
    requires t.Rectangular() && NumericInput(t) && DocumentCount in t.columns && TotalCitations in t.columns
    ensures |t.rows| == 0 ==> HighlightTop3(t) == Highlight([], [])
    ensures IsTopK(Column(t, TotalCitations), Min(3, |t.rows|), HighlightTop3(t).rows)
    ensures ResearcherName !in t.columns ==> HighlightTop3(t).labels == []
    ensures ResearcherName in t.columns ==>
      |HighlightTop3(t).labels| == |HighlightTop3(t).rows|
      && forall p :: 0 <= p < |HighlightTop3(t).rows| ==>
        HighlightTop3(t).labels[p] == t.rows[HighlightTop3(t).rows[p]][IndexOf(t.columns, ResearcherName)]
  {
    var xs := Column(t, TotalCitations);
    NLargestIsTopK(xs, Min(3, |xs|));
    if |t.rows| == 0 {
      assert Ranking(xs, 0) == [];
    }
  }

  /** The fitter fails on missing columns first, naming exactly the missing
      ones; with both present it fails only on a table without rows; on
      success the ticks are the consecutive integers from the truncated
      smallest to the truncated largest document count. */
  lemma PrepareSpec(t: Table)
    requires t.Rectangular() && NumericInput(t)
    ensures (Prepare(t).Failure? && Prepare(t).error.MissingColumns?) <==>
      !(DocumentCount in t.columns && TotalCitations in t.columns)
    ensures Prepare(t).Failure? && Prepare(t).error.MissingColumns? ==>
      forall c :: c in Prepare(t).error.missing <==> c in RequiredColumns && c !in t.columns
    ensures DocumentCount in t.columns && TotalCitations in t.columns ==>
      (Prepare(t).Failure? <==> |t.rows| == 0)
    ensures Prepare(t).Success? ==>
      var docs := Column(t, DocumentCount);
      && Prepare(t).value.highlight == HighlightTop3(t)
      && |Prepare(t).value.ticks| == Trunc(Largest(docs)) - Trunc(Smallest(docs)) + 1
      && (forall i :: 0 <= i < |Prepare(t).value.ticks| ==> Prepare(t).value.ticks[i] == Trunc(Smallest(docs)) + i)
      && (forall i :: 0 <= i < |docs| ==> Trunc(docs[i]) in Prepare(t).value.ticks)
  {
    if DocumentCount in t.columns && TotalCitations in t.columns {
      XTicksSpec(Column(t, DocumentCount));
    }
  }

  /** The two stages fit together: a table the cleaner produces is one the
      fitter accepts, failing only when no row survived cleaning. */
  lemma CleanedTableFits(raw: Table)
    requires raw.Rectangular()
    ensures Cleaner.CleanSpec(raw).Success? ==>
      var t := Cleaner.CleanSpec(raw).value;
      && t.Rectangular() && NumericInput(t)
      && (Prepare(t).Success? <==> |t.rows| > 0)
  {
    Cleaner.CleanColumns(raw);
    Cleaner.CleanRequiredAreNumbers(raw);
    if Cleaner.CleanSpec(raw).Success? {
      var t := Cleaner.CleanSpec(raw).value;
      PrepareSpec(t);
    }
  }
}
