/** The summary report written at the end of run_regression.py `main` (lines
    170-179): seven lines in a fixed order, the last restating the model
    equation with the same formatted intercept and slope as lines two and
    three. Number formatting (`:.6f`) is the parameter `fmt`. */
module Report {
  import opened Wrappers
  import opened Tables

  const Title := "Linear Regression: " + TotalCitations + " ~ " + DocumentCount
  const InterceptLabel := "Intercept (\U{3B2}0): "
  const SlopeLabel := "Coefficient (\U{3B2}1): "
  const R2Label := "R-squared: "
  const EquationHeading := "Model equation:"

  function EquationLine(intercept: string, slope: string): string
  {
    TotalCitations + " = " + intercept + " + " + slope + " \U{D7} " + DocumentCount
  }

  /** The lines of the report, without their line ends. */
  function ReportLines(intercept: real, slope: real, r2: real, fmt: real -> string): seq<string>
  {
    [ Title,
      InterceptLabel + fmt(intercept),
      SlopeLabel + fmt(slope),
      R2Label + fmt(r2),
      "",
      EquationHeading,
      EquationLine(fmt(intercept), fmt(slope)) ]
  }

  /** Each line followed by a line end, as the writes of lines 171-179 lay
      them out. */
  function JoinLines(lines: seq<string>): string
  {
    if |lines| == 0 then "" else lines[0] + "\n" + JoinLines(lines[1..])
  }

  function ReportText(intercept: real, slope: real, r2: real, fmt: real -> string): string
  {
    JoinLines(ReportLines(intercept, slope, r2, fmt))
  }

  // ---------------------------------------------------------------------
  // Reading a report back

  /** The position of the first line end, or the length if there is none. */
  function LineEnd(text: string): (k: nat)
    ensures k <= |text| && '\n' !in text[..k]
    ensures k < |text| ==> text[k] == '\n'
  {
    if |text| == 0 || text[0] == '\n' then 0
    else
      var k := 1 + LineEnd(text[1..]);
      assert text[..k] == [text[0]] + text[1..][..k - 1];
      k
  }

  /** The lines of a text, each ended by a line end (the last one may lack it). */
  function SplitLines(text: string): seq<string>
    decreases |text|
  {
    if |text| == 0 then []
    else
      var k := LineEnd(text);
      if k == |text| then [text] else [text[..k]] + SplitLines(text[k + 1..])
  }

  datatype Summary = Summary(intercept: string, slope: string, r2: string)

  /** The three numbers of a report, provided it has the seven-line layout
      and its equation line agrees with the intercept and slope above it. */
  function ReadReport(text: string): (r: Option<Summary>)
    ensures r.Some? ==>
      var lines := SplitLines(text);
      && |lines| == 7
      && lines[1] == InterceptLabel + r.value.intercept
      && lines[2] == SlopeLabel + r.value.slope
      && lines[3] == R2Label + r.value.r2
      && lines[6] == EquationLine(r.value.intercept, r.value.slope)
  {
    var lines := SplitLines(text);
    if |lines| == 7 && lines[0] == Title && InterceptLabel <= lines[1] && SlopeLabel <= lines[2]
       && R2Label <= lines[3] && lines[4] == "" && lines[5] == EquationHeading then
      var i := lines[1][|InterceptLabel|..];
      var s := lines[2][|SlopeLabel|..];
      var q := lines[3][|R2Label|..];
      assert lines[1] == InterceptLabel + i && lines[2] == SlopeLabel + s && lines[3] == R2Label + q;
      if lines[6] == EquationLine(i, s) then Some(Summary(i, s, q)) else None
    else None
  }

  // ---------------------------------------------------------------------
  // Properties

  /** Splitting the joined lines gives the lines back when none holds a line
      end. */
  lemma {:induction false} SplitJoin(lines: seq<string>)
    requires forall i :: 0 <= i < |lines| ==> '\n' !in lines[i]
    ensures SplitLines(JoinLines(lines)) == lines
  {
    if |lines| > 0 {
      var first, rest := lines[0], JoinLines(lines[1..]);
      var text := first + ("\n" + rest);
      assert JoinLines(lines) == text;
      LineEndAt(first, "\n" + rest);
      assert text[|first|] == '\n';
      assert text[..|first|] == first;
      assert text[|first| + 1..] == rest;
      assert SplitLines(text) == [first] + SplitLines(rest);
      assert forall i :: 0 <= i < |lines[1..]| ==> lines[1..][i] == lines[i + 1];
      SplitJoin(lines[1..]);
      assert lines == [first] + lines[1..];
    }
  }

  lemma LineEndAt(a: string, b: string)
    requires '\n' !in a && |b| > 0 && b[0] == '\n'
    ensures LineEnd(a + b) == |a|
  {
    var k := LineEnd(a + b);
    assert forall i :: 0 <= i < |a| ==> (a + b)[i] == a[i];
    assert (a + b)[|a|] == '\n';
    assert forall i :: 0 <= i < k ==> (a + b)[i] == (a + b)[..k][i];
  }

  lemma LabelsOneLine()
    ensures '\n' !in Title && '\n' !in EquationHeading
    ensures '\n' !in InterceptLabel && '\n' !in SlopeLabel && '\n' !in R2Label
    ensures '\n' !in TotalCitations && '\n' !in DocumentCount
  {
    assert '\n' !in TotalCitations && '\n' !in DocumentCount;
    NoNewline("Linear Regression: ", TotalCitations);
    NoNewline("Linear Regression: " + TotalCitations, " ~ ");
    NoNewline("Linear Regression: " + TotalCitations + " ~ ", DocumentCount);
  }

  lemma EquationOneLine(intercept: string, slope: string)
    requires '\n' !in intercept && '\n' !in slope
    ensures '\n' !in EquationLine(intercept, slope)
  {
    LabelsOneLine();
    var a := TotalCitations + " = ";
    NoNewline(TotalCitations, " = ");
    NoNewline(a, intercept);
    NoNewline(a + intercept, " + ");
    NoNewline(a + intercept + " + ", slope);
    NoNewline(a + intercept + " + " + slope, " \U{D7} ");
    NoNewline(a + intercept + " + " + slope + " \U{D7} ", DocumentCount);
  }

  /** None of the seven lines holds a line end of its own. */
  lemma ReportLinesOneLine(intercept: real, slope: real, r2: real, fmt: real -> string)
    requires '\n' !in fmt(intercept) && '\n' !in fmt(slope) && '\n' !in fmt(r2)
    ensures |ReportLines(intercept, slope, r2, fmt)| == 7
    ensures forall i :: 0 <= i < 7 ==> '\n' !in ReportLines(intercept, slope, r2, fmt)[i]
  {
    var lines := ReportLines(intercept, slope, r2, fmt);
    LabelsOneLine();
    NoNewline(InterceptLabel, fmt(intercept));
    NoNewline(SlopeLabel, fmt(slope));
    NoNewline(R2Label, fmt(r2));
    EquationOneLine(fmt(intercept), fmt(slope));
  }

  /** A written report reads back as the three formatted numbers it was
      written from: it has seven lines in the fixed order, and its equation
      line carries the same intercept and slope text as lines two and
      three. */
  lemma ReportRoundTrip(intercept: real, slope: real, r2: real, fmt: real -> string)
    requires '\n' !in fmt(intercept) && '\n' !in fmt(slope) && '\n' !in fmt(r2)
    ensures SplitLines(ReportText(intercept, slope, r2, fmt)) == ReportLines(intercept, slope, r2, fmt)
    ensures ReadReport(ReportText(intercept, slope, r2, fmt)) == Some(Summary(fmt(intercept), fmt(slope), fmt(r2)))
  {
    var lines := ReportLines(intercept, slope, r2, fmt);
    ReportLinesOneLine(intercept, slope, r2, fmt);
    SplitJoin(lines);
    assert (InterceptLabel + fmt(intercept))[|InterceptLabel|..] == fmt(intercept);
    assert (SlopeLabel + fmt(slope))[|SlopeLabel|..] == fmt(slope);
    assert (R2Label + fmt(r2))[|R2Label|..] == fmt(r2);
  }

  lemma NoNewline(a: string, b: string)
    requires '\n' !in a && '\n' !in b
    ensures '\n' !in a + b
  {
  }
}
