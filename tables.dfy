/** The tabular data both pipeline stages work on: a header of column names
    and rows of cells, as a pandas DataFrame holds them. */
module Tables {

  /** One cell: text as read from the file, a number after coercion, or the
      missing value (NaN in the source). */
  datatype Cell = Text(text: string) | Number(value: real) | Null

  datatype Table = Table(columns: seq<string>, rows: seq<seq<Cell>>)
  {
    /** Every row has one cell per column, as in any DataFrame. */
    predicate Rectangular()
    {
      forall i :: 0 <= i < |rows| ==> |rows[i]| == |columns|
    }
  }

  // Canonical names of the cleaned dataset.
  const ResearcherName := "researcher_name"
  const DocumentCount := "document_count"
  const TotalCitations := "total_citations"
  const Cnci := "cnci"
  const HIndex := "h_index"
  const PctOpenAccess := "pct_open_access"

  /** The five columns the cleaner coerces to numbers, in the order it visits them. */
  const NumericColumns: seq<string> := [DocumentCount, TotalCitations, Cnci, HIndex, PctOpenAccess]

  /** The two columns both stages insist on. */
  const RequiredColumns: set<string> := {DocumentCount, TotalCitations}

  /** The required columns a header lacks (`required - set(columns)`). */
  function MissingRequired(columns: seq<string>): set<string>
  {
    RequiredColumns - set c | c in columns
  }

  /** The position of the first column called `name`. */
  function IndexOf(columns: seq<string>, name: string): (j: nat)
    requires name in columns
    ensures j < |columns| && columns[j] == name
    ensures forall k :: 0 <= k < j ==> columns[k] != name
  {
    if columns[0] == name then 0 else 1 + IndexOf(columns[1..], name)
  }

  /** A required column is reported missing exactly when the header lacks
      it; nothing is missing exactly when both are present. */
  lemma MissingRequiredSpec(columns: seq<string>)
    ensures forall c :: c in MissingRequired(columns) <==> c in RequiredColumns && c !in columns
    ensures MissingRequired(columns) == {} <==> DocumentCount in columns && TotalCitations in columns
  {
    if DocumentCount !in columns {
      assert DocumentCount in MissingRequired(columns);
    } else if TotalCitations !in columns {
      assert TotalCitations in MissingRequired(columns);
    }
  }
}
