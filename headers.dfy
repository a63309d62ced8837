/** Header normalisation done by the cleaner before anything else: surrounding
    whitespace is stripped from every column name (clean_data.py line 16),
    then names are renamed through a fixed six-entry table, other names
    passing through unchanged (lines 19-27). */
module Headers {
  import opened Tables

  /** The characters Python's `str.strip()` removes: those for which
      `str.isspace()` holds. */
  predicate IsSpace(c: char)
  {
    c == ' ' || '\t' <= c <= '\r' || '\U{1C}' <= c <= '\U{1F}'
    || c == '\U{85}' || c == '\U{A0}' || c == '\U{1680}'
    || '\U{2000}' <= c <= '\U{200A}' || c == '\U{2028}' || c == '\U{2029}'
    || c == '\U{202F}' || c == '\U{205F}' || c == '\U{3000}'
  }

  predicate AllSpace(s: string)
  {
    forall i :: 0 <= i < |s| ==> IsSpace(s[i])
  }

  function TrimStart(s: string): string
  {
    if |s| > 0 && IsSpace(s[0]) then TrimStart(s[1..]) else s
  }

  function TrimEnd(s: string): string
  {
    if |s| > 0 && IsSpace(s[|s| - 1]) then TrimEnd(s[..|s| - 1]) else s
  }

  /** `name.strip()` */
  function Strip(s: string): string
  {
    TrimEnd(TrimStart(s))
  }

  /** The whole header comprehension of line 16. */
  function StripColumns(columns: seq<string>): (r: seq<string>)
    ensures |r| == |columns|
  {
    seq(|columns|, i requires 0 <= i < |columns| => Strip(columns[i]))
  }

  /** The rename table of lines 19-26. */
  const ColumnMapping: map<string, string> := map[
    "Name" := ResearcherName,
    "Web of Science Documents" := DocumentCount,
    "Times Cited" := TotalCitations,
    "Category Normalized Citation Impact" := Cnci,
    "H-Index" := HIndex,
    "% All Open Access Documents" := PctOpenAccess
  ]

  /** `DataFrame.rename(columns=...)` applied to one name: a mapped name is
      replaced, any other name is kept. */
  function RenameColumn(name: string): string
  {
    if name in ColumnMapping then ColumnMapping[name] else name
  }

  function RenameColumns(columns: seq<string>): (r: seq<string>)
    ensures |r| == |columns|
  {
    seq(|columns|, i requires 0 <= i < |columns| => RenameColumn(columns[i]))
  }

  /** Header normalisation of one column: strip, then rename. */
  function NormalizeColumn(name: string): string
  {
    RenameColumn(Strip(name))
  }

  function NormalizeColumns(columns: seq<string>): (r: seq<string>)
    ensures |r| == |columns|
  {
    RenameColumns(StripColumns(columns))
  }

  // ---------------------------------------------------------------------
  // Stripping

  /** The whitespace that `TrimStart` cuts from the front. */
  function Leading(s: string): string
  {
    if |s| > 0 && IsSpace(s[0]) then [s[0]] + Leading(s[1..]) else []
  }

  /** The whitespace that `TrimEnd` cuts from the back. */
  function Trailing(s: string): string
  {
    if |s| > 0 && IsSpace(s[|s| - 1]) then Trailing(s[..|s| - 1]) + [s[|s| - 1]] else []
  }

  lemma {:induction false} TrimStartShape(s: string)
    ensures s == Leading(s) + TrimStart(s) && AllSpace(Leading(s))
    ensures |TrimStart(s)| > 0 ==> !IsSpace(TrimStart(s)[0])
  {
    if |s| > 0 && IsSpace(s[0]) {
      var rest := s[1..];
      TrimStartShape(rest);
      assert Leading(s) == [s[0]] + Leading(rest);
      assert forall i :: 1 <= i < |Leading(s)| ==> Leading(s)[i] == Leading(rest)[i - 1];
      assert s == [s[0]] + (Leading(rest) + TrimStart(rest));
    }
  }

  lemma {:induction false} TrimEndShape(s: string)
    ensures s == TrimEnd(s) + Trailing(s) && AllSpace(Trailing(s))
    ensures |TrimEnd(s)| > 0 ==> !IsSpace(TrimEnd(s)[|TrimEnd(s)| - 1])
  {
    if |s| > 0 && IsSpace(s[|s| - 1]) {
      var rest := s[..|s| - 1];
      TrimEndShape(rest);
      assert Trailing(s) == Trailing(rest) + [s[|s| - 1]];
      assert forall i :: 0 <= i < |Trailing(rest)| ==> Trailing(s)[i] == Trailing(rest)[i];
      assert s == (TrimEnd(rest) + Trailing(rest)) + [s[|s| - 1]];
    }
  }

  /** A stripped name is the original with only whitespace cut from either
      end, and it neither starts nor ends with whitespace. */
  lemma StripShape(s: string)
    ensures s == Leading(s) + Strip(s) + Trailing(TrimStart(s))
    ensures AllSpace(Leading(s)) && AllSpace(Trailing(TrimStart(s)))
    ensures |Strip(s)| > 0 ==> !IsSpace(Strip(s)[0]) && !IsSpace(Strip(s)[|Strip(s)| - 1])
  {
    TrimStartShape(s);
    var t := TrimStart(s);
    TrimEndShape(t);
    if |Strip(s)| > 0 {
      assert Strip(s)[0] == t[0];
    }
  }

  lemma TrimStartNoSpace(s: string)
    requires |s| == 0 || !IsSpace(s[0])
    ensures TrimStart(s) == s
  {
  }

  lemma TrimEndNoSpace(s: string)
    requires |s| == 0 || !IsSpace(s[|s| - 1])
    ensures TrimEnd(s) == s
  {
  }

  /** Stripping an already stripped name changes nothing. */
  lemma StripIdempotent(s: string)
    ensures Strip(Strip(s)) == Strip(s)
  {
    var t := Strip(s);
    StripShape(s);
    TrimStartNoSpace(t);
    TrimEndNoSpace(t);
  }

  lemma {:induction false} TrimStartSkipsSpace(a: string, s: string)
    requires AllSpace(a)
    ensures TrimStart(a + s) == TrimStart(s)
  {
    if |a| > 0 {
      assert (a + s)[1..] == a[1..] + s;
      TrimStartSkipsSpace(a[1..], s);
    } else {
      assert a + s == s;
    }
  }

  lemma {:induction false} TrimEndSkipsSpace(s: string, b: string)
    requires AllSpace(b)
    ensures TrimEnd(s + b) == TrimEnd(s)
  {
    if |b| > 0 {
      assert (s + b)[..|s + b| - 1] == s + b[..|b| - 1];
      TrimEndSkipsSpace(s, b[..|b| - 1]);
    } else {
      assert s + b == s;
    }
  }

  lemma {:induction false} TrimEndAllSpace(b: string)
    requires AllSpace(b)
    ensures TrimEnd(b) == []
  {
    if |b| > 0 {
      TrimEndAllSpace(b[..|b| - 1]);
    }
  }

  lemma {:induction false} TrimStartThenEnd(a: string, s: string, b: string)
    requires AllSpace(a) && AllSpace(b)
    ensures TrimEnd(TrimStart(a + s + b)) == TrimEnd(TrimStart(s + b))
  {
    assert a + s + b == a + (s + b);
    TrimStartSkipsSpace(a, s + b);
  }

  /** Two header names that differ only in surrounding whitespace strip to
      the same name. */
  lemma StripIgnoresPadding(a: string, s: string, b: string)
    requires AllSpace(a) && AllSpace(b)
    ensures Strip(a + s + b) == Strip(s)
  {
    TrimStartThenEnd(a, s, b);
    TrimStartShape(s);
    var lead, t := Leading(s), TrimStart(s);
    assert s + b == lead + (t + b);
    TrimStartSkipsSpace(lead, t + b);
    if |t| == 0 {
      assert t + b == b + [];
      TrimStartSkipsSpace(b, []);
      TrimEndAllSpace(b);
    } else {
      TrimStartNoSpace(t + b);
      TrimEndSkipsSpace(t, b);
    }
  }

  // ---------------------------------------------------------------------
  // Renaming

  /** Each of the six known source headers becomes its canonical name. */
  lemma RenameKnown()
    ensures RenameColumn("Name") == ResearcherName
    ensures RenameColumn("Web of Science Documents") == DocumentCount
    ensures RenameColumn("Times Cited") == TotalCitations
    ensures RenameColumn("Category Normalized Citation Impact") == Cnci
    ensures RenameColumn("H-Index") == HIndex
    ensures RenameColumn("% All Open Access Documents") == PctOpenAccess
  {
  }

  /** Any name outside the table passes through unchanged. */
  lemma RenamePassThrough(name: string)
    requires name !in ColumnMapping
    ensures RenameColumn(name) == name
  {
  }

  /** Renaming never produces a name that would be renamed again. */
  lemma RenameIdempotent(name: string)
    ensures RenameColumn(name) !in ColumnMapping
    ensures RenameColumn(RenameColumn(name)) == RenameColumn(name)
  {
  }

  /** Renaming keeps the number and order of the columns: column i of the
      result comes from column i of the input, and only a name from the
      table is changed. */
  lemma RenameColumnsPositional(columns: seq<string>)
    ensures |RenameColumns(columns)| == |columns|
    ensures forall i :: 0 <= i < |columns| && columns[i] !in ColumnMapping ==> RenameColumns(columns)[i] == columns[i]
    ensures forall i :: 0 <= i < |columns| && columns[i] in ColumnMapping ==> RenameColumns(columns)[i] == ColumnMapping[columns[i]]
  {
  }

  /** A header whose stripped text is one of the six source names becomes
      the canonical name, whatever whitespace surrounds it. */
  lemma NormalizePadded(a: string, name: string, b: string)
    requires AllSpace(a) && AllSpace(b)
    ensures NormalizeColumn(a + name + b) == NormalizeColumn(name)
  {
    StripIgnoresPadding(a, name, b);
  }

  /** The canonical names carry no surrounding whitespace. */
  lemma CanonicalStripped(c: string)
    requires c in ColumnMapping.Values
    ensures Strip(c) == c
  {
    TrimStartNoSpace(c);
    TrimEndNoSpace(c);
  }

  /** Only its source header and the canonical name itself rename to a
      required column name. */
  lemma RenameToRequired(name: string)
    ensures RenameColumn(name) == DocumentCount <==> name == "Web of Science Documents" || name == DocumentCount
    ensures RenameColumn(name) == TotalCitations <==> name == "Times Cited" || name == TotalCitations
  {
  }

  /** After normalisation the header has a required column exactly when
      some raw name, stripped, is that column's source header or the
      canonical name itself. */
  lemma RequiredAfterNormalize(columns: seq<string>)
    ensures DocumentCount in NormalizeColumns(columns) <==>
      exists i :: 0 <= i < |columns| && Strip(columns[i]) in {"Web of Science Documents", DocumentCount}
    ensures TotalCitations in NormalizeColumns(columns) <==>
      exists i :: 0 <= i < |columns| && Strip(columns[i]) in {"Times Cited", TotalCitations}
  {
    var out := NormalizeColumns(columns);
    forall i | 0 <= i < |columns|
      ensures out[i] == DocumentCount <==> Strip(columns[i]) in {"Web of Science Documents", DocumentCount}
      ensures out[i] == TotalCitations <==> Strip(columns[i]) in {"Times Cited", TotalCitations}
    {
      RenameToRequired(Strip(columns[i]));
    }
  }

  /** Normalising a header that is already normalised changes nothing. */
  lemma NormalizeIdempotent(name: string)
    ensures NormalizeColumn(NormalizeColumn(name)) == NormalizeColumn(name)
  {
    var s := Strip(name);
    StripIdempotent(name);
    RenameIdempotent(s);
    if s in ColumnMapping {
      CanonicalStripped(ColumnMapping[s]);
    }
  }

  lemma NormalizeColumnsIdempotent(columns: seq<string>)
    ensures NormalizeColumns(NormalizeColumns(columns)) == NormalizeColumns(columns)
  {
    var once := NormalizeColumns(columns);
    forall i | 0 <= i < |columns|
      ensures NormalizeColumns(once)[i] == once[i]
    {
      NormalizeIdempotent(columns[i]);
    }
  }
}
