/**
 * The body of the `/extract-financials/` endpoint once the upload is read:
 * document text from the pages, candidate lines from the text, one row per
 * candidate line that has a known label and at least one number, and a single
 * INFO row when no line qualifies.
 */
module Extraction {
  import opened Options
  import opened Strings
  import PageText
  import LineFilter
  import NumberParser
  import LabelNormalizer

  /** One row of the table: the "Raw Line", "Standard Label" and "Values Found" columns. */
  datatype Row = Row(rawLine: string, standardLabel: string, values: string)

  /** The label of the fallback row. */
  const Info: string := "INFO"

  /** The only row of the table when no line qualifies. */
  const InfoRow: Row := Row("No income statement data detected in first 40 pages.", Info, "")

  /** A line is kept when its label is known and at least one number was found in it. */
  predicate Qualifies(line: string) {
    LabelNormalizer.NormalizeLabel(line) != LabelNormalizer.Unknown && NumberParser.Numbers(line) != []
  }

  /** The row built from a line: the line, its label, and its numbers joined by ", ". */
  function RowOf(line: string): Row {
    Row(line, LabelNormalizer.NormalizeLabel(line), Join(NumberParser.Numbers(line), ", "))
  }

  /** The rows of the qualifying lines, in their order. */
  function Rows(lines: seq<string>): seq<Row> {
    if lines == [] then []
    else
      var last := lines[|lines| - 1];
      Rows(lines[..|lines| - 1]) + if Qualifies(last) then [RowOf(last)] else []
  }

  /** The table written to the CSV: the rows, or the fallback row alone when there are none. */
  function Table(lines: seq<string>): seq<Row> {
    if Rows(lines) == [] then [InfoRow] else Rows(lines)
  }

  /** The table the endpoint returns for a document whose pages yield `pages`. */
  function Pipeline(pages: seq<Option<string>>): seq<Row> {
    Table(LineFilter.IncomeStatementLines(PageText.DocumentText(pages)))
  }

  /** The row loop of the endpoint. */
  method BuildRows(lines: seq<string>) returns (data: seq<Row>)
    ensures data == Rows(lines)
  {
    data := [];
    for i := 0 to |lines|
      invariant data == Rows(lines[..i])
    {
      assert lines[..i + 1][..i] == lines[..i];
      var line := lines[i];
      var name := LabelNormalizer.NormalizeLabel(line);
      var numbers := NumberParser.ExtractNumbers(line);
      if name != LabelNormalizer.Unknown && numbers != [] {
        data := data + [Row(line, name, Join(numbers, ", "))];
      }
    }
    assert lines[..|lines|] == lines;
  }

  /** The endpoint from the page texts to the table, with the fallback row. */
  method ExtractFinancials(pages: seq<Option<string>>) returns (table: seq<Row>)
    ensures table == Pipeline(pages)
  {
    var text := PageText.ExtractText(pages);
    var lines := LineFilter.GetIncomeStatementLines(text);
    var data := BuildRows(lines);
    if data == [] {
      table := [InfoRow];
    } else {
      table := data;
    }
  }

  // ---------------------------------------------------------------------
  // Reading the "Values Found" cell back
  // ---------------------------------------------------------------------

  /** The position of the first `c` in `s`. */
  function FirstIndex(s: string, c: char): (r: nat)
    requires c in s
    ensures r < |s| && s[r] == c && c !in s[..r]
  {
    if s[0] == c then 0
    else
      var r := 1 + FirstIndex(s[1..], c);
      assert s[..r] == [s[0]] + s[1..][..r - 1];
      r
  }

  /** The pieces of a cell between its ", " separators. */
  function SplitValues(cell: string): seq<string>
    decreases |cell|
  {
    if ',' !in cell then [cell]
    else
      var i := FirstIndex(cell, ',');
      [cell[..i]] + SplitValues(cell[if i + 2 <= |cell| then i + 2 else |cell|..])
  }

  /** Splitting a cell joined with ", " from one or more comma-free pieces gives the pieces back. */
  lemma {:induction false} SplitValuesJoin(parts: seq<string>)
    requires |parts| > 0
    requires forall i :: 0 <= i < |parts| ==> ',' !in parts[i]
    ensures SplitValues(Join(parts, ", ")) == parts
  {
    var s := Join(parts, ", ");
    if |parts| == 1 {
      assert s == parts[0];
    } else {
      var head, rest := parts[0], parts[1..];
      assert s == head + ", " + Join(rest, ", ");
      assert s[|head|] == ',';
      assert s[..|head|] == head;
      var i := FirstIndex(s, ',');
      assert i == |head|;
      assert s[i + 2..] == Join(rest, ", ");
      SplitValuesJoin(rest);
    }
  }

  /** A joined cell whose first piece holds a digit holds a digit. */
  lemma JoinHasDigit(parts: seq<string>)
    requires |parts| > 0 && HasDigit(parts[0])
    ensures HasDigit(Join(parts, ", "))
  {
    var k :| 0 <= k < |parts[0]| && IsDigit(parts[0][k]);
    if |parts| > 1 {
      assert Join(parts, ", ")[k] == parts[0][k];
    }
  }

  // ---------------------------------------------------------------------
  // Properties of the rows
  // ---------------------------------------------------------------------

  /** The rows of two runs of lines are the rows of the first run, then those of the second. */
  lemma {:induction false} RowsAppend(a: seq<string>, b: seq<string>)
    ensures Rows(a + b) == Rows(a) + Rows(b)
    decreases |b|
  {
    if b == [] {
      assert a + b == a;
    } else {
      var b' := b[..|b| - 1];
      assert (a + b)[..|a + b| - 1] == a + b';
      assert (a + b)[|a + b| - 1] == b[|b| - 1];
      RowsAppend(a, b');
    }
  }

  /** A single line yields its row when it qualifies and nothing otherwise. */
  lemma RowsOfOne(line: string)
    ensures Rows([line]) == if Qualifies(line) then [RowOf(line)] else []
  {
    assert [line][..0] == [];
  }

  /**
   * Each line's rows sit after the rows of the lines before it and before the
   * rows of the lines after it.
   */
  lemma RowsAround(lines: seq<string>, i: nat)
    requires i < |lines|
    ensures Rows(lines) == Rows(lines[..i]) + Rows([lines[i]]) + Rows(lines[i + 1..])
  {
    var rest := lines[i..];
    assert lines[..i] + rest == lines;
    RowsAppend(lines[..i], rest);
    assert rest[..1] + rest[1..] == rest;
    assert rest[..1] == [lines[i]] && rest[1..] == lines[i + 1..];
    RowsAppend(rest[..1], rest[1..]);
  }

  /** Every row is the row of some qualifying line. */
  lemma {:induction false} RowsSound(lines: seq<string>, row: Row)
    requires row in Rows(lines)
    ensures exists i :: 0 <= i < |lines| && Qualifies(lines[i]) && row == RowOf(lines[i])
  {
    var init := lines[..|lines| - 1];
    if row in Rows(init) {
      RowsSound(init, row);
      var i :| 0 <= i < |init| && Qualifies(init[i]) && row == RowOf(init[i]);
      assert lines[i] == init[i];
    }
  }

  /** Every qualifying line has its row. */
  lemma RowsComplete(lines: seq<string>, i: nat)
    requires i < |lines| && Qualifies(lines[i])
    ensures RowOf(lines[i]) in Rows(lines)
  {
    RowsAround(lines, i);
    RowsOfOne(lines[i]);
  }

  /** There are no rows exactly when no line qualifies. */
  lemma RowsEmpty(lines: seq<string>)
    ensures Rows(lines) == [] <==> forall i :: 0 <= i < |lines| ==> !Qualifies(lines[i])
  {
    if Rows(lines) != [] {
      RowsSound(lines, Rows(lines)[0]);
    }
    if exists i :: 0 <= i < |lines| && Qualifies(lines[i]) {
      var i :| 0 <= i < |lines| && Qualifies(lines[i]);
      RowsComplete(lines, i);
    }
  }

  /**
   * A qualifying line's row keeps the line, has one of the seven known
   * labels, and has a "Values Found" cell that holds a digit and splits back
   * into exactly the numbers found in the line.
   */
  lemma RowOfQualifying(line: string)
    requires Qualifies(line)
    ensures RowOf(line).rawLine == line
    ensures RowOf(line).standardLabel in LabelNormalizer.Labels
    ensures RowOf(line).standardLabel != LabelNormalizer.Unknown && RowOf(line).standardLabel != Info
    ensures HasDigit(RowOf(line).values)
    ensures SplitValues(RowOf(line).values) == NumberParser.Numbers(line)
  {
    var numbers := NumberParser.Numbers(line);
    NumberParser.NumbersProperties(line);
    LabelNormalizer.NormalizeLabelClosed(line);
    SplitValuesJoin(numbers);
    JoinHasDigit(numbers);
  }

  /**
   * The table is never empty. It is the fallback row alone exactly when no
   * line qualifies; otherwise it holds no fallback row and every row comes
   * from a qualifying line.
   */
  lemma TableShape(lines: seq<string>)
    ensures Table(lines) != []
    ensures Table(lines) == [InfoRow] <==> forall i :: 0 <= i < |lines| ==> !Qualifies(lines[i])
    ensures (exists i :: 0 <= i < |lines| && Qualifies(lines[i])) ==>
              forall row :: row in Table(lines) ==> row.standardLabel != Info
  {
    RowsEmpty(lines);
    if Rows(lines) != [] {
      forall row | row in Rows(lines)
        ensures row.standardLabel != Info
      {
        RowsSound(lines, row);
        var i :| 0 <= i < |lines| && Qualifies(lines[i]) && row == RowOf(lines[i]);
        RowOfQualifying(lines[i]);
      }
      assert InfoRow !in Rows(lines);
    }
  }

  /** A row of the table other than the fallback row is the row of a qualifying line. */
  lemma TableRowsSound(lines: seq<string>, row: Row)
    requires row in Table(lines) && row.standardLabel != Info
    ensures row.rawLine in lines && Qualifies(row.rawLine) && row == RowOf(row.rawLine)
  {
    if Rows(lines) != [] {
      RowsSound(lines, row);
    }
  }

  /** Every row of the endpoint's table other than the fallback row comes from a candidate line of the document. */
  lemma RowsComeFromCandidates(pages: seq<Option<string>>, row: Row)
    ensures row in Pipeline(pages) && row.standardLabel != Info ==>
              && row.rawLine in LineFilter.IncomeStatementLines(PageText.DocumentText(pages))
              && Qualifies(row.rawLine) && row == RowOf(row.rawLine)
  {
    if row in Pipeline(pages) && row.standardLabel != Info {
      TableRowsSound(LineFilter.IncomeStatementLines(PageText.DocumentText(pages)), row);
    }
  }

  /** Pages after the first forty never change the table. */
  lemma PipelineIgnoresLaterPages(pages: seq<Option<string>>, extra: seq<Option<string>>)
    requires |pages| >= PageText.PageLimit
    ensures Pipeline(pages + extra) == Pipeline(pages)
  {
    PageText.LaterPagesIgnored(pages, extra);
  }
}
