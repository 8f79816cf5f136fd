/** The table preview (src/components/DataPreview.tsx). */
module DataPreview {
  import opened Wrappers
  import opened Strings
  import opened Portfolio

  /** How many rows the preview shows at most. */
  const PreviewLimit := 10

  /** `rows.slice(0, 10)`: the first rows, in order, at most ten. */
  function PreviewRows(rows: seq<seq<Cell>>): (r: seq<seq<Cell>>)
    ensures |r| == if |rows| < PreviewLimit then |rows| else PreviewLimit
    ensures forall i :: 0 <= i < |r| ==> r[i] == rows[i]
  {
    if |rows| < PreviewLimit then rows else rows[..PreviewLimit]
  }

  /** The rows beyond the preview. */
  function HiddenCount(rows: seq<seq<Cell>>): nat {
    if |rows| > PreviewLimit then |rows| - PreviewLimit else 0
  }

  /** The shown and the hidden rows account for every row, and the hidden
      ones are exactly those after the preview. */
  lemma RowsAccounted(rows: seq<seq<Cell>>)
    ensures |PreviewRows(rows)| + HiddenCount(rows) == |rows|
    ensures PreviewRows(rows) + rows[|PreviewRows(rows)|..] == rows
  {
    var p := PreviewRows(rows);
    assert p == rows[..|p|];
  }

  /** The line under the title. */
  function Caption(rows: seq<seq<Cell>>): string {
    "Showing " + NatToString(|PreviewRows(rows)|) + " of " + NatToString(|rows|) + " rows"
  }

  /** The caption names min(10, n) and n; a table of at most ten rows is
      shown whole, so both numbers agree. */
  lemma CaptionCounts(rows: seq<seq<Cell>>)
    ensures Caption(rows) == "Showing " + NatToString(if |rows| < PreviewLimit then |rows| else PreviewLimit) +
                             " of " + NatToString(|rows|) + " rows"
    ensures |rows| <= PreviewLimit ==> Caption(rows) == "Showing " + NatToString(|rows|) + " of " + NatToString(|rows|) + " rows"
  {
    assert |rows| == PreviewLimit ==> |PreviewRows(rows)| == |rows|;
  }

  /** The footer under the table, when there is one. */
  function Footer(rows: seq<seq<Cell>>): (r: Option<string>)
    ensures r.Some? <==> |rows| > PreviewLimit
    ensures r.Some? ==> r.value == "... and " + NatToString(HiddenCount(rows)) + " more rows"
  {
    if |rows| > PreviewLimit then Some("... and " + NatToString(|rows| - PreviewLimit) + " more rows") else None
  }

  /** A cell JavaScript treats as false: the empty string or zero. */
  predicate Falsy(c: Cell) {
    c == Str("") || c == Num(0)
  }

  /** `cell || '-'`: a falsy cell shows as a dash, any other as its text;
      no cell of the table is left blank. */
  function ShownCell(c: Cell): (r: string)
    ensures Falsy(c) ==> r == "-"
    ensures !Falsy(c) ==> r == CellText(c)
    ensures |r| > 0
  {
    if Falsy(c) then "-" else CellText(c)
  }

  /** The texts of one displayed row, cell by cell. */
  function ShownRow(row: seq<Cell>): (r: seq<string>)
    ensures |r| == |row|
    ensures forall j :: 0 <= j < |row| ==> r[j] == ShownCell(row[j]) && |r[j]| > 0
  {
    seq(|row|, j requires 0 <= j < |row| => ShownCell(row[j]))
  }

  /** The body of the table: the preview rows, displayed. */
  function Body(rows: seq<seq<Cell>>): (r: seq<seq<string>>)
    ensures |r| == |PreviewRows(rows)|
    ensures forall i :: 0 <= i < |r| ==> r[i] == ShownRow(rows[i])
  {
    var p := PreviewRows(rows);
    seq(|p|, i requires 0 <= i < |p| => ShownRow(p[i]))
  }
}
