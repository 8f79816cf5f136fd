/** The table the upload step decodes and the components receive
    (`PortfolioData` in src/components/PortfolioAIChat.tsx). */
module Portfolio {
  import opened Strings

  /** A decoded cell, `string | number`. Numbers are modelled as integers. */
  datatype Cell = Str(text: string) | Num(value: int)

  /** Column names, and rows of cells; rows may be ragged. */
  datatype PortfolioData = PortfolioData(headers: seq<string>, data: seq<seq<Cell>>)

  /** `String(cell)`. */
  function CellText(c: Cell): string {
    match c
    case Str(s) => s
    case Num(n) => IntToString(n)
  }
}
