/** The tabular values the scripts pass around. A cell is one pandas value:
    missing (NaN / pd.NA / None), text, an integer or a boolean. A frame is an
    ordered header plus rows; a row maps column names to cells. */
module Frames {

  import opened Text

  datatype Cell = Missing | Str(text: string) | Int(value: int) | Flag(flag: bool)

  type Record = map<string, Cell>

  datatype Frame = Frame(columns: seq<string>, rows: seq<Record>)

  /** The cell of `row` in column `c`; a column the row does not carry reads as missing. */
  function Get(row: Record, c: string): Cell {
    if c in row then row[c] else Missing
  }

  /** `str(x)` / `f"{x}"` of a cell. A missing cell prints as `nan`, the text
      of the float NaN that `read_csv` and left joins produce. */
  function Render(v: Cell): string {
    match v
    case Missing => "nan"
    case Str(s) => s
    case Int(i) => IntToString(i)
    case Flag(b) => if b then "True" else "False"
  }

  /** One row of `df.to_numpy()`: the cells in header order. */
  function RowValues(row: Record, columns: seq<string>): (r: seq<Cell>)
    ensures |r| == |columns|
    ensures forall k :: 0 <= k < |columns| ==> r[k] == Get(row, columns[k])
  {
    if |columns| == 0 then [] else [Get(row, columns[0])] + RowValues(row, columns[1..])
  }
}
