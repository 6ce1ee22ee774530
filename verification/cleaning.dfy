/** The value rules of `common_clean_steps`, applied to a frame whose header is
    already normalised: all-missing columns are dropped, sentinel values become
    missing, Yes/No flags become booleans, `speed_limit` becomes numeric, rows
    missing a critical field are dropped and the location and identity columns
    are filled with "Unknown". */
module Cleaning {

  import opened Outcomes
  import opened Seqs
  import opened Text
  import opened Frames

  const FlagColumns: seq<string> := [
    "bus_involvement", "heavy_rigid_truck_involvement",
    "articulated_truck_involvement", "christmas_period", "easter_period"
  ]

  /** Rows missing any of these are removed. */
  const RequiredColumns: seq<string> := ["speed_limit", "age", "time_of_day"]

  /** Missing values in these are replaced by "Unknown" at the end. */
  const FillColumns: seq<string> := [
    "national_lga_name_2021", "sa4_name_2021", "national_remoteness_areas", "gender", "road_user"
  ]

  const Unknown: string := "Unknown"

  /** The values replaced by missing in every column. */
  predicate IsSentinel(v: Cell) {
    v == Str("Unknown") || v == Str("nan") || v == Str("-9") || v == Int(-9)
  }

  /** The Yes/No mapping of a flag column; any other value has no image. */
  function YesNo(v: Cell): (r: Cell)
    ensures r.Flag? || r.Missing?
    ensures r == Flag(true) <==> v == Str("Yes")
    ensures r == Flag(false) <==> v == Str("No")
  {
    if v == Str("Yes") then Flag(true)
    else if v == Str("No") then Flag(false)
    else Missing
  }

  /** `pd.to_numeric(errors="coerce")`: integer text is read, a boolean
      counts as 1 or 0, anything else becomes missing. */
  function ToNumeric(v: Cell): (r: Cell)
    ensures r.Int? || r.Missing?
    ensures v.Int? ==> r == v
    ensures v.Str? ==> (r.Int? <==> ParseInt(v.text).Some?)
    ensures v.Str? && ParseInt(v.text).Some? ==> r == Int(ParseInt(v.text).value)
    ensures v.Flag? ==> r == Int(if v.flag then 1 else 0)
    ensures v.Missing? ==> r.Missing?
  {
    match v
    case Int(_) => v
    case Flag(b) => Int(if b then 1 else 0)
    case Missing => Missing
    case Str(s) => match ParseInt(s) case Some(n) => Int(n) case None => Missing
  }

  /** The per-cell rules, in the order the script applies them. */
  function CleanCell(c: string, v: Cell): (r: Cell)
    ensures c !in FlagColumns && c != "speed_limit" ==> !IsSentinel(r)
    ensures c == "road_user" ==> r != Str("Other/-9")
    ensures c in FlagColumns ==> r.Flag? || r.Missing?
    ensures c == "speed_limit" ==> r.Int? || r.Missing?
    ensures c == "speed_limit" && v == Str("<40") ==> r == Int(40)
    ensures c !in FlagColumns && c != "speed_limit" && c != "road_user" ==> r == if IsSentinel(v) then Missing else v
    ensures c == "road_user" && v != Str("Other/-9") ==> r == if IsSentinel(v) then Missing else v
    ensures c in FlagColumns ==> (r == Flag(true) <==> v == Str("Yes")) && (r == Flag(false) <==> v == Str("No"))
    ensures c == "speed_limit" && v.Str? && !IsSentinel(v) && ParseInt(v.text).Some? ==> r == Int(ParseInt(v.text).value)
    ensures c == "road_user" && v == Str("Other/-9") ==> r == Missing
    ensures c == "speed_limit" && v.Int? && v != Int(-9) ==> r == v
    ensures c == "speed_limit" && v.Flag? ==> r == Int(if v.flag then 1 else 0)
    ensures c == "speed_limit" && (IsSentinel(v) || v.Missing? || (v.Str? && v != Str("<40") && ParseInt(v.text).None?)) ==> r == Missing
  {
    assert !IsDigit("<40"[0]);
    var v1 := if c == "road_user" && v == Str("Other/-9") then Missing else v;
    var v2 := if IsSentinel(v1) then Missing else v1;
    var v3 := if c in FlagColumns then YesNo(v2) else v2;
    if c == "speed_limit" then ToNumeric(if v3 == Str("<40") then Int(40) else v3) else v3
  }

  /** Integer text in its canonical decimal form is read back as the same number. */
  lemma ToNumericReadsDecimal(n: int)
    ensures ToNumeric(Str(IntToString(n))) == Int(n)
  {
    ParseIntToString(n);
  }

  /** A speed written in decimal survives cleaning as that number, unless it is the
      sentinel -9, which becomes missing. */
  lemma CleanSpeedReadsDecimal(n: int)
    ensures CleanCell("speed_limit", Str(IntToString(n))) == if n == -9 then Missing else Int(n)
  {
    ParseIntToString(n);
    DecimalSentinel(n);
  }

  /** The only integer whose decimal text is a sentinel is -9. */
  lemma DecimalSentinel(n: int)
    ensures IsSentinel(Str(IntToString(n))) <==> n == -9
  {
    var t := IntToString(n);
    ParseIntToString(n);
    assert t != "Unknown" by {
      assert !IsDigit("Unknown"[0]);
    }
    assert t != "nan" by {
      assert !IsDigit("nan"[0]);
    }
    if n == -9 {
      assert NatToString(9) == "9";
    } else {
      assert DigitsValue("9") == 9;
      assert ParseInt("-9") == Some(-9);
    }
  }

  /** `fillna("Unknown")` on the fill columns. */
  function FillCell(c: string, v: Cell): (r: Cell)
    ensures c in FillColumns ==> r != Missing
    ensures v != Missing ==> r == v
    ensures c !in FillColumns ==> r == v
  {
    if c in FillColumns && v == Missing then Str(Unknown) else v
  }

  /** Some row carries a value in column `c`. */
  predicate AnyPresent(rows: seq<Record>, c: string) {
    exists i :: 0 <= i < |rows| && Get(rows[i], c) != Missing
  }

  function CleanRow(row: Record, cols: seq<string>): (r: Record)
    ensures r.Keys == set c | c in cols
    ensures forall c :: c in cols ==> r[c] == CleanCell(c, Get(row, c))
  {
    map c | c in cols :: CleanCell(c, Get(row, c))
  }

  function FillRow(row: Record, cols: seq<string>): (r: Record)
    ensures r.Keys == set c | c in cols
    ensures forall c :: c in cols ==> r[c] == FillCell(c, Get(row, c))
  {
    map c | c in cols :: FillCell(c, Get(row, c))
  }

  /** The row has every required column the frame still has. */
  predicate HasRequired(row: Record, cols: seq<string>) {
    forall c :: c in RequiredColumns && c in cols ==> Get(row, c) != Missing
  }

  /** What a cleaned cell of column `c` can hold. */
  predicate CleanedCell(c: string, x: Cell) {
    && (c !in FlagColumns && c != "speed_limit" && c !in FillColumns ==> !IsSentinel(x))
    && (c in FillColumns ==> x != Missing && (IsSentinel(x) ==> x == Str(Unknown)))
    && (c == "road_user" ==> x != Str("Other/-9"))
    && (c in FlagColumns ==> x.Flag? || x.Missing?)
    && (c == "speed_limit" ==> x.Int?)
    && (c in RequiredColumns ==> x != Missing)
  }

  predicate CleanedRow(row: Record, cols: seq<string>) {
    && row.Keys == set c | c in cols
    && forall c :: c in cols ==> CleanedCell(c, Get(row, c))
  }

  lemma CleanedCellOf(c: string, v: Cell)
    requires c in RequiredColumns ==> CleanCell(c, v) != Missing
    ensures CleanedCell(c, FillCell(c, CleanCell(c, v)))
  {
  }

  lemma CleanedRowOf(row: Record, cols: seq<string>)
    requires HasRequired(CleanRow(row, cols), cols)
    ensures CleanedRow(FillRow(CleanRow(row, cols), cols), cols)
  {
    var a := CleanRow(row, cols);
    var b := FillRow(a, cols);
    forall c | c in cols ensures CleanedCell(c, Get(b, c)) {
      assert Get(a, c) == CleanCell(c, Get(row, c));
      CleanedCellOf(c, Get(row, c));
    }
  }

  /** `common_clean_steps` after the renaming of the header. Both selections
      are boolean masks, so the kept columns and rows stay in input order and
      a repeated row is kept as often as it occurs. */
  function CleanFrame(f: Frame): (r: Frame)
    ensures r.columns == Filter(f.columns, c => AnyPresent(f.rows, c))
    ensures forall c :: c in r.columns <==> c in f.columns && AnyPresent(f.rows, c)
    ensures r.rows == Map(Filter(f.rows, KeepsRequired(r.columns)), CleanAndFill(r.columns))
    ensures |r.rows| <= |f.rows|
    ensures forall row :: row in r.rows ==> CleanedRow(row, r.columns)
  {
    var kept := Filter(f.columns, c => AnyPresent(f.rows, c));
    var cleaned := Map(f.rows, (row: Record) => CleanRow(row, kept));
    var complete := Filter(cleaned, (row: Record) => HasRequired(row, kept));
    var filled := Map(complete, (row: Record) => FillRow(row, kept));
    CleanedRowsOf(f.rows, kept);
    CleanRowsInOrder(f.rows, kept);
    Frame(kept, filled)
  }

  /** Every row that survives cleaning and filling satisfies the value rules. */
  lemma CleanedRowsOf(rows: seq<Record>, kept: seq<string>)
    ensures var complete := Filter(Map(rows, (row: Record) => CleanRow(row, kept)), (row: Record) => HasRequired(row, kept));
      forall row :: row in Map(complete, (row: Record) => FillRow(row, kept)) ==> CleanedRow(row, kept)
  {
    var cleaned := Map(rows, (row: Record) => CleanRow(row, kept));
    var complete := Filter(cleaned, (row: Record) => HasRequired(row, kept));
    var filled := Map(complete, (row: Record) => FillRow(row, kept));
    forall k | 0 <= k < |complete| ensures CleanedRow(filled[k], kept) {
      assert complete[k] in cleaned;
      var i :| 0 <= i < |cleaned| && cleaned[i] == complete[k];
      CleanedRowOf(rows[i], kept);
    }
  }

  /** The row mask: the cleaned row still has its required fields. */
  function KeepsRequired(cols: seq<string>): Record -> bool {
    (row: Record) => HasRequired(CleanRow(row, cols), cols)
  }

  /** A kept row as it leaves: cleaned, then filled. */
  function CleanAndFill(cols: seq<string>): Record -> Record {
    (row: Record) => FillRow(CleanRow(row, cols), cols)
  }

  lemma KeepsRequiredAt(cols: seq<string>, row: Record)
    ensures KeepsRequired(cols)(row) == HasRequired(CleanRow(row, cols), cols)
  {
  }

  lemma CleanAndFillAt(cols: seq<string>, row: Record)
    ensures CleanAndFill(cols)(row) == FillRow(CleanRow(row, cols), cols)
  {
  }

  /** Dropping incomplete rows after cleaning them selects the same rows, in the
      same order, as a mask computed on the input rows. */
  lemma CleanRowsInOrder(rows: seq<Record>, cols: seq<string>)
    ensures Map(Filter(Map(rows, (row: Record) => CleanRow(row, cols)), (row: Record) => HasRequired(row, cols)),
                (row: Record) => FillRow(row, cols))
         == Map(Filter(rows, KeepsRequired(cols)), CleanAndFill(cols))
  {
    var clean := (row: Record) => CleanRow(row, cols);
    var complete := (row: Record) => HasRequired(row, cols);
    var fill := (row: Record) => FillRow(row, cols);
    FilterMap(rows, clean, complete, KeepsRequired(cols));
    MapMap(Filter(rows, KeepsRequired(cols)), clean, fill, CleanAndFill(cols));
  }

  /** A row whose speed limit, age and time of day survive the value rules is
      kept, cleaned and filled. */
  lemma CleanFrameKeepsCompleteRows(f: Frame, i: int)
    requires 0 <= i < |f.rows|
    requires CleanCell("speed_limit", Get(f.rows[i], "speed_limit")) != Missing
    requires CleanCell("age", Get(f.rows[i], "age")) != Missing
    requires CleanCell("time_of_day", Get(f.rows[i], "time_of_day")) != Missing
    ensures var r := CleanFrame(f);
      FillRow(CleanRow(f.rows[i], r.columns), r.columns) in r.rows
  {
    var kept := Filter(f.columns, c => AnyPresent(f.rows, c));
    var cleaned := Map(f.rows, (row: Record) => CleanRow(row, kept));
    var complete := Filter(cleaned, (row: Record) => HasRequired(row, kept));
    assert cleaned[i] == CleanRow(f.rows[i], kept);
    RequiredSurvive(f.rows[i], kept);
    assert cleaned[i] in complete;
    var k :| 0 <= k < |complete| && complete[k] == cleaned[i];
  }

  lemma RequiredSurvive(row: Record, cols: seq<string>)
    requires CleanCell("speed_limit", Get(row, "speed_limit")) != Missing
    requires CleanCell("age", Get(row, "age")) != Missing
    requires CleanCell("time_of_day", Get(row, "time_of_day")) != Missing
    ensures HasRequired(CleanRow(row, cols), cols)
  {
  }

  /** Every cleaned row is the cleaned and filled image of an input row that
      kept its required fields: cleaning invents no rows. */
  lemma CleanFrameRowsFromInput(f: Frame, row: Record)
    requires row in CleanFrame(f).rows
    ensures var cols := CleanFrame(f).columns;
      exists i :: 0 <= i < |f.rows| && HasRequired(CleanRow(f.rows[i], cols), cols)
                  && row == FillRow(CleanRow(f.rows[i], cols), cols)
  {
    var cols := CleanFrame(f).columns;
    var i := MapFilterOrigin(f.rows, KeepsRequired(cols), CleanAndFill(cols), row);
    KeepsRequiredAt(cols, f.rows[i]);
    CleanAndFillAt(cols, f.rows[i]);
  }
}
