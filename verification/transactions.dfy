/** Turning records into transactions of `column=value` items, as both mining
    scripts do before handing the transactions to the (unmodelled) one-hot
    encoder and Apriori miner; and the field projection that
    `merge_tables_for_arm` applies to the joined fatality records. */
module Transactions {

  import opened Outcomes
  import opened Seqs
  import opened Text
  import opened Frames

  /** The first of `cols` missing from `header`: selecting `df[cols]` raises
      a KeyError for it. */
  function FirstAbsent(header: seq<string>, cols: seq<string>): (r: Option<string>)
    ensures r.None? <==> forall k :: 0 <= k < |cols| ==> cols[k] in header
    ensures r.Some? ==> r.value in cols && r.value !in header
  {
    if |cols| == 0 then None
    else if cols[0] !in header then Some(cols[0])
    else
      var r := FirstAbsent(header, cols[1..]);
      assert forall k :: 1 <= k < |cols| ==> cols[k] == cols[1..][k - 1];
      r
  }

  /** The item of a present cell: `f"{col}={value}"`. */
  function Item(c: string, v: Cell): string {
    c + "=" + Render(v)
  }

  /** The attribute an item names: the text before its first `=`. */
  function ItemColumn(item: string): string {
    Split(item, '=')[0]
  }

  /** An item names the column it was made from, when that column's name has no `=`. */
  lemma ItemColumnOfItem(c: string, v: Cell)
    requires '=' !in c
    ensures ItemColumn(Item(c, v)) == c
  {
    SplitAtFirstSeparator(c, '=', Render(v));
    assert Item(c, v) == c + ['='] + Render(v);
  }

  /** One transaction: an item for every present cell, in column order; a
      missing cell contributes nothing. */
  function Tokenize(cols: seq<string>, cells: seq<Cell>): (t: seq<string>)
    requires |cols| == |cells|
    ensures |t| <= |cols|
    ensures forall k :: 0 <= k < |cols| && cells[k] != Missing ==> Item(cols[k], cells[k]) in t
    ensures forall x :: x in t ==>
              exists k :: 0 <= k < |cols| && cells[k] != Missing && x == Item(cols[k], cells[k])
  {
    if |cols| == 0 then []
    else
      var rest := Tokenize(cols[1..], cells[1..]);
      assert forall k :: 1 <= k < |cols| ==> cols[k] == cols[1..][k - 1] && cells[k] == cells[1..][k - 1];
      (if cells[0] == Missing then [] else [Item(cols[0], cells[0])]) + rest
  }

  /** Every name in `names` is one of `cols`, and the names follow the
      order of `cols` strictly. */
  predicate InColumnOrder(cols: seq<string>, names: seq<string>) {
    && (forall i :: 0 <= i < |names| ==> names[i] in cols)
    && (forall i, j :: 0 <= i < j < |names| ==> FirstIndex(cols, names[i]) < FirstIndex(cols, names[j]))
  }

  /** Over distinct column names without `=`, a transaction holds at most one
      item per column, and its items follow the column order. */
  lemma {:induction false} TokenizeOnePerColumn(cols: seq<string>, cells: seq<Cell>)
    requires |cols| == |cells|
    requires NoDuplicates(cols)
    requires forall k :: 0 <= k < |cols| ==> '=' !in cols[k]
    ensures InColumnOrder(cols, Map(Tokenize(cols, cells), ItemColumn))
    decreases |cols|
  {
    if |cols| > 0 {
      var t := Tokenize(cols, cells);
      var rest := Tokenize(cols[1..], cells[1..]);
      var names := Map(rest, ItemColumn);
      assert NoDuplicates(cols[1..]);
      TokenizeOnePerColumn(cols[1..], cells[1..]);
      OrderedInTail(cols, names);
      if cells[0] != Missing {
        ItemColumnOfItem(cols[0], cells[0]);
        assert t == [Item(cols[0], cells[0])] + rest;
        assert Map(t, ItemColumn) == [cols[0]] + names;
        OrderedCons(cols, names);
      } else {
        assert t == rest;
      }
    }
  }

  lemma OrderedInTail(cols: seq<string>, names: seq<string>)
    requires |cols| > 0 && NoDuplicates(cols) && InColumnOrder(cols[1..], names)
    ensures InColumnOrder(cols, names)
    ensures forall i :: 0 <= i < |names| ==> FirstIndex(cols, names[i]) >= 1
  {
    forall i | 0 <= i < |names|
      ensures names[i] in cols && FirstIndex(cols, names[i]) == 1 + FirstIndex(cols[1..], names[i])
    {
      FirstIndexOfTail(cols, names[i]);
    }
  }

  lemma OrderedCons(cols: seq<string>, names: seq<string>)
    requires |cols| > 0 && InColumnOrder(cols, names)
    requires forall i :: 0 <= i < |names| ==> FirstIndex(cols, names[i]) >= 1
    ensures InColumnOrder(cols, [cols[0]] + names)
  {
    var u := [cols[0]] + names;
    forall k | 0 <= k < |u| ensures u[k] in cols {
      if k > 0 {
        ConsPairOrdered(cols, names, 0, k);
      }
    }
    forall i, j | 0 <= i < j < |u| ensures u[i] in cols && u[j] in cols && FirstIndex(cols, u[i]) < FirstIndex(cols, u[j]) {
      ConsPairOrdered(cols, names, i, j);
    }
    InColumnOrderIntro(cols, u);
  }

  /** One pair of positions of `[cols[0]] + names`, from the facts about
      the two names involved. */
  lemma ConsPairOrdered(cols: seq<string>, names: seq<string>, i: nat, j: nat)
    requires |cols| > 0 && 0 <= i < j <= |names|
    requires names[j - 1] in cols && FirstIndex(cols, names[j - 1]) >= 1
    requires i > 0 ==> names[i - 1] in cols && FirstIndex(cols, names[i - 1]) < FirstIndex(cols, names[j - 1])
    ensures var u := [cols[0]] + names;
      u[i] in cols && u[j] in cols && FirstIndex(cols, u[i]) < FirstIndex(cols, u[j])
  {
    var u := [cols[0]] + names;
    assert u[j] == names[j - 1];
    if i == 0 {
      FirstIndexHead(cols);
      assert u[i] == cols[0];
    } else {
      assert u[i] == names[i - 1];
    }
  }

  lemma InColumnOrderIntro(cols: seq<string>, names: seq<string>)
    requires forall i :: 0 <= i < |names| ==> names[i] in cols
    requires forall i, j :: 0 <= i < j < |names| ==> FirstIndex(cols, names[i]) < FirstIndex(cols, names[j])
    ensures InColumnOrder(cols, names)
  {
  }

  lemma FirstIndexOfTail(s: seq<string>, x: string)
    requires |s| > 0 && NoDuplicates(s) && x in s[1..]
    ensures x in s && FirstIndex(s, x) == 1 + FirstIndex(s[1..], x)
  {
    var k :| 0 <= k < |s[1..]| && s[1..][k] == x;
    assert s[k + 1] == x;
  }

  /** The transactions of a frame over the selected columns, one per row in
      row order; a KeyError when a selected column is absent. */
  function PrepareTransactions(f: Frame, cols: seq<string>): (r: Result<seq<seq<string>>, string>)
    ensures r.Failure? <==> exists k :: 0 <= k < |cols| && cols[k] !in f.columns
    ensures r.Failure? ==> r.error in cols && r.error !in f.columns
    ensures r.Success? ==> |r.value| == |f.rows|
    ensures r.Success? ==> forall i :: 0 <= i < |f.rows| ==>
              forall k :: 0 <= k < |cols| && Get(f.rows[i], cols[k]) != Missing ==>
                Item(cols[k], Get(f.rows[i], cols[k])) in r.value[i]
    ensures r.Success? ==> forall i :: 0 <= i < |f.rows| ==> |r.value[i]| <= |cols|
    ensures r.Success? ==> forall i :: 0 <= i < |f.rows| ==> forall x :: x in r.value[i] ==>
              exists k :: 0 <= k < |cols| && Get(f.rows[i], cols[k]) != Missing
                          && x == Item(cols[k], Get(f.rows[i], cols[k]))
  {
    match FirstAbsent(f.columns, cols)
    case Some(c) => Failure(c)
    case None => Success(Map(f.rows, (row: Record) => Tokenize(cols, RowValues(row, cols))))
  }

  /** Over distinct selected columns without `=`, each transaction holds at most
      one item per column, in the order the columns were selected. */
  lemma PrepareTransactionsOrdered(f: Frame, cols: seq<string>)
    requires NoDuplicates(cols)
    requires forall k :: 0 <= k < |cols| ==> '=' !in cols[k]
    ensures var r := PrepareTransactions(f, cols);
            r.Success? ==> forall i :: 0 <= i < |f.rows| ==> InColumnOrder(cols, Map(r.value[i], ItemColumn))
  {
    forall i | 0 <= i < |f.rows|
      ensures InColumnOrder(cols, Map(Tokenize(cols, RowValues(f.rows[i], cols)), ItemColumn))
    {
      TokenizeOnePerColumn(cols, RowValues(f.rows[i], cols));
    }
  }

  /** The sixteen fields `prepare_transactions` mines, in its order. */
  const TransactionColumns: seq<string> := [
    "age_group", "gender", "road_user", "state", "remoteness_area", "road_type",
    "speed_limit_group", "bus_involvement", "heavy_rigid_truck_involvement",
    "articulated_truck_involvement", "crash_type", "time_of_day",
    "day_of_week_name", "day_type", "christmas_period", "easter_period"
  ]

  // ---------------------------------------------------------------------------
  // merge_tables_for_arm: projection, flag stringification, dropna
  // ---------------------------------------------------------------------------

  const ArmFields: seq<string> := [
    "age_group", "gender", "road_type", "speed_limit_group",
    "bus_involvement", "heavy_rigid_truck_involvement", "articulated_truck_involvement",
    "state", "remoteness_area", "day_of_week_name", "day_type",
    "christmas_period", "easter_period", "crash_type", "time_of_day", "road_user"
  ]

  const ArmFlagFields: seq<string> := [
    "bus_involvement", "heavy_rigid_truck_involvement", "articulated_truck_involvement",
    "christmas_period", "easter_period"
  ]

  /** `astype(str)` on the flag fields: every flag cell, missing ones included,
      becomes text. Other fields are unchanged. */
  function ArmCell(c: string, v: Cell): Cell {
    if c in ArmFlagFields then Str(Render(v)) else v
  }

  function ArmRecord(row: Record): Record {
    map c | c in ArmFields :: ArmCell(c, Get(row, c))
  }

  predicate Complete(row: Record) {
    forall c :: c in ArmFields ==> Get(row, c) != Missing
  }

  /** The mined fields of a joined record are all present, flags aside. */
  predicate MinableSource(row: Record) {
    forall c :: c in ArmFields && c !in ArmFlagFields ==> Get(row, c) != Missing
  }

  /** A projected record is complete exactly when its source record carries
      every mined field other than the flags. */
  lemma ArmRecordComplete(row: Record)
    ensures Complete(ArmRecord(row)) <==> MinableSource(row)
  {
    var a := ArmRecord(row);
    assert forall c :: c in ArmFields ==> Get(a, c) == ArmCell(c, Get(row, c));
  }

  lemma ArmRecordFlags(row: Record)
    ensures forall c :: c in ArmFlagFields ==> Get(ArmRecord(row), c).Str?
  {
    assert forall c :: c in ArmFlagFields ==> c in ArmFields;
  }

  /** Projects the joined records onto the sixteen fields, stringifies the
      five flags, then drops every record with a missing field. */
  function MergeTablesForArm(f: Frame): (r: Result<Frame, string>)
    ensures r.Success? <==> forall k :: 0 <= k < |ArmFields| ==> ArmFields[k] in f.columns
    ensures r.Failure? ==> r.error in ArmFields && r.error !in f.columns
    ensures r.Success? ==> r.value.columns == ArmFields && |r.value.rows| <= |f.rows|
    ensures r.Success? ==> forall row :: row in r.value.rows ==>
              Complete(row) && forall c :: c in ArmFlagFields ==> Get(row, c).Str?
    ensures r.Success? ==> forall i :: 0 <= i < |f.rows| ==>
              (ArmRecord(f.rows[i]) in r.value.rows <==> MinableSource(f.rows[i]))
    ensures r.Success? ==> r.value.rows == Map(Filter(f.rows, MinableSource), ArmRecord)
  {
    match FirstAbsent(f.columns, ArmFields)
    case Some(c) => Failure(c)
    case None =>
      ArmRowsFacts(f.rows);
      ArmRowsInOrder(f.rows);
      Success(Frame(ArmFields, Filter(Map(f.rows, ArmRecord), Complete)))
  }

  lemma ArmRowsFacts(rows: seq<Record>)
    ensures var kept := Filter(Map(rows, ArmRecord), Complete);
      && |kept| <= |rows|
      && (forall row :: row in kept ==> Complete(row) && forall c :: c in ArmFlagFields ==> Get(row, c).Str?)
      && (forall i :: 0 <= i < |rows| ==> (ArmRecord(rows[i]) in kept <==> MinableSource(rows[i])))
  {
    ArmRowsFlags(rows);
    ArmRowsKept(rows);
  }

  /** The kept records are the projections of the minable source records, in
      their input order. */
  lemma ArmRowsInOrder(rows: seq<Record>)
    ensures Filter(Map(rows, ArmRecord), Complete) == Map(Filter(rows, MinableSource), ArmRecord)
  {
    forall k | 0 <= k < |rows| ensures MinableSource(rows[k]) == Complete(ArmRecord(rows[k])) {
      ArmRecordComplete(rows[k]);
    }
    FilterMap(rows, ArmRecord, Complete, MinableSource);
  }

  lemma ArmRowsFlags(rows: seq<Record>)
    ensures forall row :: row in Filter(Map(rows, ArmRecord), Complete) ==>
      forall c :: c in ArmFlagFields ==> Get(row, c).Str?
  {
    var projected := Map(rows, ArmRecord);
    forall row | row in Filter(projected, Complete) ensures forall c :: c in ArmFlagFields ==> Get(row, c).Str? {
      assert row in projected;
      var i :| 0 <= i < |projected| && projected[i] == row;
      ArmRecordFlags(rows[i]);
    }
  }

  lemma ArmRowsKept(rows: seq<Record>)
    ensures forall i :: 0 <= i < |rows| ==>
      (ArmRecord(rows[i]) in Filter(Map(rows, ArmRecord), Complete) <==> MinableSource(rows[i]))
  {
    var projected := Map(rows, ArmRecord);
    forall i | 0 <= i < |rows|
      ensures ArmRecord(rows[i]) in Filter(projected, Complete) <==> MinableSource(rows[i])
    {
      assert ArmRecord(rows[i]) in projected;
      ArmRecordComplete(rows[i]);
    }
  }
}
