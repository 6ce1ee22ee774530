/** The warehouse's table catalogue: the order tables are created and loaded
    in, and each table's columns, primary key and foreign keys. Tables are an
    enumeration; `Name` gives the name the database knows them by. */
module Schemas {

  import opened Seqs

  datatype Table =
    | DimLocation | DimVehicle | DimCrashType | DimDate | DimHoliday
    | DimPerson | DimTime | DimRoad | FactFatalCrash | FactPersonFatality

  function Name(t: Table): string {
    match t
    case DimLocation => "dim_location"
    case DimVehicle => "dim_vehicle"
    case DimCrashType => "dim_crash_type"
    case DimDate => "dim_date"
    case DimHoliday => "dim_holiday"
    case DimPerson => "dim_person"
    case DimTime => "dim_time"
    case DimRoad => "dim_road"
    case FactFatalCrash => "fact_fatal_crash"
    case FactPersonFatality => "fact_person_fatality"
  }

  /** Distinct tables have distinct names. */
  lemma NameInjective(a: Table, b: Table)
    requires Name(a) == Name(b)
    ensures a == b
  {
    var x, y := Name(a), Name(b);
    assert |x| == |y| && x[4] == y[4] && x[5] == y[5] && x[|x| - 1] == y[|y| - 1];
  }

  datatype Column = Column(name: string, sqlType: string, primaryKey: bool)

  /** A foreign-key clause: `column` refers to `refColumn` of `table`. */
  datatype ForeignKey = ForeignKey(column: string, table: Table, refColumn: string)

  datatype TableSchema = TableSchema(columns: seq<Column>, foreignKeys: seq<ForeignKey>)

  /** `TABLE_IMPORT_ORDER` */
  const TableImportOrder: seq<Table> := [
    DimLocation, DimCrashType, DimDate, DimHoliday, DimPerson,
    DimTime, DimVehicle, DimRoad, FactFatalCrash, FactPersonFatality
  ]

  /** The key order of the `TABLE_SCHEMAS` dict. */
  const SchemaKeyOrder: seq<Table> := [
    DimLocation, DimVehicle, DimCrashType, DimDate, DimHoliday,
    DimPerson, DimTime, DimRoad, FactFatalCrash, FactPersonFatality
  ]

  function Plain(name: string, sqlType: string): Column { Column(name, sqlType, false) }
  function Key(name: string, sqlType: string): Column { Column(name, sqlType, true) }

  /** A foreign key whose column has the name of the referenced column. */
  function Ref(table: Table, column: string): ForeignKey { ForeignKey(column, table, column) }

  /** `TABLE_SCHEMAS[Name(t)]` */
  function SchemaOf(t: Table): TableSchema {
    match t
    case DimLocation => TableSchema([
      Key("location_id", "SERIAL"), Plain("state", "VARCHAR(20)"),
      Plain("lga_name", "VARCHAR(100)"), Plain("sa4_name", "VARCHAR(100)"),
      Plain("remoteness_area", "VARCHAR(100)"), Plain("population_2023_lga", "INTEGER"),
      Plain("population_2023_remoteness", "INTEGER"), Plain("dwelling_records", "INTEGER")], [])
    case DimVehicle => TableSchema([
      Key("vehicle_id", "SERIAL"), Plain("bus_involvement", "VARCHAR(10)"),
      Plain("heavy_rigid_truck_involvement", "VARCHAR(10)"),
      Plain("articulated_truck_involvement", "VARCHAR(10)")], [])
    case DimCrashType => TableSchema([
      Key("crash_type_id", "SERIAL"), Plain("crash_type", "VARCHAR(20)")], [])
    case DimDate => TableSchema([
      Key("date_id", "INTEGER"), Plain("year", "INTEGER"), Plain("month", "INTEGER"),
      Plain("quarter", "INTEGER"), Plain("day_of_week_name", "VARCHAR(20)"),
      Plain("day_type", "VARCHAR(10)")], [])
    case DimHoliday => TableSchema([
      Key("holiday_id", "INTEGER"), Plain("christmas_period", "BOOLEAN"),
      Plain("easter_period", "BOOLEAN")], [])
    case DimPerson => TableSchema([
      Key("person_id", "SERIAL"), Plain("age", "INTEGER"), Plain("age_group", "VARCHAR(10)"),
      Plain("gender", "VARCHAR(20)"), Plain("road_user", "VARCHAR(50)")], [])
    case DimTime => TableSchema([
      Key("time_of_day_id", "SERIAL"), Plain("time_of_day", "VARCHAR(20)")], [])
    case DimRoad => TableSchema([
      Key("road_id", "SERIAL"), Plain("road_type", "VARCHAR(50)"),
      Plain("speed_limit", "INTEGER"), Plain("speed_category", "VARCHAR(20)")], [])
    case FactFatalCrash => TableSchema([
      Key("fact_crash_id", "INTEGER"), Plain("crash_id", "INTEGER"), Plain("date_id", "INTEGER"),
      Plain("holiday_id", "INTEGER"), Plain("location_id", "INTEGER"), Plain("road_id", "INTEGER"),
      Plain("vehicle_id", "INTEGER"), Plain("crash_type_id", "INTEGER"),
      Plain("number_fatalities", "INTEGER")], [
      Ref(DimDate, "date_id"), Ref(DimHoliday, "holiday_id"),
      Ref(DimLocation, "location_id"), Ref(DimRoad, "road_id"),
      Ref(DimVehicle, "vehicle_id"), Ref(DimCrashType, "crash_type_id")])
    case FactPersonFatality => TableSchema([
      Key("fact_person_fatality_id", "SERIAL"), Plain("crash_id", "INTEGER"),
      Plain("date_id", "INTEGER"), Plain("holiday_id", "INTEGER"), Plain("person_id", "INTEGER"),
      Plain("location_id", "INTEGER"), Plain("road_id", "INTEGER"), Plain("vehicle_id", "INTEGER"),
      Plain("crash_type_id", "INTEGER"), Plain("time_of_day_id", "INTEGER")], [
      Ref(DimDate, "date_id"), Ref(DimHoliday, "holiday_id"),
      Ref(DimPerson, "person_id"), Ref(DimLocation, "location_id"),
      Ref(DimRoad, "road_id"), Ref(DimVehicle, "vehicle_id"),
      Ref(DimCrashType, "crash_type_id"), Ref(DimTime, "time_of_day_id")])
  }

  /** The tables the foreign keys point into, in clause order. */
  function Targets(fks: seq<ForeignKey>): (r: seq<Table>)
    ensures |r| == |fks| && forall k :: 0 <= k < |fks| ==> r[k] == fks[k].table
  {
    if |fks| == 0 then [] else [fks[0].table] + Targets(fks[1..])
  }

  /** The tables `t` has a foreign key into. */
  function Referenced(t: Table): seq<Table> {
    Targets(SchemaOf(t).foreignKeys)
  }

  /** Every element of `order` comes after all the elements it references. */
  predicate ReferencesPrecede<T(==)>(order: seq<T>, refs: T -> seq<T>) {
    forall i :: 0 <= i < |order| ==> forall u :: u in refs(order[i]) ==> u in order[..i]
  }

  /** Every element of `order` comes before all the elements it references. */
  predicate ReferrersPrecede<T(==)>(order: seq<T>, refs: T -> seq<T>) {
    forall i :: 0 <= i < |order| ==> forall u :: u in refs(order[i]) ==> u in order[i + 1..]
  }

  /** Reversing an order in which references come first puts every referring
      table before the tables it references: dropping in that order never
      drops a table another remaining table points to. */
  lemma ReverseReferrersPrecede<T>(order: seq<T>, refs: T -> seq<T>)
    requires ReferencesPrecede(order, refs)
    ensures ReferrersPrecede(Reverse(order), refs)
  {
    var r := Reverse(order);
    var n := |order|;
    forall i, u | 0 <= i < n && u in refs(r[i]) ensures u in r[i + 1..] {
      var m := n - 1 - i;
      assert r[i] == order[m];
      assert u in order[..m];
      var j :| 0 <= j < m && order[..m][j] == u;
      assert r[n - 1 - j] == u;
      assert r[i + 1..][n - 1 - j - (i + 1)] == u;
    }
  }

  /** Both orders list each of the ten tables exactly once, so the loaded
      tables are exactly the tables that have a schema. */
  lemma OrdersListEveryTable()
    ensures |TableImportOrder| == 10 && NoDuplicates(TableImportOrder)
    ensures |SchemaKeyOrder| == 10 && NoDuplicates(SchemaKeyOrder)
    ensures forall t: Table :: t in TableImportOrder && t in SchemaKeyOrder
  {
    forall t: Table ensures t in TableImportOrder && t in SchemaKeyOrder {
      match t
      case DimLocation => assert TableImportOrder[0] == t && SchemaKeyOrder[0] == t;
      case DimVehicle => assert TableImportOrder[6] == t && SchemaKeyOrder[1] == t;
      case DimCrashType => assert TableImportOrder[1] == t && SchemaKeyOrder[2] == t;
      case DimDate => assert TableImportOrder[2] == t && SchemaKeyOrder[3] == t;
      case DimHoliday => assert TableImportOrder[3] == t && SchemaKeyOrder[4] == t;
      case DimPerson => assert TableImportOrder[4] == t && SchemaKeyOrder[5] == t;
      case DimTime => assert TableImportOrder[5] == t && SchemaKeyOrder[6] == t;
      case DimRoad => assert TableImportOrder[7] == t && SchemaKeyOrder[7] == t;
      case FactFatalCrash => assert TableImportOrder[8] == t && SchemaKeyOrder[8] == t;
      case FactPersonFatality => assert TableImportOrder[9] == t && SchemaKeyOrder[9] == t;
    }
  }

  predicate IsFact(t: Table) {
    t == FactFatalCrash || t == FactPersonFatality
  }

  /** The tables each table references, read off the foreign-key clauses. */
  function ReferencedTables(t: Table): seq<Table> {
    match t
    case FactFatalCrash =>
      [DimDate, DimHoliday, DimLocation, DimRoad, DimVehicle, DimCrashType]
    case FactPersonFatality =>
      [DimDate, DimHoliday, DimPerson, DimLocation, DimRoad, DimVehicle, DimCrashType, DimTime]
    case _ => []
  }

  lemma ReferencedIs(t: Table)
    ensures Referenced(t) == ReferencedTables(t)
  {
    match t
    case FactFatalCrash => TargetsOf(SchemaOf(t).foreignKeys, ReferencedTables(t));
    case FactPersonFatality => TargetsOf(SchemaOf(t).foreignKeys, ReferencedTables(t));
    case _ =>
  }

  lemma TargetsOf(fks: seq<ForeignKey>, ts: seq<Table>)
    requires |fks| == |ts| && forall k :: 0 <= k < |fks| ==> fks[k].table == ts[k]
    ensures Targets(fks) == ts
  {
  }

  /** Only the two fact tables have foreign keys, and those point at
      dimension tables. */
  lemma OnlyFactsReference(t: Table)
    ensures |Referenced(t)| > 0 <==> IsFact(t)
    ensures forall u :: u in Referenced(t) ==> !IsFact(u)
  {
    ReferencedIs(t);
    FactsReferenceDimensions(t);
  }

  lemma FactsReferenceDimensions(t: Table)
    ensures |ReferencedTables(t)| > 0 <==> IsFact(t)
    ensures forall u :: u in ReferencedTables(t) ==> !IsFact(u)
  {
  }

  /** The dimension tables fill the first eight places of both orders. */
  lemma DimensionsComeFirst(u: Table)
    requires !IsFact(u)
    ensures u in TableImportOrder[..8] && u in SchemaKeyOrder[..8]
  {
    var a, b := TableImportOrder[..8], SchemaKeyOrder[..8];
    match u
    case DimLocation => assert a[0] == u && b[0] == u;
    case DimVehicle => assert a[6] == u && b[1] == u;
    case DimCrashType => assert a[1] == u && b[2] == u;
    case DimDate => assert a[2] == u && b[3] == u;
    case DimHoliday => assert a[3] == u && b[4] == u;
    case DimPerson => assert a[4] == u && b[5] == u;
    case DimTime => assert a[5] == u && b[6] == u;
    case DimRoad => assert a[7] == u && b[7] == u;
  }

  /** Loading in `TABLE_IMPORT_ORDER` or in the dict's key order never loads a
      table before one it references. */
  lemma SchemaOrdersRespectReferences()
    ensures ReferencesPrecede(TableImportOrder, Referenced)
    ensures ReferencesPrecede(SchemaKeyOrder, Referenced)
  {
    assert forall j :: 0 <= j < 8 ==> !IsFact(TableImportOrder[j]) && !IsFact(SchemaKeyOrder[j]);
    forall i, u | 0 <= i < 10 && u in Referenced(TableImportOrder[i])
      ensures u in TableImportOrder[..i]
    {
      OnlyFactsReference(TableImportOrder[i]);
      DimensionsComeFirst(u);
      InFactPrefix(TableImportOrder, i, u);
    }
    forall i, u | 0 <= i < 10 && u in Referenced(SchemaKeyOrder[i])
      ensures u in SchemaKeyOrder[..i]
    {
      OnlyFactsReference(SchemaKeyOrder[i]);
      DimensionsComeFirst(u);
      InFactPrefix(SchemaKeyOrder, i, u);
    }
  }

  /** A table referenced from past the first eight places, and found among
      them, comes earlier. */
  lemma InFactPrefix(order: seq<Table>, i: nat, u: Table)
    requires 8 <= i < |order| && u in order[..8]
    ensures u in order[..i]
  {
    assert order[..8] == order[..i][..8];
  }

  /** Dropping in the reverse of either order never drops a table while a
      table that references it remains. */
  lemma DropOrdersRespectReferences()
    ensures ReferrersPrecede(Reverse(TableImportOrder), Referenced)
    ensures ReferrersPrecede(Reverse(SchemaKeyOrder), Referenced)
  {
    SchemaOrdersRespectReferences();
    ReverseReferrersPrecede(TableImportOrder, Referenced);
    ReverseReferrersPrecede(SchemaKeyOrder, Referenced);
  }

  /** The names of the primary-key columns, in column order. */
  function PrimaryKeys(cols: seq<Column>): (r: seq<string>)
    ensures |r| <= |cols|
    ensures forall n :: n in r <==> exists c :: c in cols && c.primaryKey && c.name == n
  {
    if |cols| == 0 then []
    else
      var rest := PrimaryKeys(cols[1..]);
      assert forall c :: c in cols <==> c == cols[0] || c in cols[1..];
      (if cols[0].primaryKey then [cols[0].name] else []) + rest
  }

  /** Every table declares exactly one primary-key column, its first. */
  lemma OnePrimaryKey(t: Table)
    ensures |SchemaOf(t).columns| > 0
    ensures PrimaryKeys(SchemaOf(t).columns) == [SchemaOf(t).columns[0].name]
  {
    match t
    case DimLocation => KeyFirstOnly(SchemaOf(t).columns);
    case DimVehicle => KeyFirstOnly(SchemaOf(t).columns);
    case DimCrashType => KeyFirstOnly(SchemaOf(t).columns);
    case DimDate => KeyFirstOnly(SchemaOf(t).columns);
    case DimHoliday => KeyFirstOnly(SchemaOf(t).columns);
    case DimPerson => KeyFirstOnly(SchemaOf(t).columns);
    case DimTime => KeyFirstOnly(SchemaOf(t).columns);
    case DimRoad => KeyFirstOnly(SchemaOf(t).columns);
    case FactFatalCrash => KeyFirstOnly(SchemaOf(t).columns);
    case FactPersonFatality => KeyFirstOnly(SchemaOf(t).columns);
  }

  lemma KeyFirstOnly(cols: seq<Column>)
    requires |cols| > 0 && cols[0].primaryKey
    requires forall k :: 1 <= k < |cols| ==> !cols[k].primaryKey
    ensures PrimaryKeys(cols) == [cols[0].name]
  {
    NoPrimaryKeys(cols[1..]);
  }

  lemma {:induction false} NoPrimaryKeys(cols: seq<Column>)
    requires forall k :: 0 <= k < |cols| ==> !cols[k].primaryKey
    ensures PrimaryKeys(cols) == []
    decreases |cols|
  {
    if |cols| > 0 {
      NoPrimaryKeys(cols[1..]);
    }
  }

  /** The `k`-th foreign key of `t` names a column of `t` that is named like
      the primary key of the table it references. */
  predicate ForeignKeyWellFormed(t: Table, k: nat)
    requires k < |SchemaOf(t).foreignKeys|
  {
    var fk := SchemaOf(t).foreignKeys[k];
    && fk.column == fk.refColumn
    && fk.refColumn == SchemaOf(fk.table).columns[0].name
    && k + 2 < |SchemaOf(t).columns| && SchemaOf(t).columns[k + 2].name == fk.column
  }

  lemma FatalCrashKeys(k: nat)
    requires k < |SchemaOf(FactFatalCrash).foreignKeys|
    ensures ForeignKeyWellFormed(FactFatalCrash, k)
  {
  }

  lemma PersonFatalityKeys(k: nat)
    requires k < |SchemaOf(FactPersonFatality).foreignKeys|
    ensures ForeignKeyWellFormed(FactPersonFatality, k)
  {
  }

  /** Every foreign key column is a column of its table, and is named like
      the single primary-key column of the table it references. */
  lemma ForeignKeysTargetPrimaryKeys(t: Table, k: nat)
    requires k < |SchemaOf(t).foreignKeys|
    ensures var fk := SchemaOf(t).foreignKeys[k];
      && PrimaryKeys(SchemaOf(fk.table).columns) == [fk.refColumn]
      && fk.column == fk.refColumn
      && exists c :: c in SchemaOf(t).columns && c.name == fk.column
  {
    var fk := SchemaOf(t).foreignKeys[k];
    OnlyFactsReference(t);
    if t == FactFatalCrash { FatalCrashKeys(k); } else { PersonFatalityKeys(k); }
    OnePrimaryKey(fk.table);
    assert SchemaOf(t).columns[k + 2] in SchemaOf(t).columns;
  }

  /** Both orders end with the two fact tables. */
  lemma FactsComeLast()
    ensures TableImportOrder[8..] == SchemaKeyOrder[8..] == [FactFatalCrash, FactPersonFatality]
  {
  }
}
