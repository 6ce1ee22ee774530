/** The database scripts' own logic: the order tables are created and dropped
    in, the `INSERT` statement and its parameter tuples, the NA-to-NULL
    preparation, and running a SQL script statement by statement. The database
    itself is a parameter: creating and dropping tables are recorded as calls,
    and executing a query is a step function over an abstract database state. */
module Postgres {

  import opened Outcomes
  import opened Seqs
  import opened Text
  import opened Frames
  import opened Schemas

  // ---------------------------------------------------------------------------
  // create_all_tables / drop_all_tables
  // ---------------------------------------------------------------------------

  datatype DbCall = CreateTable(name: string, schema: TableSchema) | DropTable(name: string)

  function CreateCall(t: Table): DbCall { CreateTable(Name(t), SchemaOf(t)) }
  function DropCall(t: Table): DbCall { DropTable(Name(t)) }

  /** One `create_table` call per table of `order`, in that order. */
  function CreateAll(order: seq<Table>): (calls: seq<DbCall>)
    ensures |calls| == |order|
    ensures forall k :: 0 <= k < |order| ==> calls[k] == CreateTable(Name(order[k]), SchemaOf(order[k]))
  {
    Map(order, CreateCall)
  }

  /** One `drop_table` call per table of `reversed(order)`. */
  function DropAll(order: seq<Table>): (calls: seq<DbCall>)
    ensures |calls| == |order|
    ensures forall k :: 0 <= k < |order| ==> calls[k] == DropTable(Name(order[|order| - 1 - k]))
  {
    Map(Reverse(order), DropCall)
  }

  /** `create_all_tables` of the first database script: `TABLE_IMPORT_ORDER`. */
  function CreateAllTables(): seq<DbCall> { CreateAll(TableImportOrder) }
  function DropAllTables(): seq<DbCall> { DropAll(TableImportOrder) }

  /** The second database script walks the dict's keys instead. */
  function CreateAllTablesByKey(): seq<DbCall> { CreateAll(SchemaKeyOrder) }
  function DropAllTablesByKey(): seq<DbCall> { DropAll(SchemaKeyOrder) }

  /** The name a call acts on. */
  function Target(c: DbCall): string {
    match c
    case CreateTable(n, _) => n
    case DropTable(n) => n
  }

  /** Dropping visits exactly the tables creation visits, in the reverse order. */
  lemma DropReversesCreate(order: seq<Table>)
    ensures Map(DropAll(order), Target) == Reverse(Map(CreateAll(order), Target))
  {
    MapMap(Reverse(order), DropCall, Target, Name);
    MapMap(order, CreateCall, Target, Name);
    MapReverse(order, Name);
  }

  /** Both scripts create each of the ten tables once, with its schema and
      under pairwise distinct names, each after the tables it references; and
      drop each once, each before the tables it references. */
  lemma TableCallsRespectReferences()
    ensures forall t: Table :: CreateCall(t) in CreateAllTables() && CreateCall(t) in CreateAllTablesByKey()
    ensures NoDuplicates(Map(CreateAllTables(), Target)) && NoDuplicates(Map(CreateAllTablesByKey(), Target))
    ensures ReferencesPrecede(TableImportOrder, Referenced) && ReferencesPrecede(SchemaKeyOrder, Referenced)
    ensures ReferrersPrecede(Reverse(TableImportOrder), Referenced)
    ensures ReferrersPrecede(Reverse(SchemaKeyOrder), Referenced)
  {
    OrdersListEveryTable();
    SchemaOrdersRespectReferences();
    DropOrdersRespectReferences();
    forall t: Table ensures CreateCall(t) in CreateAllTables() && CreateCall(t) in CreateAllTablesByKey() {
      CreatesListed(TableImportOrder, t);
      CreatesListed(SchemaKeyOrder, t);
    }
    DistinctNames(TableImportOrder);
    DistinctNames(SchemaKeyOrder);
  }

  lemma CreatesListed(order: seq<Table>, t: Table)
    requires t in order
    ensures CreateCall(t) in CreateAll(order)
  {
    var i :| 0 <= i < |order| && order[i] == t;
    assert CreateAll(order)[i] == CreateCall(t);
  }

  /** Distinct tables give distinct creation targets. */
  lemma DistinctNames(order: seq<Table>)
    requires NoDuplicates(order)
    ensures NoDuplicates(Map(CreateAll(order), Target))
  {
    var m := Map(CreateAll(order), Target);
    forall i, j | 0 <= i < j < |m| ensures m[i] != m[j] {
      if m[i] == m[j] {
        NameInjective(order[i], order[j]);
      }
    }
  }

  // ---------------------------------------------------------------------------
  // insert_dataframe
  // ---------------------------------------------------------------------------

  const Placeholder: string := "%s"

  /** `n` driver placeholders separated by commas. */
  function Placeholders(n: nat): string {
    Join(Repeat(Placeholder, n), ",")
  }

  /** The column names separated by commas. */
  function ColumnList(cols: seq<string>): string {
    Join(cols, ",")
  }

  /** The parameterised insert statement naming the table, its columns and one
      placeholder per column. */
  function InsertSql(table: string, cols: seq<string>): string {
    "INSERT INTO " + table + " (" + ColumnList(cols) + ") VALUES (" + Placeholders(|cols|) + ")"
  }

  /** For a non-empty header whose names hold no comma, the column list and
      the placeholder list of the statement split into the same number of
      fields: the header itself, and one `%s` per column. */
  lemma InsertPlaceholdersMatchColumns(cols: seq<string>)
    requires |cols| >= 1
    requires forall k :: 0 <= k < |cols| ==> ',' !in cols[k]
    ensures Split(ColumnList(cols), ',') == cols
    ensures Split(Placeholders(|cols|), ',') == Repeat(Placeholder, |cols|)
    ensures |Split(Placeholders(|cols|), ',')| == |Split(ColumnList(cols), ',')|
  {
    SplitJoin(cols, ',');
    var ps := Repeat(Placeholder, |cols|);
    assert forall k :: 0 <= k < |ps| ==> ',' !in ps[k];
    SplitJoin(ps, ',');
  }

  /** A value handed to the database driver: `None` or a cell's value. */
  datatype SqlValue = Null | Value(cell: Cell)

  /** A missing cell is handed to the driver as SQL NULL, any other as its value. */
  function PrepareCell(v: Cell): (r: SqlValue)
    ensures r == Null <==> v == Missing
    ensures r.Value? ==> r.cell == v
  {
    if v == Missing then Null else Value(v)
  }

  /** The frame prepared for the database and turned into parameter tuples:
      one tuple per row, in row order, one value per column in column order. */
  function InsertData(f: Frame): (data: seq<seq<SqlValue>>)
    ensures |data| == |f.rows|
    ensures forall i :: 0 <= i < |data| ==> |data[i]| == |f.columns|
    ensures forall i, j :: 0 <= i < |data| && 0 <= j < |f.columns| ==>
              (data[i][j] == Null <==> Get(f.rows[i], f.columns[j]) == Missing)
              && (data[i][j].Value? ==> data[i][j].cell == Get(f.rows[i], f.columns[j]))
  {
    Map(f.rows, (row: Record) => Map(f.columns, (c: string) => PrepareCell(Get(row, c))))
  }

  /** `insert_dataframe`: the statement and its parameter tuples, handed to
      `insert_many`. */
  function InsertDataframe(table: string, f: Frame): (string, seq<seq<SqlValue>>) {
    (InsertSql(table, f.columns), InsertData(f))
  }

  /** Every parameter tuple fills exactly the statement's placeholders. */
  lemma InsertTuplesFitPlaceholders(table: string, f: Frame)
    requires |f.columns| >= 1
    requires forall k :: 0 <= k < |f.columns| ==> ',' !in f.columns[k]
    ensures var call := InsertDataframe(table, f);
      forall i :: 0 <= i < |call.1| ==> |call.1[i]| == |Split(Placeholders(|f.columns|), ',')|
  {
    InsertPlaceholdersMatchColumns(f.columns);
  }

  // ---------------------------------------------------------------------------
  // run_sql_file
  // ---------------------------------------------------------------------------

  predicate NonEmpty(s: string) { s != "" }

  /** A statement as the splitter leaves it: non-empty, free of `;`, and
      without whitespace at either end. */
  predicate Statement(x: string) {
    x != "" && ';' !in x && !IsSpace(x[0]) && !IsSpace(x[|x| - 1])
  }

  /** The script cut at every `;`, each piece stripped of surrounding
      whitespace, and the blank pieces dropped. */
  function SplitStatements(content: string): (stmts: seq<string>)
    ensures |stmts| <= |Split(content, ';')|
    ensures forall x :: x in stmts ==> Statement(x)
    ensures forall x :: x in stmts <==>
              x != "" && exists k :: 0 <= k < |Split(content, ';')| && Trim(Split(content, ';')[k]) == x
  {
    StatementsOfSegments(Split(content, ';'));
    FilterMapMembers(Split(content, ';'), Trim, NonEmpty);
    Filter(Map(Split(content, ';'), Trim), NonEmpty)
  }

  /** A kept piece of a script cut at `;` is a statement. */
  lemma StatementsOfSegments(segments: seq<string>)
    requires forall k :: 0 <= k < |segments| ==> ';' !in segments[k]
    ensures forall x :: x in Filter(Map(segments, Trim), NonEmpty) ==> Statement(x)
  {
    FilterMapMembers(segments, Trim, NonEmpty);
    forall x | x in Filter(Map(segments, Trim), NonEmpty) ensures Statement(x) {
      var k :| 0 <= k < |segments| && Trim(segments[k]) == x;
      TrimKeepsSeparatorOut(segments[k], ';');
    }
  }

  /** The stripped piece of a separator-free text, unless it is blank. */
  function StatementOf(p: string): seq<string> {
    if Trim(p) == "" then [] else [Trim(p)]
  }

  /** A script without `;` is a single statement, or none when it is blank. */
  lemma SplitStatementsSingle(p: string)
    requires ';' !in p
    ensures SplitStatements(p) == StatementOf(p)
  {
    SplitNoSeparator(p, ';');
    assert Map([p], Trim) == [Trim(p)];
  }

  /** The statement before the first `;` comes first, followed by the
      statements of the rest of the script: with `SplitStatementsSingle`,
      the statements keep the order of the script. */
  lemma SplitStatementsCons(p: string, t: string)
    requires ';' !in p
    ensures SplitStatements(p + ";" + t) == StatementOf(p) + SplitStatements(t)
  {
    SplitAtFirstSeparator(p, ';', t);
    var rest := Split(t, ';');
    assert Map([p] + rest, Trim) == [Trim(p)] + Map(rest, Trim) by {
      assert ([p] + rest)[1..] == rest;
    }
    var m := Map(rest, Trim);
    assert ([Trim(p)] + m)[1..] == m;
  }

  /** Stripping text without a character leaves it without that character. */
  lemma TrimKeepsSeparatorOut(s: string, c: char)
    requires c !in s
    ensures c !in Trim(s)
  {
    var r := Trim(s);
    var i :| SliceAt(s, i, r);
    forall m | 0 <= m < |r| ensures r[m] != c {
      assert r[m] == s[i + m];
    }
  }

  lemma {:induction false} FilterAll<T(!new)>(s: seq<T>, p: T -> bool)
    requires forall k :: 0 <= k < |s| ==> p(s[k])
    ensures Filter(s, p) == s
    decreases |s|
  {
    if |s| > 0 {
      FilterAll(s[1..], p);
      assert [s[0]] + s[1..] == s;
    }
  }

  /** Joining non-empty, already stripped statements with `;` and splitting
      the script again gives the same statements back, in order. */
  lemma SplitStatementsJoin(stmts: seq<string>)
    requires |stmts| >= 1
    requires forall k :: 0 <= k < |stmts| ==> Statement(stmts[k])
    ensures SplitStatements(Join(stmts, ";")) == stmts
  {
    assert Split(Join(stmts, ";"), ';') == stmts by {
      SplitJoin(stmts, ';');
    }
    assert Map(stmts, Trim) == stmts by {
      TrimAll(stmts);
    }
    assert Filter(stmts, NonEmpty) == stmts by {
      FilterAll(stmts, NonEmpty);
    }
  }

  lemma TrimAll(stmts: seq<string>)
    requires forall k :: 0 <= k < |stmts| ==> Statement(stmts[k])
    ensures Map(stmts, Trim) == stmts
  {
    forall x | Statement(x) ensures Trim(x) == x {
      TrimTrimmed(x);
    }
    MapFixed(stmts, Trim, Statement);
  }

  /** The key under which the result of statement `i` is stored. */
  function QueryKey(i: int): string {
    "query_" + IntToString(i)
  }

  /** Different statement numbers give different result keys. */
  lemma QueryKeyInjective(a: int, b: int)
    requires QueryKey(a) == QueryKey(b)
    ensures a == b
  {
    assert IntToString(a) == QueryKey(a)[6..];
    assert IntToString(b) == QueryKey(b)[6..];
    IntToStringInjective(a, b);
  }

  /** The database state after running the first `n` statements, each step
      reporting a result or, where `query_data` raises, nothing. */
  function StateBefore<S, R>(db: S, stmts: seq<string>, step: (S, string) -> (S, Option<R>), n: nat): S
    requires n <= |stmts|
  {
    if n == 0 then db else step(StateBefore(db, stmts, step, n - 1), stmts[n - 1]).0
  }

  /** Runs the statements in order, storing the result of statement `i`
      (counting from 1) under `query_i`, or `None` where execution failed,
      and goes on after a failure. */
  method RunStatements<S, R>(db: S, stmts: seq<string>, step: (S, string) -> (S, Option<R>))
    returns (finalDb: S, results: seq<(string, Option<R>)>)
    ensures |results| == |stmts|
    ensures forall k :: 0 <= k < |results| ==> results[k].0 == QueryKey(k + 1)
    ensures forall k :: 0 <= k < |results| ==> results[k].1 == step(StateBefore(db, stmts, step, k), stmts[k]).1
    ensures finalDb == StateBefore(db, stmts, step, |stmts|)
  {
    finalDb := db;
    results := [];
    var i := 0;
    while i < |stmts|
      invariant 0 <= i <= |stmts|
      invariant |results| == i
      invariant finalDb == StateBefore(db, stmts, step, i)
      invariant forall k :: 0 <= k < i ==> results[k].0 == QueryKey(k + 1)
      invariant forall k :: 0 <= k < i ==> results[k].1 == step(StateBefore(db, stmts, step, k), stmts[k]).1
    {
      var next := step(finalDb, stmts[i]);
      assert StateBefore(db, stmts, step, i + 1) == next.0;
      var entry := (QueryKey(i + 1), next.1);
      assert forall k :: 0 <= k < i ==> (results + [entry])[k] == results[k];
      results := results + [entry];
      finalDb := next.0;
      i := i + 1;
    }
  }

  /** `run_sql_file` on the script's text. */
  method RunSqlFile<S, R>(db: S, content: string, step: (S, string) -> (S, Option<R>))
    returns (finalDb: S, results: seq<(string, Option<R>)>)
    ensures |results| == |SplitStatements(content)|
    ensures forall k :: 0 <= k < |results| ==> results[k].0 == QueryKey(k + 1)
    ensures forall i, j :: 0 <= i < j < |results| ==> results[i].0 != results[j].0
    ensures var stmts := SplitStatements(content);
            forall k :: 0 <= k < |results| ==> results[k].1 == step(StateBefore(db, stmts, step, k), stmts[k]).1
    ensures finalDb == StateBefore(db, SplitStatements(content), step, |SplitStatements(content)|)
  {
    finalDb, results := RunStatements(db, SplitStatements(content), step);
    ResultKeysDistinct(results);
  }

  /** The keys of a run are pairwise distinct, so no result overwrites another. */
  lemma ResultKeysDistinct<R>(results: seq<(string, Option<R>)>)
    requires forall k :: 0 <= k < |results| ==> results[k].0 == QueryKey(k + 1)
    ensures forall i, j :: 0 <= i < j < |results| ==> results[i].0 != results[j].0
  {
    forall i, j | 0 <= i < j < |results| ensures results[i].0 != results[j].0 {
      if results[i].0 == results[j].0 {
        QueryKeyInjective(i + 1, j + 1);
      }
    }
  }
}
