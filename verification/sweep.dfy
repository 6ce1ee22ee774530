/** The parameter sweep's merge: the rules of every combination run are pooled,
    ranked by lift then confidence, written out with their itemsets formatted,
    de-duplicated and cut to the fifty best rows. */
module Sweep {

  import opened Seqs
  import opened Sorting
  import opened Rules
  import opened ItemFormat

  /** One row of the exported rule table (`export_cols`). */
  datatype ExportRow = ExportRow(antecedents: string, consequents: string,
                                 support: real, confidence: real, lift: real)

  const ExportLimit: nat := 50

  function Export(r: Rule): ExportRow {
    ExportRow(FormatItems(r.antecedents), FormatItems(r.consequents), r.support, r.confidence, r.lift)
  }

  /** The ranking of rules, read off the exported numbers. */
  predicate ExportRankLe(a: ExportRow, b: ExportRow) {
    a.lift > b.lift || (a.lift == b.lift && a.confidence >= b.confidence)
  }

  /** The rule tables of all runs, one after the other. */
  function Concat(runs: seq<seq<Rule>>): (r: seq<Rule>)
    ensures forall x :: x in r <==> exists i :: 0 <= i < |runs| && x in runs[i]
  {
    if |runs| == 0 then []
    else
      var rest := Concat(runs[1..]);
      assert forall i :: 1 <= i < |runs| ==> runs[i] == runs[1..][i - 1];
      runs[0] + rest
  }

  /** Pooling a single run gives that run. */
  lemma ConcatSingle(run: seq<Rule>)
    ensures Concat([run]) == run
  {
    assert [run][1..] == [];
    assert run + [] == run;
  }

  /** Pooling two batches of runs one after the other is pooling each and
      appending: with `ConcatSingle`, every rule keeps its place and its
      multiplicity. */
  lemma {:induction false} ConcatAppend(a: seq<seq<Rule>>, b: seq<seq<Rule>>)
    ensures Concat(a + b) == Concat(a) + Concat(b)
    decreases |a|
  {
    if |a| == 0 {
      assert a + b == b;
    } else {
      assert (a + b)[0] == a[0];
      assert (a + b)[1..] == a[1..] + b;
      ConcatAppend(a[1..], b);
      ConcatAssoc(a[0], Concat(a[1..]), Concat(b));
    }
  }

  /** The exported rows of a rank-sorted rule list are in rank order. */
  lemma ExportSorted(s: seq<Rule>)
    requires SortedBy(s, RankLe)
    ensures SortedBy(Map(s, Export), ExportRankLe)
  {
  }

  /** The pooled rules in rank order, exported. */
  function RankedExport(runs: seq<seq<Rule>>): (rows: seq<ExportRow>)
    ensures SortedBy(rows, ExportRankLe)
    ensures forall i, x :: 0 <= i < |runs| && x in runs[i] ==> Export(x) in rows
    ensures forall row :: row in rows ==>
              exists i, x :: 0 <= i < |runs| && x in runs[i] && row == Export(x)
  {
    var ranked := RankSort(Concat(runs));
    var rows := Map(ranked, Export);
    ExportSorted(ranked);
    forall i, x | 0 <= i < |runs| && x in runs[i] ensures Export(x) in rows {
      assert x in Concat(runs);
      assert x in ranked;
      var k :| 0 <= k < |ranked| && ranked[k] == x;
      assert rows[k] == Export(x);
    }
    forall row | row in rows
      ensures exists i, x :: 0 <= i < |runs| && x in runs[i] && row == Export(x)
    {
      var k :| 0 <= k < |rows| && rows[k] == row;
      assert ranked[k] in Concat(runs);
    }
    rows
  }

  /** Pools the runs, ranks the pooled rules, exports, de-duplicates and keeps
      the first fifty rows. */
  function MergeSweep(runs: seq<seq<Rule>>): (r: seq<ExportRow>)
    ensures |r| <= ExportLimit
    ensures NoDuplicates(r)
    ensures SortedBy(r, ExportRankLe)
    ensures forall row :: row in r ==>
              exists i, x :: 0 <= i < |runs| && x in runs[i] && row == Export(x)
    ensures forall i, x :: 0 <= i < |runs| && x in runs[i] ==>
              Export(x) in r || (|r| == ExportLimit && forall row :: row in r ==> ExportRankLe(row, Export(x)))
  {
    var rows := RankedExport(runs);
    var unique := DropDuplicates(rows);
    DropDuplicatesSorted(rows, ExportRankLe);
    TopRows(unique, ExportLimit);
    forall i, x | 0 <= i < |runs| && x in runs[i]
      ensures Export(x) in unique[..Min(ExportLimit, |unique|)]
           || (Min(ExportLimit, |unique|) == ExportLimit
               && forall row :: row in unique[..Min(ExportLimit, |unique|)] ==> ExportRankLe(row, Export(x)))
    {
      SortedPrefixOrAfter(unique, Min(ExportLimit, |unique|), ExportRankLe, Export(x));
    }
    Head(unique, ExportLimit)
  }

  /** The first `n` rows of a sorted, repeat-free table are sorted, repeat-free
      rows of that table. */
  lemma TopRows(s: seq<ExportRow>, n: nat)
    requires NoDuplicates(s) && SortedBy(s, ExportRankLe)
    ensures var r := Head(s, n);
      NoDuplicates(r) && SortedBy(r, ExportRankLe) && forall row :: row in r ==> row in s
  {
    var r := Head(s, n);
    assert forall k :: 0 <= k < |r| ==> r[k] == s[k];
  }
}
