/** The post-processing both mining scripts apply to the candidate rules the
    (unmodelled) Apriori miner produces: keep the rules whose only consequent
    is a target item, keep the confident ones, rank by lift then confidence,
    and take the first `top_k`. */
module Rules {

  import opened Seqs
  import opened Sorting
  import opened Text

  /** One row of mlxtend's rule table. */
  datatype Rule = Rule(antecedents: set<string>, consequents: set<string>,
                       support: real, confidence: real, lift: real)

  /** The default target prefix, confidence bar and result size of
      `mine_association_rules`, and the size the parameter sweep asks for. */
  const DefaultTarget: string := "road_user="
  const DefaultMinConfidence: real := 0.60
  const DefaultTopK: int := 10
  const SweepTopK: int := 50

  /** The rule's consequent is exactly one item, and that item starts with `target`. */
  predicate SingleTargetConsequent(r: Rule, target: string) {
    |r.consequents| == 1 && forall x :: x in r.consequents ==> StartsWith(x, target)
  }

  predicate Qualifies(r: Rule, target: string, minConfidence: real) {
    SingleTargetConsequent(r, target) && r.confidence >= minConfidence
  }

  /** The descending order on lift, then confidence: `a` may come
      before `b` when its lift is higher, or equal with at least the confidence. */
  predicate RankLe(a: Rule, b: Rule) {
    a.lift > b.lift || (a.lift == b.lift && a.confidence >= b.confidence)
  }

  lemma RankLeTotalPreorder()
    ensures TotalPreorder(RankLe)
  {
  }

  /** The stable descending sort by lift, then confidence. */
  function RankSort(s: seq<Rule>): (r: seq<Rule>)
    ensures SortedBy(r, RankLe)
    ensures multiset(r) == multiset(s)
    ensures |r| == |s| && forall x :: x in r <==> x in s
  {
    RankLeTotalPreorder();
    SortBy(s, RankLe)
  }

  function ShapeMask(target: string): Rule -> bool {
    (r: Rule) => SingleTargetConsequent(r, target)
  }

  function ConfidenceMask(minConfidence: real): Rule -> bool {
    (r: Rule) => r.confidence >= minConfidence
  }

  function QualifiesMask(target: string, minConfidence: real): Rule -> bool {
    (r: Rule) => Qualifies(r, target, minConfidence)
  }

  /** `mine_association_rules` after the miner: shape filter, confidence
      filter, stable descending sort, `head(top_k)`. */
  function MineRules(cands: seq<Rule>, target: string, minConfidence: real, topK: int): (r: seq<Rule>)
    ensures forall x :: x in r ==> x in cands && Qualifies(x, target, minConfidence)
    ensures SortedBy(r, RankLe)
    ensures topK >= 0 ==> |r| == Min(topK, |Filter(cands, QualifiesMask(target, minConfidence))|)
    ensures forall x, y :: x in cands && Qualifies(x, target, minConfidence) && y in r && !RankLe(y, x)
              ==> x in r
    ensures multiset(r) <= multiset(Filter(cands, QualifiesMask(target, minConfidence)))
    ensures var qualified := Filter(cands, QualifiesMask(target, minConfidence));
            topK >= |qualified| ==> multiset(r) == multiset(qualified)
  {
    var confident := PostFilter(cands, target, minConfidence);
    var sorted := RankSort(confident);
    var r := Head(sorted, topK);
    HeadMultiset(sorted, topK);
    forall x, y | x in cands && Qualifies(x, target, minConfidence) && y in r && !RankLe(y, x)
      ensures x in r
    {
      assert x in sorted;
      SortedPrefixClosed(sorted, |r|, RankLe, x, y);
    }
    r
  }

  /** The shape and confidence filters, as the script applies them. */
  function PostFilter(cands: seq<Rule>, target: string, minConfidence: real): (r: seq<Rule>)
    ensures r == Filter(cands, QualifiesMask(target, minConfidence))
  {
    FilterFilter(cands, ShapeMask(target), ConfidenceMask(minConfidence), QualifiesMask(target, minConfidence));
    Filter(Filter(cands, ShapeMask(target)), ConfidenceMask(minConfidence))
  }

  /** Filtering the filtered rules again removes nothing. */
  lemma PostFilterIdempotent(cands: seq<Rule>, target: string, minConfidence: real)
    ensures PostFilter(PostFilter(cands, target, minConfidence), target, minConfidence)
            == PostFilter(cands, target, minConfidence)
  {
    FilterIdempotent(cands, QualifiesMask(target, minConfidence));
  }

  /** Asking for fewer rules gives a prefix of the longer answer: the sweep's
      fifty rules start with the default ten. */
  lemma MineRulesPrefix(cands: seq<Rule>, target: string, minConfidence: real, k: nat, k': nat)
    requires k <= k'
    ensures var short := MineRules(cands, target, minConfidence, k);
            var long := MineRules(cands, target, minConfidence, k');
            |short| <= |long| && short == long[..|short|]
  {
  }

  /** Rules of equal rank keep their candidate order. */
  lemma RankSortStable(cands: seq<Rule>, x: Rule)
    ensures Equivalents(RankSort(cands), x, RankLe) == Equivalents(cands, x, RankLe)
  {
    RankLeTotalPreorder();
    SortByStable(cands, RankLe, x);
  }
}
