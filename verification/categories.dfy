/** The ETL scripts' value categorisers: speed categories (two schemes), age
    groups and the quarter of a month. Each bucketing is stated against an
    independent reference: the number of bucket bounds a value passes. */
module Categories {

  import opened Outcomes
  import opened Seqs
  import opened Text
  import opened Frames

  // ---------------------------------------------------------------------------
  // int(x) inside try/except
  // ---------------------------------------------------------------------------

  /** `int(text)`: surrounding whitespace is ignored, then an optional sign
      and decimal digits. */
  function IntOfText(s: string): (r: Option<int>)
    ensures ParseInt(s).Some? ==> r == ParseInt(s)
    ensures var t := Trim(s);
            r.Some? <==> IsDigits(t) || (|t| > 1 && (t[0] == '-' || t[0] == '+') && IsDigits(t[1..]))
  {
    var t := Trim(s);
    NoSpaceTrim(s);
    if |t| > 1 && t[0] == '+' && IsDigits(t[1..]) then Some(DigitsValue(t[1..]))
    else ParseInt(t)
  }

  /** Integer text has no whitespace at either end and no `+`, so `int()`
      reads it as the plain reader does. */
  lemma NoSpaceTrim(s: string)
    ensures ParseInt(s).Some? ==> Trim(s) == s && s[0] != '+'
  {
    if ParseInt(s).Some? {
      assert IsDigit(s[|s| - 1]);
      TrimTrimmed(s);
    }
  }

  /** The text of an integer, padded with whitespace on either side, reads back
      as that integer. */
  lemma IntOfTextPadded(a: string, n: int, b: string)
    requires IsBlank(a) && IsBlank(b)
    ensures IntOfText(a + IntToString(n) + b) == Some(n)
  {
    var t := IntToString(n);
    ParseIntToString(n);
    NoSpaceTrim(t);
    assert IsDigit(t[|t| - 1]) && (IsDigit(t[0]) || t[0] == '-');
    TrimPadded(a, t, b);
  }

  /** A leading `+` is accepted before a non-negative integer. */
  lemma IntOfTextPlus(a: string, n: nat, b: string)
    requires IsBlank(a) && IsBlank(b)
    ensures IntOfText(a + "+" + IntToString(n) + b) == Some(n)
  {
    var d := NatToString(n);
    NatToStringValue(n);
    assert IntToString(n) == d;
    var u := PlusDigits(d);
    TrimPadded(a, u, b);
    ConcatAssoc(a, "+", d);
    PlusDigitsRead(a + u + b, d);
  }

  function PlusDigits(d: string): (u: string)
    requires IsDigits(d)
    ensures u == "+" + d && |u| > 1 && !IsSpace(u[0]) && !IsSpace(u[|u| - 1])
  {
    assert IsDigit(d[|d| - 1]);
    "+" + d
  }

  lemma PlusDigitsRead(s: string, d: string)
    requires IsDigits(d) && Trim(s) == "+" + d
    ensures IntOfText(s) == Some(DigitsValue(d))
  {
    assert Trim(s)[1..] == d;
  }

  /** `int(v)` on a cell, or `None` where it raises: a missing value or text
      that is not an integer. A boolean counts as 1 or 0. */
  function IntOf(v: Cell): (r: Option<int>)
    ensures v.Int? ==> r == Some(v.value)
    ensures v.Missing? ==> r.None?
  {
    match v
    case Missing => None
    case Int(i) => Some(i)
    case Flag(b) => Some(if b then 1 else 0)
    case Str(s) => IntOfText(s)
  }

  /** How many of the bounds `x` exceeds. */
  function BoundsBelow(x: int, bounds: seq<int>): (n: nat)
    ensures n <= |bounds|
  {
    if |bounds| == 0 then 0 else (if bounds[0] < x then 1 else 0) + BoundsBelow(x, bounds[1..])
  }

  /** Counting the bounds passed one bound at a time. */
  lemma BoundsBelowTails(x: int, bounds: seq<int>)
    ensures forall k :: 0 <= k < |bounds| ==>
      BoundsBelow(x, bounds[k..]) == (if bounds[k] < x then 1 else 0) + BoundsBelow(x, bounds[k + 1..])
    ensures BoundsBelow(x, bounds[|bounds|..]) == 0
  {
    forall k | 0 <= k < |bounds|
      ensures BoundsBelow(x, bounds[k..]) == (if bounds[k] < x then 1 else 0) + BoundsBelow(x, bounds[k + 1..])
    {
      assert bounds[k..][1..] == bounds[k + 1..];
    }
  }

  lemma {:induction false} BoundsBelowMonotone(x: int, y: int, bounds: seq<int>)
    requires x <= y
    ensures BoundsBelow(x, bounds) <= BoundsBelow(y, bounds)
    decreases |bounds|
  {
    if |bounds| > 0 {
      BoundsBelowMonotone(x, y, bounds[1..]);
    }
  }

  // ---------------------------------------------------------------------------
  // classify_speed_category
  // ---------------------------------------------------------------------------

  const SpeedCategoryBounds: seq<int> := [30, 50, 70, 100]
  const SpeedCategoryLabels: seq<string> := ["Very Low", "Low", "Medium", "High", "Very High"]

  /** A speed at or below 30 is "Very Low", at or below 50 "Low", at or below
      70 "Medium", at or below 100 "High", and anything faster "Very High". */
  function SpeedCategory(speed: int): (name: string)
    ensures name == SpeedCategoryLabels[BoundsBelow(speed, SpeedCategoryBounds)]
  {
    BoundsBelowTails(speed, SpeedCategoryBounds);
    if speed <= 30 then "Very Low"
    else if speed <= 50 then "Low"
    else if speed <= 70 then "Medium"
    else if speed <= 100 then "High"
    else "Very High"
  }

  lemma SpeedCategoryLabelsDistinct()
    ensures NoDuplicates(SpeedCategoryLabels)
  {
  }

  /** A faster speed never gets a lower category. */
  lemma SpeedCategoryMonotone(a: int, b: int)
    requires a <= b
    ensures SpeedCategory(a) in SpeedCategoryLabels && SpeedCategory(b) in SpeedCategoryLabels
    ensures FirstIndex(SpeedCategoryLabels, SpeedCategory(a)) <= FirstIndex(SpeedCategoryLabels, SpeedCategory(b))
  {
    BoundsBelowMonotone(a, b, SpeedCategoryBounds);
    SpeedCategoryLabelsDistinct();
    LabelIndex(SpeedCategoryLabels, BoundsBelow(a, SpeedCategoryBounds));
    LabelIndex(SpeedCategoryLabels, BoundsBelow(b, SpeedCategoryBounds));
  }

  lemma LabelIndex(labels: seq<string>, k: nat)
    requires NoDuplicates(labels) && k < |labels|
    ensures labels[k] in labels && FirstIndex(labels, labels[k]) == k
  {
  }

  /** `classify_speed_category(speed)`: the category of `int(speed)`, or
      missing where `int` raises. */
  function ClassifySpeedCategory(v: Cell): (r: Option<string>)
    ensures r.Some? <==> IntOf(v).Some?
    ensures r.Some? ==> r.value in SpeedCategoryLabels
    ensures r.Some? ==> r.value == SpeedCategoryLabels[BoundsBelow(IntOf(v).value, SpeedCategoryBounds)]
  {
    match IntOf(v)
    case None => None
    case Some(i) => Some(SpeedCategory(i))
  }

  // ---------------------------------------------------------------------------
  // categorize_speed_limit
  // ---------------------------------------------------------------------------

  const SpeedLimitBounds: seq<int> := [50, 80, 100]
  const SpeedLimitLabels: seq<string> := ["\U{2264}50", "51\U{2013}80", "81\U{2013}100", "100+"]

  /** At or below 50, 51 to 80, 81 to 100, above 100. */
  function SpeedLimitGroup(speed: int): (name: string)
    ensures name == SpeedLimitLabels[BoundsBelow(speed, SpeedLimitBounds)]
  {
    BoundsBelowTails(speed, SpeedLimitBounds);
    if speed <= 50 then "\U{2264}50"
    else if 50 < speed <= 80 then "51\U{2013}80"
    else if 80 < speed <= 100 then "81\U{2013}100"
    else "100+"
  }

  lemma SpeedLimitLabelsDistinct()
    ensures NoDuplicates(SpeedLimitLabels)
  {
  }

  /** Every speed gets exactly one of the four labels, and a faster speed
      never a lower one. */
  lemma SpeedLimitGroupMonotone(a: int, b: int)
    requires a <= b
    ensures SpeedLimitGroup(a) in SpeedLimitLabels && SpeedLimitGroup(b) in SpeedLimitLabels
    ensures FirstIndex(SpeedLimitLabels, SpeedLimitGroup(a)) <= FirstIndex(SpeedLimitLabels, SpeedLimitGroup(b))
  {
    BoundsBelowMonotone(a, b, SpeedLimitBounds);
    SpeedLimitLabelsDistinct();
    LabelIndex(SpeedLimitLabels, BoundsBelow(a, SpeedLimitBounds));
    LabelIndex(SpeedLimitLabels, BoundsBelow(b, SpeedLimitBounds));
  }

  /** `categorize_speed_limit(val)` */
  function CategorizeSpeedLimit(v: Cell): (r: Option<string>)
    ensures r.Some? <==> IntOf(v).Some?
    ensures r.Some? ==> r.value in SpeedLimitLabels
    ensures r.Some? ==> r.value == SpeedLimitLabels[BoundsBelow(IntOf(v).value, SpeedLimitBounds)]
  {
    match IntOf(v)
    case None => None
    case Some(i) => Some(SpeedLimitGroup(i))
  }

  // ---------------------------------------------------------------------------
  // Age groups: pd.cut(age, bins=[0, 17, 25, 40, 65, 200], right=False)
  // ---------------------------------------------------------------------------

  const AgeBins: seq<int> := [0, 17, 25, 40, 65, 200]
  const AgeGroupLabels: seq<string> := ["0-17", "18-25", "26-40", "41-65", "65+"]

  /** The label of the half-open bin holding `age`; an age outside [0, 200)
      has no group. The bins start at 17, so age 17 is labelled "18-25". */
  function AgeGroup(age: int): (r: Option<string>)
    ensures r.Some? <==> AgeBins[0] <= age < AgeBins[5]
    ensures forall k :: 0 <= k < 5 && AgeBins[k] <= age < AgeBins[k + 1] ==> r == Some(AgeGroupLabels[k])
  {
    if age < 0 || age >= 200 then None
    else if age < 17 then Some("0-17")
    else if age < 25 then Some("18-25")
    else if age < 40 then Some("26-40")
    else if age < 65 then Some("41-65")
    else Some("65+")
  }

  // ---------------------------------------------------------------------------
  // Quarter
  // ---------------------------------------------------------------------------

  /** `(month - 1) // 3 + 1`. Python's `//` floors; for the divisor 3 that
      agrees with Dafny's `/`. */
  function Quarter(month: int): (q: int)
    ensures 3 * (q - 1) < month <= 3 * q
    ensures 1 <= month <= 12 ==> 1 <= q <= 4
  {
    (month - 1) / 3 + 1
  }

  /** Each quarter is three consecutive months. */
  lemma QuarterMonths(q: int)
    ensures Quarter(3 * q - 2) == q && Quarter(3 * q - 1) == q && Quarter(3 * q) == q
    ensures Quarter(3 * q + 1) == q + 1
  {
  }
}
