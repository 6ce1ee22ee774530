/** A stable sort by a total preorder. pandas' `sort_values` with several
    keys orders rows with `numpy.lexsort`, which is stable: rows whose keys tie
    keep their original relative order. This module is that sort. */
module Sorting {

  import opened Seqs

  /** `le(a, b)`: `a` may come before `b`. */
  ghost predicate TotalPreorder<T(!new)>(le: (T, T) -> bool) {
    && (forall a, b :: le(a, b) || le(b, a))
    && (forall a, b, c :: le(a, b) && le(b, c) ==> le(a, c))
  }

  ghost predicate Antisymmetric<T(!new)>(le: (T, T) -> bool) {
    forall a, b :: le(a, b) && le(b, a) ==> a == b
  }

  predicate SortedBy<T>(s: seq<T>, le: (T, T) -> bool) {
    forall i, j :: 0 <= i < j < |s| ==> le(s[i], s[j])
  }

  /** Inserts `x` in front of the first element it may precede. */
  function Insert<T(!new)>(x: T, s: seq<T>, le: (T, T) -> bool): (r: seq<T>)
    requires TotalPreorder(le)
    requires SortedBy(s, le)
    ensures SortedBy(r, le)
    ensures multiset(r) == multiset(s) + multiset{x}
    ensures forall y :: y in r <==> y == x || y in s
  {
    if |s| == 0 then [x]
    else if le(x, s[0]) then [x] + s
    else
      var rest := Insert(x, s[1..], le);
      assert s == [s[0]] + s[1..];
      assert forall k :: 0 <= k < |rest| ==> le(s[0], rest[k]) by {
        forall k | 0 <= k < |rest| ensures le(s[0], rest[k]) {
          if rest[k] != x {
            assert rest[k] in rest;
            var m :| 0 <= m < |s[1..]| && s[1..][m] == rest[k];
            assert s[m + 1] == rest[k];
          }
        }
      }
      [s[0]] + rest
  }

  /** Stable insertion sort. */
  function SortBy<T(!new)>(s: seq<T>, le: (T, T) -> bool): (r: seq<T>)
    requires TotalPreorder(le)
    ensures SortedBy(r, le)
    ensures multiset(r) == multiset(s)
    ensures |r| == |s|
    ensures forall y :: y in r <==> y in s
  {
    if |s| == 0 then []
    else
      assert s == [s[0]] + s[1..];
      Insert(s[0], SortBy(s[1..], le), le)
  }

  /** The elements of `s` that tie with `x`, in order. */
  function Equivalents<T>(s: seq<T>, x: T, le: (T, T) -> bool): seq<T>
  {
    if |s| == 0 then [] else Tie(s[0], x, le) + Equivalents(s[1..], x, le)
  }

  /** The ties of `x` with `y`: `[y]` or nothing. */
  function Tie<T>(y: T, x: T, le: (T, T) -> bool): seq<T> {
    if le(x, y) && le(y, x) then [y] else []
  }

  lemma {:induction false} InsertEquivalents<T(!new)>(y: T, s: seq<T>, x: T, le: (T, T) -> bool)
    requires TotalPreorder(le)
    requires SortedBy(s, le)
    ensures Equivalents(Insert(y, s, le), x, le) == Tie(y, x, le) + Equivalents(s, x, le)
    decreases |s|
  {
    if |s| > 0 && !le(y, s[0]) {
      InsertEquivalents(y, s[1..], x, le);
      InsertPast(y, s, le);
      EquivalentsCons(s[0], Insert(y, s[1..], le), x, le);
      EquivalentsCons(s[0], s[1..], x, le);
      assert [s[0]] + s[1..] == s;
      TieSwap(y, s[0], x, le, Equivalents(s[1..], x, le));
    } else {
      InsertEquivalentsFront(y, s, x, le);
    }
  }

  /** Inserting in front adds `y`'s tie in front. */
  lemma InsertEquivalentsFront<T(!new)>(y: T, s: seq<T>, x: T, le: (T, T) -> bool)
    requires TotalPreorder(le)
    requires SortedBy(s, le)
    requires |s| == 0 || le(y, s[0])
    ensures Equivalents(Insert(y, s, le), x, le) == Tie(y, x, le) + Equivalents(s, x, le)
  {
    assert Insert(y, s, le) == [y] + s;
    assert ([y] + s)[1..] == s;
  }

  lemma EquivalentsCons<T>(a: T, rest: seq<T>, x: T, le: (T, T) -> bool)
    ensures Equivalents([a] + rest, x, le) == Tie(a, x, le) + Equivalents(rest, x, le)
  {
    assert ([a] + rest)[1..] == rest;
  }

  /** When `y` may not precede `z`, `x` ties with at most one of them, so
      their ties can be listed in either order. */
  lemma TieSwap<T(!new)>(y: T, z: T, x: T, le: (T, T) -> bool, e: seq<T>)
    requires TotalPreorder(le)
    requires !le(y, z)
    ensures Tie(z, x, le) + (Tie(y, x, le) + e) == Tie(y, x, le) + (Tie(z, x, le) + e)
  {
    TiesExclusive(le, x, y, z);
    var ty, tz := Tie(y, x, le), Tie(z, x, le);
    if ty == [] {
      assert ty + e == e && ty + (tz + e) == tz + e;
    } else {
      assert tz + (ty + e) == ty + e && tz + e == e;
    }
  }

  lemma InsertPast<T(!new)>(y: T, s: seq<T>, le: (T, T) -> bool)
    requires TotalPreorder(le)
    requires SortedBy(s, le)
    requires |s| > 0 && !le(y, s[0])
    ensures Insert(y, s, le) == [s[0]] + Insert(y, s[1..], le)
  {
  }

  /** `x` cannot tie with both `y` and `z` when `y` may not precede `z`. */
  lemma TiesExclusive<T(!new)>(le: (T, T) -> bool, x: T, y: T, z: T)
    requires TotalPreorder(le)
    requires !le(y, z)
    ensures !(le(x, y) && le(y, x)) || !(le(x, z) && le(z, x))
  {
  }

  /** Stability: for every key, the elements with that key appear in the
      sorted output in the same order as in the input. */
  lemma {:induction false} SortByStable<T(!new)>(s: seq<T>, le: (T, T) -> bool, x: T)
    requires TotalPreorder(le)
    ensures Equivalents(SortBy(s, le), x, le) == Equivalents(s, x, le)
    decreases |s|
  {
    if |s| > 0 {
      SortByStable(s[1..], le, x);
      InsertEquivalents(s[0], SortBy(s[1..], le), x, le);
    }
  }

  /** For an order without ties there is exactly one sorted arrangement of a
      multiset of elements. */
  lemma {:induction false} SortedUnique<T(!new)>(a: seq<T>, b: seq<T>, le: (T, T) -> bool)
    requires Antisymmetric(le)
    requires SortedBy(a, le) && SortedBy(b, le)
    requires multiset(a) == multiset(b)
    ensures a == b
    decreases |a|
  {
    assert |a| == |multiset(a)| == |multiset(b)| == |b|;
    if |a| > 0 {
      SortedHeadsAgree(a, b, le);
      TailMultisets(a, b);
      SortedUnique(a[1..], b[1..], le);
      assert a == [a[0]] + a[1..] && b == [b[0]] + b[1..];
    }
  }

  lemma SortedHeadsAgree<T(!new)>(a: seq<T>, b: seq<T>, le: (T, T) -> bool)
    requires Antisymmetric(le)
    requires SortedBy(a, le) && SortedBy(b, le)
    requires |a| > 0 && multiset(a) == multiset(b)
    ensures |b| > 0 && a[0] == b[0]
  {
    assert a[0] in multiset(b);
    assert b[0] in multiset(a);
    var k :| 0 <= k < |b| && b[k] == a[0];
    var j :| 0 <= j < |a| && a[j] == b[0];
    if k > 0 && j > 0 {
      assert le(b[0], b[k]) && le(a[0], a[j]);
    }
  }

  lemma TailMultisets<T>(a: seq<T>, b: seq<T>)
    requires |a| > 0 && |b| > 0 && a[0] == b[0] && multiset(a) == multiset(b)
    ensures multiset(a[1..]) == multiset(b[1..])
  {
    assert a == [a[0]] + a[1..] && b == [b[0]] + b[1..];
    assert multiset(a) == multiset{a[0]} + multiset(a[1..]);
    assert multiset(b) == multiset{b[0]} + multiset(b[1..]);
    forall y ensures multiset(a[1..])[y] == multiset(b[1..])[y] {
      assert multiset(a)[y] == multiset{a[0]}[y] + multiset(a[1..])[y];
      assert multiset(b)[y] == multiset{b[0]}[y] + multiset(b[1..])[y];
    }
  }

  /** Taking the first rows of a sorted table loses nothing that strictly
      precedes a row it keeps. */
  lemma SortedPrefixClosed<T>(s: seq<T>, n: nat, le: (T, T) -> bool, x: T, y: T)
    requires SortedBy(s, le) && n <= |s|
    requires x in s && y in s[..n] && !le(y, x)
    ensures x in s[..n]
  {
    var i :| 0 <= i < |s| && s[i] == x;
    var j :| 0 <= j < n && s[..n][j] == y;
    assert s[j] == y;
    assert s[..n][i] == x;
  }

  /** An element of a sorted sequence is either among its first `n`, or
      every one of those may precede it. */
  lemma SortedPrefixOrAfter<T>(s: seq<T>, n: nat, le: (T, T) -> bool, x: T)
    requires SortedBy(s, le) && n <= |s| && x in s
    ensures x in s[..n] || forall y :: y in s[..n] ==> le(y, x)
  {
    forall y | y in s[..n] && x !in s[..n] ensures le(y, x) {
      if !le(y, x) {
        SortedPrefixClosed(s, n, le, x, y);
      }
    }
  }

  /** Dropping repeats from a sorted sequence leaves it sorted. */
  lemma DropDuplicatesSorted<T(!new)>(s: seq<T>, le: (T, T) -> bool)
    requires SortedBy(s, le)
    ensures SortedBy(DropDuplicates(s), le)
  {
    var r := DropDuplicates(s);
    forall i, j | 0 <= i < j < |r| ensures le(r[i], r[j]) {
      assert r[i] in s && r[j] in s;
      var a := FirstIndex(s, r[i]);
      var b := FirstIndex(s, r[j]);
      assert le(s[a], s[b]);
    }
  }

  /** Selecting rows from a sorted table leaves it sorted. */
  lemma {:induction false} FilterSorted<T(!new)>(s: seq<T>, p: T -> bool, le: (T, T) -> bool)
    requires SortedBy(s, le)
    ensures SortedBy(Filter(s, p), le)
    decreases |s|
  {
    if |s| > 0 {
      FilterSorted(s[1..], p, le);
      var rest := Filter(s[1..], p);
      forall y | y in rest ensures le(s[0], y) {
        var k :| 0 <= k < |s[1..]| && s[1..][k] == y;
        assert s[k + 1] == y;
      }
    }
  }
}
