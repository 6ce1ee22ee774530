/** Row-sequence operations that pandas provides and the repository uses:
    boolean-mask selection, `drop_duplicates()`, `head(n)` and position lookup. */
module Seqs {

  predicate NoDuplicates<T(==)>(s: seq<T>) {
    forall i, j :: 0 <= i < j < |s| ==> s[i] != s[j]
  }

  /** `df[mask]`: the elements satisfying `p`, in their original order. */
  function Filter<T(!new)>(s: seq<T>, p: T -> bool): (r: seq<T>)
    ensures |r| <= |s|
    ensures forall x :: x in r <==> x in s && p(x)
  {
    if |s| == 0 then [] else (if p(s[0]) then [s[0]] else []) + Filter(s[1..], p)
  }

  lemma ConcatAssoc<T>(x: seq<T>, y: seq<T>, z: seq<T>)
    ensures x + y + z == x + (y + z)
  {
  }

  /** Selecting after mapping keeps the images of the elements whose image
      passes, in order. */
  lemma {:induction false} FilterMap<T(!new), U(!new)>(s: seq<T>, f: T -> U, p: U -> bool, q: T -> bool)
    requires forall k :: 0 <= k < |s| ==> q(s[k]) == p(f(s[k]))
    ensures Filter(Map(s, f), p) == Map(Filter(s, q), f)
    decreases |s|
  {
    if |s| > 0 {
      FilterMap(s[1..], f, p, q);
      assert Map(s, f)[1..] == Map(s[1..], f);
      var rest := Filter(s[1..], q);
      if q(s[0]) {
        assert Map([s[0]] + rest, f) == [f(s[0])] + Map(rest, f);
      } else {
        assert [] + rest == rest;
      }
    }
  }

  /** The selected images are the images that pass the mask. */
  lemma FilterMapMembers<T, U(!new)>(s: seq<T>, f: T -> U, p: U -> bool)
    ensures forall x :: x in Filter(Map(s, f), p) <==> p(x) && exists k :: 0 <= k < |s| && f(s[k]) == x
  {
    var m := Map(s, f);
    forall x | p(x) && exists k :: 0 <= k < |s| && f(s[k]) == x ensures x in m {
      var k :| 0 <= k < |s| && f(s[k]) == x;
      assert m[k] == x;
    }
  }

  /** Selecting with the same mask twice selects nothing more. */
  lemma {:induction false} FilterIdempotent<T(!new)>(s: seq<T>, p: T -> bool)
    ensures Filter(Filter(s, p), p) == Filter(s, p)
    decreases |s|
  {
    if |s| > 0 {
      FilterIdempotent(s[1..], p);
      var rest := Filter(s[1..], p);
      if p(s[0]) {
        var f := [s[0]] + rest;
        assert Filter(s, p) == f;
        assert f[0] == s[0] && f[1..] == rest;
      } else {
        assert Filter(s, p) == rest;
      }
    }
  }

  /** Selecting by `p` then by `q` is selecting once by a mask `pq` that
      holds exactly where both do. */
  lemma {:induction false} FilterFilter<T(!new)>(s: seq<T>, p: T -> bool, q: T -> bool, pq: T -> bool)
    requires forall x :: pq(x) == (p(x) && q(x))
    ensures Filter(Filter(s, p), q) == Filter(s, pq)
    decreases |s|
  {
    if |s| > 0 {
      FilterFilter(s[1..], p, q, pq);
      var rest := Filter(s[1..], p);
      if p(s[0]) {
        var f := [s[0]] + rest;
        assert Filter(s, p) == f;
        assert f[0] == s[0] && f[1..] == rest;
      } else {
        assert Filter(s, p) == rest;
      }
    }
  }

  /** Selecting from a concatenation selects from each part. */
  lemma {:induction false} FilterAppend<T(!new)>(a: seq<T>, b: seq<T>, p: T -> bool)
    ensures Filter(a + b, p) == Filter(a, p) + Filter(b, p)
    decreases |a|
  {
    if |a| == 0 {
      assert a + b == b;
    } else {
      FilterAppend(a[1..], b, p);
      assert (a + b)[0] == a[0] && (a + b)[1..] == a[1..] + b;
      var h := if p(a[0]) then [a[0]] else [];
      assert Filter(a + b, p) == h + Filter(a[1..] + b, p);
      assert Filter(a, p) == h + Filter(a[1..], p);
    }
  }

  /** `f` applied to every element, in order. */
  function Map<T, U>(s: seq<T>, f: T -> U): (r: seq<U>)
    ensures |r| == |s|
    ensures forall k :: 0 <= k < |s| ==> r[k] == f(s[k])
  {
    if |s| == 0 then [] else [f(s[0])] + Map(s[1..], f)
  }

  /** The position of the first occurrence of `x`. */
  function FirstIndex<T(==)>(s: seq<T>, x: T): (i: nat)
    requires x in s
    ensures i < |s| && s[i] == x && x !in s[..i]
  {
    if s[0] == x then 0
    else
      var i := 1 + FirstIndex(s[1..], x);
      assert s[..i] == [s[0]] + s[1..][..i - 1];
      i
  }

  lemma FirstIndexHead<T>(s: seq<T>)
    requires |s| > 0
    ensures FirstIndex(s, s[0]) == 0
  {
  }

  lemma {:induction false} FirstIndexAppend<T>(s: seq<T>, t: seq<T>, x: T)
    requires x in s
    ensures FirstIndex(s + t, x) == FirstIndex(s, x)
    decreases |s|
  {
    if s[0] != x {
      assert (s + t)[1..] == s[1..] + t;
      FirstIndexAppend(s[1..], t, x);
    }
  }

  /** `drop_duplicates()`: every value once, at the position of its first
      occurrence, in order of first occurrence. */
  function DropDuplicates<T(==,!new)>(s: seq<T>): (r: seq<T>)
    ensures |r| <= |s|
    ensures NoDuplicates(r)
    ensures forall x :: x in r <==> x in s
    ensures forall i, j :: 0 <= i < j < |r| ==> FirstIndex(s, r[i]) < FirstIndex(s, r[j])
    decreases |s|
  {
    if |s| == 0 then []
    else
      var init := s[..|s| - 1];
      var last := s[|s| - 1];
      assert s == init + [last];
      var r0 := DropDuplicates(init);
      assert forall x :: x in init ==> FirstIndex(s, x) == FirstIndex(init, x) by {
        forall x | x in init {
          FirstIndexAppend(init, [last], x);
        }
      }
      if last in init then r0
      else
        assert FirstIndex(s, last) == |s| - 1;
        r0 + [last]
  }

  /** Every element of a mapped selection is the image of a selected element. */
  lemma MapFilterOrigin<T(!new), U>(s: seq<T>, p: T -> bool, g: T -> U, y: U) returns (i: int)
    requires y in Map(Filter(s, p), g)
    ensures 0 <= i < |s| && p(s[i]) && y == g(s[i])
  {
    var x := MapOrigin(Filter(s, p), g, y);
    FilterOrigin(s, p, x);
    i :| 0 <= i < |s| && s[i] == x && p(x);
  }

  lemma MapOrigin<T, U>(s: seq<T>, g: T -> U, y: U) returns (x: T)
    requires y in Map(s, g)
    ensures x in s && y == g(x)
  {
    var m := Map(s, g);
    var k :| 0 <= k < |m| && m[k] == y;
    x := s[k];
  }

  lemma FilterOrigin<T(!new)>(s: seq<T>, p: T -> bool, x: T)
    requires x in Filter(s, p)
    ensures exists i :: 0 <= i < |s| && s[i] == x && p(x)
  {
    assert x in s;
  }

  /** Two different values are both kept, in order. */
  lemma DropDuplicatesPair<T(!new)>(a: T, b: T)
    requires a != b
    ensures DropDuplicates([a, b]) == [a, b]
  {
    assert [a, b][..1] == [a] && [a][..0] == [];
    assert DropDuplicates([a]) == [a];
  }

  function Min(a: int, b: int): int { if a <= b then a else b }

  /** `head(n)`: the first `n` elements; a negative `n` keeps all but the last `-n`. */
  function Head<T>(s: seq<T>, n: int): (r: seq<T>)
    ensures |r| <= |s| && r == s[..|r|]
    ensures n >= 0 ==> |r| == Min(n, |s|)
    ensures n < 0 ==> |r| == if |s| + n > 0 then |s| + n else 0
  {
    if n >= 0 then s[..Min(n, |s|)]
    else if |s| + n > 0 then s[..|s| + n]
    else []
  }

  /** The first `n` hold at most the elements of the whole, counted with
      multiplicity, and all of them once `n` reaches the length. */
  lemma HeadMultiset<T>(s: seq<T>, n: int)
    ensures multiset(Head(s, n)) <= multiset(s)
    ensures n >= |s| ==> Head(s, n) == s
  {
    var r := Head(s, n);
    assert s == r + s[|r|..];
  }

  /** `reversed(s)` */
  function Reverse<T>(s: seq<T>): (r: seq<T>)
    ensures |r| == |s| && forall k :: 0 <= k < |s| ==> r[k] == s[|s| - 1 - k]
  {
    if |s| == 0 then [] else Reverse(s[1..]) + [s[0]]
  }

  /** Reversing twice gives the sequence back. */
  lemma ReverseReverse<T>(s: seq<T>)
    ensures Reverse(Reverse(s)) == s
  {
  }

  /** Mapping commutes with reversal. */
  lemma MapReverse<T, U>(s: seq<T>, f: T -> U)
    ensures Map(Reverse(s), f) == Reverse(Map(s, f))
  {
    var a := Map(Reverse(s), f);
    var b := Reverse(Map(s, f));
    assert |a| == |s| && |b| == |s|;
    forall k | 0 <= k < |s| ensures a[k] == b[k] {
      var j := |s| - 1 - k;
      assert a[k] == f(Reverse(s)[k]) == f(s[j]);
      assert b[k] == Map(s, f)[j] == f(s[j]);
    }
  }

  /** Mapping by `f` then `g` is mapping by their composite `h`. */
  lemma MapMap<T, U, V>(s: seq<T>, f: T -> U, g: U -> V, h: T -> V)
    requires forall x :: g(f(x)) == h(x)
    ensures Map(Map(s, f), g) == Map(s, h)
  {
    var a := Map(Map(s, f), g);
    forall k | 0 <= k < |s| ensures a[k] == h(s[k]) {
      assert a[k] == g(Map(s, f)[k]) == g(f(s[k]));
    }
  }

  /** Mapping by a function that fixes every element with property `p`
      changes a sequence of such elements not at all. */
  lemma MapFixed<T>(s: seq<T>, f: T -> T, p: T -> bool)
    requires forall k :: 0 <= k < |s| ==> p(s[k])
    requires forall x :: p(x) ==> f(x) == x
    ensures Map(s, f) == s
  {
  }
}
