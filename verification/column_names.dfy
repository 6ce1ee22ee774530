/** The column-name normalisation at the top of `common_clean_steps`: every run
    of non-word characters becomes one `_`, spaces become `_`, leading and
    trailing `_` are stripped, and the name is lower-cased. Word characters
    are the ASCII ones: letters, digits and `_`. */
module ColumnNames {

  import opened Seqs
  import opened Text

  predicate IsAlnum(c: char) {
    ('a' <= c <= 'z') || ('A' <= c <= 'Z') || ('0' <= c <= '9')
  }

  /** A character `\w` matches. */
  predicate IsWordChar(c: char) {
    IsAlnum(c) || c == '_'
  }

  /** A character of a normalised name. */
  predicate IsNameChar(c: char) {
    ('a' <= c <= 'z') || ('0' <= c <= '9') || c == '_'
  }

  predicate AllWordChars(s: string) {
    forall k :: 0 <= k < |s| ==> IsWordChar(s[k])
  }

  predicate AllNameChars(s: string) {
    forall k :: 0 <= k < |s| ==> IsNameChar(s[k])
  }

  /** The regular-expression substitution that turns each maximal run of
      non-word characters into a single `_`; `inRun` says the previous
      character was already part of a replaced run. */
  function CollapseNonWord(s: string, inRun: bool): (r: string)
    ensures AllWordChars(r)
    ensures |r| <= |s| + 1
  {
    if |s| == 0 then ""
    else if !IsWordChar(s[0]) then (if inRun then "" else "_") + CollapseNonWord(s[1..], true)
    else [s[0]] + CollapseNonWord(s[1..], false)
  }

  /** Every space becomes `_`. */
  function ReplaceSpaces(s: string): (r: string)
    ensures |r| == |s|
    ensures forall k :: 0 <= k < |s| ==> r[k] == if s[k] == ' ' then '_' else s[k]
  {
    if |s| == 0 then "" else [if s[0] == ' ' then '_' else s[0]] + ReplaceSpaces(s[1..])
  }

  function StripUnderscoresStart(s: string): (r: string)
    ensures |r| <= |s| && r == s[|s| - |r|..]
    ensures forall k :: 0 <= k < |s| - |r| ==> s[k] == '_'
    ensures |r| > 0 ==> r[0] != '_'
  {
    if |s| > 0 && s[0] == '_' then
      var r := StripUnderscoresStart(s[1..]);
      assert forall k :: 1 <= k < |s| - |r| ==> s[k] == s[1..][k - 1];
      r
    else s
  }

  function StripUnderscoresEnd(s: string): (r: string)
    ensures |r| <= |s| && r == s[..|r|]
    ensures forall k :: |r| <= k < |s| ==> s[k] == '_'
    ensures |r| > 0 ==> r[|r| - 1] != '_'
  {
    if |s| > 0 && s[|s| - 1] == '_' then
      var r := StripUnderscoresEnd(s[..|s| - 1]);
      assert forall k :: |r| <= k < |s| - 1 ==> s[k] == s[..|s| - 1][k];
      r
    else s
  }

  /** `r` is the slice of `s` at `i`, and everything of `s` outside it is `_`. */
  predicate TrimmedAt(s: string, i: int, r: string) {
    SliceAt(s, i, r)
    && (forall k :: 0 <= k < i ==> s[k] == '_')
    && (forall k :: i + |r| <= k < |s| ==> s[k] == '_')
  }

  /** Stripping `_` from both ends: the slice left after removing leading and
      trailing `_`, and only those. */
  function StripUnderscores(s: string): (r: string)
    ensures |r| <= |s|
    ensures |r| > 0 ==> r[0] != '_' && r[|r| - 1] != '_'
    ensures exists i :: TrimmedAt(s, i, r)
  {
    StripBothEnds(s);
    StripUnderscoresEnd(StripUnderscoresStart(s))
  }

  lemma StripBothEnds(s: string)
    ensures var a := StripUnderscoresStart(s);
            TrimmedAt(s, |s| - |a|, StripUnderscoresEnd(a))
  {
    var a := StripUnderscoresStart(s);
    var r := StripUnderscoresEnd(a);
    var i := |s| - |a|;
    assert a == s[i..];
    assert r == a[..|r|];
    assert SliceAt(s, i, r) by {
      assert s[i..i + |r|] == s[i..][..|r|];
    }
    assert forall k :: i + |r| <= k < |s| ==> s[k] == '_' by {
      forall k | i + |r| <= k < |s| ensures s[k] == '_' {
        assert s[k] == a[k - i];
      }
    }
  }

  function LowerChar(c: char): char {
    if 'A' <= c <= 'Z' then (c as int - 'A' as int + 'a' as int) as char else c
  }

  /** Lower-casing of ASCII text. */
  function Lower(s: string): (r: string)
    ensures |r| == |s|
    ensures forall k :: 0 <= k < |s| ==> r[k] == LowerChar(s[k])
  {
    if |s| == 0 then "" else [LowerChar(s[0])] + Lower(s[1..])
  }

  /** The normalised column name: only lower-case letters, digits and `_`,
      never starting or ending with `_`. */
  function NormalizeColumnName(s: string): (r: string)
    ensures AllNameChars(r)
    ensures |r| > 0 ==> r[0] != '_' && r[|r| - 1] != '_'
  {
    var collapsed := CollapseNonWord(s, false);
    var spaced := ReplaceSpaces(collapsed);
    var stripped := StripUnderscores(spaced);
    assert AllWordChars(spaced) by {
      forall k | 0 <= k < |spaced| ensures IsWordChar(spaced[k]) {
        assert IsWordChar(collapsed[k]);
      }
    }
    SliceWordChars(spaced, stripped);
    LowerWordChars(stripped);
    Lower(stripped)
  }

  /** Lower-casing word characters leaves name characters; `_` stays `_`. */
  lemma LowerWordChars(s: string)
    requires AllWordChars(s)
    ensures AllNameChars(Lower(s))
    ensures |s| > 0 ==> (Lower(s)[0] == '_' <==> s[0] == '_') && (Lower(s)[|s| - 1] == '_' <==> s[|s| - 1] == '_')
  {
    forall k | 0 <= k < |s| ensures IsNameChar(LowerChar(s[k])) && (LowerChar(s[k]) == '_' <==> s[k] == '_') {
      LowerCharOfWordChar(s[k]);
    }
  }

  lemma LowerCharOfWordChar(c: char)
    requires IsWordChar(c)
    ensures IsNameChar(LowerChar(c)) && (LowerChar(c) == '_' <==> c == '_')
  {
  }

  lemma SliceWordChars(s: string, r: string)
    requires AllWordChars(s) && exists i :: TrimmedAt(s, i, r)
    ensures AllWordChars(r)
  {
    var i :| TrimmedAt(s, i, r);
    forall k | 0 <= k < |r| ensures IsWordChar(r[k]) {
      assert r[k] == s[i + k];
    }
  }

  // ---------------------------------------------------------------------------
  // Idempotence
  // ---------------------------------------------------------------------------

  lemma {:induction false} CollapseWordOnly(s: string)
    requires AllWordChars(s)
    ensures CollapseNonWord(s, false) == s
    decreases |s|
  {
    if |s| > 0 {
      CollapseWordOnly(s[1..]);
      assert [s[0]] + s[1..] == s;
    }
  }

  lemma StripClean(s: string)
    requires |s| > 0 ==> s[0] != '_' && s[|s| - 1] != '_'
    ensures StripUnderscores(s) == s
  {
  }

  lemma LowerNameChars(s: string)
    requires AllNameChars(s)
    ensures Lower(s) == s
  {
  }

  /** Normalising a normalised name changes nothing. */
  lemma NormalizeIdempotent(s: string)
    ensures NormalizeColumnName(NormalizeColumnName(s)) == NormalizeColumnName(s)
  {
    var t := NormalizeColumnName(s);
    assert AllWordChars(t);
    CollapseWordOnly(t);
    assert ReplaceSpaces(t) == t;
    StripClean(t);
    LowerNameChars(t);
  }

  // ---------------------------------------------------------------------------
  // The letters and digits survive, in order
  // ---------------------------------------------------------------------------

  lemma {:induction false} CollapseKeepsAlnum(s: string, inRun: bool)
    ensures Filter(CollapseNonWord(s, inRun), IsAlnum) == Filter(s, IsAlnum)
    decreases |s|
  {
    if |s| > 0 {
      CollapseKeepsAlnum(s[1..], !IsWordChar(s[0]));
      var rest := CollapseNonWord(s[1..], !IsWordChar(s[0]));
      if !IsWordChar(s[0]) {
        FilterAppend((if inRun then "" else "_"), rest, IsAlnum);
      } else {
        FilterAppend([s[0]], rest, IsAlnum);
      }
    }
  }

  lemma {:induction false} ReplaceSpacesKeepsAlnum(s: string)
    ensures Filter(ReplaceSpaces(s), IsAlnum) == Filter(s, IsAlnum)
    decreases |s|
  {
    if |s| > 0 {
      ReplaceSpacesKeepsAlnum(s[1..]);
      assert ReplaceSpaces(s)[1..] == ReplaceSpaces(s[1..]);
    }
  }

  lemma {:induction false} UnderscoresHaveNoAlnum(s: string)
    requires forall k :: 0 <= k < |s| ==> s[k] == '_'
    ensures Filter(s, IsAlnum) == []
    decreases |s|
  {
    if |s| > 0 {
      UnderscoresHaveNoAlnum(s[1..]);
    }
  }

  lemma StripKeepsAlnum(s: string)
    ensures Filter(StripUnderscores(s), IsAlnum) == Filter(s, IsAlnum)
  {
    var a := StripUnderscoresStart(s);
    StripStartKeepsAlnum(s);
    StripEndKeepsAlnum(a);
  }

  lemma StripStartKeepsAlnum(s: string)
    ensures Filter(StripUnderscoresStart(s), IsAlnum) == Filter(s, IsAlnum)
  {
    var a := StripUnderscoresStart(s);
    var pre := s[..|s| - |a|];
    assert s == pre + a;
    FilterAppend(pre, a, IsAlnum);
    UnderscoresHaveNoAlnum(pre);
  }

  lemma StripEndKeepsAlnum(a: string)
    ensures Filter(StripUnderscoresEnd(a), IsAlnum) == Filter(a, IsAlnum)
  {
    var r := StripUnderscoresEnd(a);
    var post := a[|r|..];
    assert a == r + post;
    FilterAppend(r, post, IsAlnum);
    assert forall k :: 0 <= k < |post| ==> post[k] == a[|r| + k];
    UnderscoresHaveNoAlnum(post);
  }

  lemma {:induction false} LowerKeepsAlnum(s: string)
    ensures Filter(Lower(s), IsAlnum) == Lower(Filter(s, IsAlnum))
    decreases |s|
  {
    if |s| > 0 {
      LowerKeepsAlnum(s[1..]);
      assert Lower(s)[1..] == Lower(s[1..]);
      var f := Filter(s[1..], IsAlnum);
      if IsAlnum(s[0]) {
        assert Lower([s[0]] + f) == [LowerChar(s[0])] + Lower(f);
      }
    }
  }

  /** The letters and digits of a name survive normalisation in order, only
      lower-cased: it removes and merges separators and nothing else. */
  lemma NormalizeKeepsAlnum(s: string)
    ensures Filter(NormalizeColumnName(s), IsAlnum) == Lower(Filter(s, IsAlnum))
  {
    var collapsed := CollapseNonWord(s, false);
    var spaced := ReplaceSpaces(collapsed);
    var stripped := StripUnderscores(spaced);
    CollapseKeepsAlnum(s, false);
    ReplaceSpacesKeepsAlnum(collapsed);
    StripKeepsAlnum(spaced);
    LowerKeepsAlnum(stripped);
  }

  // ---------------------------------------------------------------------------
  // Words separated by non-word runs
  // ---------------------------------------------------------------------------

  /** A non-empty run of characters that are not word characters. */
  predicate IsSeparator(s: string) {
    |s| > 0 && forall k :: 0 <= k < |s| ==> !IsWordChar(s[k])
  }

  /** A non-empty run of word characters. */
  predicate IsWord(s: string) {
    |s| > 0 && AllWordChars(s)
  }

  /** Words `ws` with the separator `seps[k]` between `ws[k]` and `ws[k + 1]`. */
  function Weave(ws: seq<string>, seps: seq<string>): string
    requires |ws| == |seps| + 1
    decreases |seps|
  {
    if |seps| == 0 then ws[0] else ws[0] + seps[0] + Weave(ws[1..], seps[1..])
  }

  lemma {:induction false} CollapseWordPrefix(w: string, rest: string, inRun: bool)
    requires IsWord(w)
    ensures CollapseNonWord(w + rest, inRun) == w + CollapseNonWord(rest, false)
    decreases |w|
  {
    assert (w + rest)[1..] == w[1..] + rest;
    if |w| > 1 {
      CollapseWordPrefix(w[1..], rest, false);
      assert [w[0]] + (w[1..] + CollapseNonWord(rest, false)) == w + CollapseNonWord(rest, false);
    } else {
      assert [w[0]] == w;
    }
  }

  lemma {:induction false} CollapseSeparatorPrefix(sep: string, rest: string, inRun: bool)
    requires IsSeparator(sep)
    ensures CollapseNonWord(sep + rest, inRun) == (if inRun then "" else "_") + CollapseNonWord(rest, true)
    decreases |sep|
  {
    assert (sep + rest)[1..] == sep[1..] + rest;
    if |sep| > 1 {
      assert IsSeparator(sep[1..]) by {
        assert forall k :: 0 <= k < |sep| - 1 ==> sep[1..][k] == sep[k + 1];
      }
      CollapseSeparatorPrefix(sep[1..], rest, true);
    }
  }

  /** Each separator between two words becomes exactly one `_`: the woven words
      come out joined by `_`, and what follows is collapsed afresh. */
  lemma {:induction false} CollapseWoven(ws: seq<string>, seps: seq<string>, rest: string, inRun: bool)
    requires |ws| == |seps| + 1
    requires forall k :: 0 <= k < |ws| ==> IsWord(ws[k])
    requires forall k :: 0 <= k < |seps| ==> IsSeparator(seps[k])
    ensures CollapseNonWord(Weave(ws, seps) + rest, inRun) == Join(ws, "_") + CollapseNonWord(rest, false)
    decreases |seps|
  {
    if |seps| == 0 {
      CollapseWordPrefix(ws[0], rest, inRun);
    } else {
      var tail := Weave(ws[1..], seps[1..]);
      var after := CollapseNonWord(rest, false);
      assert Weave(ws, seps) + rest == ws[0] + (seps[0] + (tail + rest));
      CollapseWordPrefix(ws[0], seps[0] + (tail + rest), inRun);
      CollapseSeparatorPrefix(seps[0], tail + rest, false);
      CollapseWoven(ws[1..], seps[1..], rest, true);
      var j := Join(ws[1..], "_");
      assert CollapseNonWord(Weave(ws, seps) + rest, inRun) == ws[0] + ("_" + (j + after));
      assert Join(ws, "_") == ws[0] + "_" + j;
      Regroup(ws[0], "_", j, after);
    }
  }

  lemma Regroup(a: string, b: string, c: string, d: string)
    ensures a + (b + (c + d)) == a + b + c + d
  {
  }

  lemma LowerAppend(a: string, b: string)
    ensures Lower(a + b) == Lower(a) + Lower(b)
  {
    var l := Lower(a + b);
    var m := Lower(a) + Lower(b);
    forall k | 0 <= k < |a + b| ensures l[k] == m[k] {
      if k < |a| {
        assert (a + b)[k] == a[k];
      } else {
        assert (a + b)[k] == b[k - |a|];
      }
    }
    assert |l| == |m|;
  }

  lemma {:induction false} LowerJoin(ws: seq<string>)
    ensures Lower(Join(ws, "_")) == Join(Map(ws, Lower), "_")
    decreases |ws|
  {
    var lw := Map(ws, Lower);
    if |ws| == 1 {
      assert Join(lw, "_") == lw[0];
    } else if |ws| > 1 {
      var rest := Join(ws[1..], "_");
      LowerJoin(ws[1..]);
      assert Join(ws, "_") == (ws[0] + "_") + rest;
      LowerAppend(ws[0] + "_", rest);
      LowerAppend(ws[0], "_");
      assert Lower("_") == "_";
      assert lw[1..] == Map(ws[1..], Lower);
      assert Join(lw, "_") == lw[0] + "_" + Join(lw[1..], "_");
    }
  }

  /** Joining non-empty words gives a text that starts with the first word's
      first character and ends with the last word's last character. */
  lemma {:induction false} JoinEnds(ws: seq<string>)
    requires |ws| > 0
    requires forall k :: 0 <= k < |ws| ==> |ws[k]| > 0
    ensures |Join(ws, "_")| > 0
    ensures Join(ws, "_")[0] == ws[0][0]
    ensures Join(ws, "_")[|Join(ws, "_")| - 1] == ws[|ws| - 1][|ws[|ws| - 1]| - 1]
    decreases |ws|
  {
    if |ws| > 1 {
      JoinEnds(ws[1..]);
    }
  }

  lemma StripStartPadded(u: string, t: string)
    requires u == "" || u == "_"
    requires |t| > 0 && t[0] != '_'
    ensures StripUnderscoresStart(u + t) == t
  {
    if u == "_" {
      assert (u + t)[1..] == t;
    } else {
      assert u + t == t;
    }
  }

  lemma StripEndPadded(t: string, v: string)
    requires v == "" || v == "_"
    requires |t| > 0 && t[|t| - 1] != '_'
    ensures StripUnderscoresEnd(t + v) == t
  {
    if v == "_" {
      assert (t + v)[..|t + v| - 1] == t;
    } else {
      assert t + v == t;
    }
  }

  lemma StripPadded(u: string, j: string, v: string)
    requires u == "" || u == "_"
    requires v == "" || v == "_"
    requires |j| > 0 && j[0] != '_' && j[|j| - 1] != '_'
    ensures StripUnderscores(u + j + v) == j
  {
    assert u + j + v == u + (j + v);
    StripStartPadded(u, j + v);
    StripEndPadded(j, v);
  }

  lemma ReplaceSpacesWordChars(s: string)
    requires AllWordChars(s)
    ensures ReplaceSpaces(s) == s
  {
  }

  /** Woven words with an optional separator at either end collapse to the words
      joined by `_`, with one `_` for each end separator. */
  lemma CollapsePadded(pre: string, ws: seq<string>, seps: seq<string>, post: string)
    requires pre == "" || IsSeparator(pre)
    requires post == "" || IsSeparator(post)
    requires |ws| == |seps| + 1
    requires forall k :: 0 <= k < |ws| ==> IsWord(ws[k])
    requires forall k :: 0 <= k < |seps| ==> IsSeparator(seps[k])
    ensures CollapseNonWord(pre + Weave(ws, seps) + post, false)
         == (if pre == "" then "" else "_") + Join(ws, "_") + (if post == "" then "" else "_")
  {
    var w := Weave(ws, seps);
    var j := Join(ws, "_");
    var v := if post == "" then "" else "_";
    CollapseWoven(ws, seps, post, pre != "");
    assert CollapseNonWord(post, false) == v by {
      if post != "" {
        CollapseSeparatorPrefix(post, "", false);
        assert post + "" == post;
      }
    }
    ConcatAssoc(pre, w, post);
    if pre != "" {
      CollapseSeparatorPrefix(pre, w + post, false);
      ConcatAssoc("_", j, v);
    } else {
      assert pre + (w + post) == w + post;
      assert "" + j + v == j + v;
    }
  }

  /** A non-empty run of letters and digits. */
  predicate IsAlnumWord(w: string) {
    |w| > 0 && forall i :: 0 <= i < |w| ==> IsAlnum(w[i])
  }

  /** A name made of letter-and-digit words separated by runs of other
      characters, with an optional run at either end, normalises to its
      lower-cased words joined by single `_`. */
  lemma NormalizeWords(pre: string, ws: seq<string>, seps: seq<string>, post: string)
    requires pre == "" || IsSeparator(pre)
    requires post == "" || IsSeparator(post)
    requires |ws| == |seps| + 1
    requires forall k :: 0 <= k < |ws| ==> IsAlnumWord(ws[k])
    requires forall k :: 0 <= k < |seps| ==> IsSeparator(seps[k])
    ensures NormalizeColumnName(pre + Weave(ws, seps) + post) == Join(Map(ws, Lower), "_")
  {
    var j := Join(ws, "_");
    var u := if pre == "" then "" else "_";
    var v := if post == "" then "" else "_";
    forall k | 0 <= k < |ws| ensures IsWord(ws[k]) {
      assert IsAlnumWord(ws[k]);
    }
    CollapsePadded(pre, ws, seps, post);
    var collapsed := CollapseNonWord(pre + Weave(ws, seps) + post, false);
    ReplaceSpacesWordChars(collapsed);
    JoinEnds(ws);
    assert IsAlnumWord(ws[0]) && IsAlnumWord(ws[|ws| - 1]);
    StripPadded(u, j, v);
    LowerJoin(ws);
  }
}
