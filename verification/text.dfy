/** String primitives that the rewriting code relies on: Python's `in` on
    strings, `str.endswith`, `str.lower`, `str.replace`, `split('/')[-1]`
    and `rsplit('.', 1)[0]`. */
module Text {
  import opened Wrappers

  /** What the text transforms of the plugin return: the new text and whether
      the transform reports a change. */
  datatype Rewritten = Rewritten(text: string, changed: bool)

  /** `w` occurs in `s` starting at index `i`. */
  predicate At(s: string, i: nat, w: string)
  {
    i + |w| <= |s| && s[i..i + |w|] == w
  }

  /** Python's `w in s` for strings. */
  predicate Contains(s: string, w: string)
  {
    exists i: nat | i <= |s| :: At(s, i, w)
  }

  /** Python's `s.endswith(w)`. */
  predicate EndsWith(s: string, w: string)
  {
    |w| <= |s| && s[|s| - |w|..] == w
  }

  /** No `>` in `s[a..b]`: the extent of a `[^>]` run in a regex. */
  predicate NoGt(s: string, a: nat, b: nat)
  {
    a <= b <= |s| && forall k :: a <= k < b ==> s[k] != '>'
  }

  lemma ContainsAt(s: string, i: nat, w: string)
    requires At(s, i, w)
    ensures Contains(s, w)
  {
  }

  /** An occurrence inside an occurrence is an occurrence. */
  lemma ContainsTransitive(s: string, i: nat, w: string, v: string)
    requires At(s, i, w) && Contains(w, v)
    ensures Contains(s, v)
  {
    var j: nat :| j <= |w| && At(w, j, v);
    forall k | 0 <= k < |v|
      ensures s[i + j + k] == v[k]
    {
      assert w[j..j + |v|][k] == v[k];
      assert s[i..i + |w|][j + k] == w[j + k];
    }
    assert s[i + j..i + j + |v|] == v;
    ContainsAt(s, i + j, v);
  }

  lemma ContainsLeft(a: string, b: string, w: string)
    requires Contains(a, w)
    ensures Contains(a + b, w)
  {
    var j: nat :| j <= |a| && At(a, j, w);
    assert (a + b)[j..j + |w|] == a[j..j + |w|];
    ContainsAt(a + b, j, w);
  }

  lemma ContainsRight(a: string, b: string, w: string)
    requires Contains(b, w)
    ensures Contains(a + b, w)
  {
    var j: nat :| j <= |b| && At(b, j, w);
    assert (a + b)[|a| + j..|a| + j + |w|] == b[j..j + |w|];
    ContainsAt(a + b, |a| + j, w);
  }

  /** One differing character rules a suffix out. */
  lemma SuffixMismatch(s: string, w: string, k: nat)
    requires k < |w|
    ensures |w| <= |s| && s[|s| - |w| + k] != w[k] ==> !EndsWith(s, w)
  {
    if |w| <= |s| && EndsWith(s, w) {
      assert s[|s| - |w|..][k] == w[k];
    }
  }

  /** A suffix of `b` is a suffix of `a + b`. */
  lemma EndsWithAppend(a: string, b: string, w: string)
    requires EndsWith(b, w)
    ensures EndsWith(a + b, w)
  {
    assert (a + b)[|a + b| - |w|..] == b[|b| - |w|..];
  }

  /** A suffix of `s` occurs in `s`. */
  lemma EndsWithContains(s: string, w: string)
    requires EndsWith(s, w)
    ensures Contains(s, w)
  {
    ContainsAt(s, |s| - |w|, w);
  }

  /** Python's `str.lower()` restricted to ASCII letters.  For the ASCII
      extension tests of the archive pass this is exact: no non-ASCII
      character lowers to one of the letters and dots they look for in the
      position they look for it. */
  function LowerChar(c: char): (r: char)
  {
    if 'A' <= c <= 'Z' then (c as int + 32) as char else c
  }

  function Lower(s: string): (r: string)
  {
    seq(|s|, k requires 0 <= k < |s| => LowerChar(s[k]))
  }

  /** Python's `s.replace(pat, rep)`: every non-overlapping occurrence of
      `pat`, scanning from the left, is replaced by `rep`; an empty `pat`
      matches before every character and at the end. */
  function ReplaceAll(s: string, pat: string, rep: string): (r: string)
    decreases |s|
  {
    if |pat| == 0 then Interleave(s, rep)
    else if |s| < |pat| then s
    else if s[..|pat|] == pat then rep + ReplaceAll(s[|pat|..], pat, rep)
    else [s[0]] + ReplaceAll(s[1..], pat, rep)
  }

  /** `s.replace('', rep)`. */
  function Interleave(s: string, rep: string): string
  {
    if |s| == 0 then rep else rep + [s[0]] + Interleave(s[1..], rep)
  }

  /** The empty string occurs in every string. */
  lemma EmptyContained(s: string, w: string)
    ensures |w| == 0 ==> Contains(s, w)
  {
    if |w| == 0 {
      ContainsAt(s, 0, w);
    }
  }

  /** Without an occurrence of the pattern, `replace` is the identity. */
  lemma {:induction false} ReplaceAllAbsent(s: string, pat: string, rep: string)
    requires !Contains(s, pat)
    ensures ReplaceAll(s, pat, rep) == s
    decreases |s|
  {
    EmptyContained(s, pat);
    if |s| >= |pat| {
      if s[..|pat|] == pat {
        ContainsAt(s, 0, pat);
      } else {
        if Contains(s[1..], pat) {
          var j: nat :| j <= |s[1..]| && At(s[1..], j, pat);
          assert s[j + 1..j + 1 + |pat|] == s[1..][j..j + |pat|];
          ContainsAt(s, j + 1, pat);
        }
        ReplaceAllAbsent(s[1..], pat, rep);
      }
    }
  }

  /** With an occurrence of the pattern, the replacement text occurs in the
      result. */
  lemma {:induction false} ReplaceAllInserts(s: string, pat: string, rep: string)
    requires |pat| > 0 && Contains(s, pat)
    ensures Contains(ReplaceAll(s, pat, rep), rep)
    decreases |s|
  {
    var j: nat :| j <= |s| && At(s, j, pat);
    if s[..|pat|] == pat {
      assert At(rep, 0, rep);
      ContainsAt(rep, 0, rep);
      ContainsLeft(rep, ReplaceAll(s[|pat|..], pat, rep), rep);
    } else {
      assert j > 0;
      assert s[1..][j - 1..j - 1 + |pat|] == s[j..j + |pat|];
      ContainsAt(s[1..], j - 1, pat);
      ReplaceAllInserts(s[1..], pat, rep);
      ContainsRight([s[0]], ReplaceAll(s[1..], pat, rep), rep);
    }
  }

  /** The index of the first `c` at or after `from`. */
  function NextIndexOf(s: string, c: char, from: nat): (r: Option<nat>)
    ensures r.Some? ==> from <= r.value < |s| && s[r.value] == c
    ensures r.Some? ==> forall k :: from <= k < r.value ==> s[k] != c
    ensures r.None? ==> forall k :: from <= k < |s| ==> s[k] != c
    decreases |s| - from
  {
    if from >= |s| then None
    else if s[from] == c then Some(from)
    else NextIndexOf(s, c, from + 1)
  }

  /** The index of the last `c` in `s`. */
  function LastIndexOf(s: string, c: char): (r: Option<nat>)
    ensures r.Some? ==> r.value < |s| && s[r.value] == c
    ensures r.Some? ==> forall k :: r.value < k < |s| ==> s[k] != c
    ensures r.None? ==> forall k :: 0 <= k < |s| ==> s[k] != c
    decreases |s|
  {
    if |s| == 0 then None
    else if s[|s| - 1] == c then Some(|s| - 1)
    else LastIndexOf(s[..|s| - 1], c)
  }

  /** Python's `path.split('/')[-1]`: the text after the last slash. */
  function Basename(path: string): (r: string)
    ensures EndsWith(path, r)
    ensures forall k :: 0 <= k < |r| ==> r[k] != '/'
    ensures |r| == |path| || path[|path| - |r| - 1] == '/'
  {
    match LastIndexOf(path, '/')
    case Some(k) => path[k + 1..]
    case None => path
  }

  /** Python's `name.rsplit('.', 1)[0]`: the text before the last dot, or
      the whole name when it has no dot. */
  function Stem(name: string): (r: string)
    ensures r == name <==> '.' !in name
    ensures r == name || (r + "." <= name && forall k :: |r| < k < |name| ==> name[k] != '.')
  {
    match LastIndexOf(name, '.')
    case Some(k) => name[..k]
    case None => name
  }

  /** The stem of a name whose last dot is at `d` is the text before `d`. */
  lemma StemAtLastDot(name: string, d: nat)
    requires d < |name| && name[d] == '.'
    requires forall k :: d < k < |name| ==> name[k] != '.'
    ensures Stem(name) == name[..d]
  {
    assert LastIndexOf(name, '.') == Some(d);
  }
}
