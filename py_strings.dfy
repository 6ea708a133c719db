/** Python's `str` operations used by file_ops.py and mod.py: the `in`
    operator, `find`, `replace` (all occurrences, and with a count of 1),
    `split` on one character, and `strip` of one character. */
module PyStrings {
  import opened Options

  /** `p` occurs in `s` starting at index `i`. */
  predicate OccursAt(s: string, p: string, i: int) {
    0 <= i && i + |p| <= |s| && s[i..i + |p|] == p
  }

  /** Python's `p in s`. */
  predicate Contains(s: string, p: string) {
    exists i | 0 <= i <= |s| :: OccursAt(s, p, i)
  }

  /** `c` does not appear in `s`. */
  predicate Lacks(s: string, c: char) {
    forall k :: 0 <= k < |s| ==> s[k] != c
  }

  // ---------------------------------------------------------------------
  // Small facts about occurrences

  lemma OccursInSuffix(s: string, p: string, k: nat, i: int)
    requires k <= |s| && OccursAt(s[k..], p, i)
    ensures OccursAt(s, p, i + k)
  {
    assert s[i + k..i + k + |p|] == s[k..][i..i + |p|];
  }

  /** `s.startswith(p)`. */
  predicate StartsWith(s: string, p: string) {
    |p| <= |s| && s[..|p|] == p
  }

  lemma StartsWithAt(s: string, p: string)
    ensures StartsWith(s, p) <==> OccursAt(s, p, 0)
  {
  }

  lemma OccursInSuffixBack(s: string, p: string, k: nat, i: int)
    requires k <= i && OccursAt(s, p, i)
    ensures OccursAt(s[k..], p, i - k)
  {
    assert s[k..][i - k..i - k + |p|] == s[i..i + |p|];
  }

  lemma ConsSlice(s: string, e: nat, rest: string)
    requires 1 <= e <= |s|
    ensures [s[0]] + (s[1..][..e - 1] + rest) == s[..e] + rest
  {
    assert [s[0]] + s[1..][..e - 1] == s[..e];
  }

  /** A start of `[c] + y` is `c` and then a start of `y`. */
  lemma UnconsPrefix(x: string, c: char, y: string, w: string)
    requires x == [c] + y && w != [] && |w| <= |x| && x[..|w|] == w
    ensures w[0] == c && |w| - 1 <= |y| && y[..|w| - 1] == w[1..]
  {
    assert x[0] == c;
    assert y[..|w| - 1] == x[..|w|][1..];
  }

  lemma ConsPrefix(x: string, c: char, y: string, w: string)
    requires x == [c] + y && w != [] && w[0] == c && |w| - 1 <= |y| && y[..|w| - 1] == w[1..]
    ensures |w| <= |x| && x[..|w|] == w
  {
    assert x[..|w|] == [c] + y[..|w| - 1];
  }

  /** The text up to `i`, then a piece of the rest that starts at `i`. */
  lemma SplitAt(s: string, i: nat, n: nat, e: nat, mid: string, whole: string, tail: string, rest: string)
    requires e == i + n && e <= |s|
    requires whole == s[..i] + tail && tail == s[i..][..n] + mid + rest
    ensures whole == s[..e] + mid + rest
  {
    assert s[..i] + s[i..][..n] == s[..e];
  }

  lemma OccursInBoth(a: string, b: string, p: string, i: int)
    requires OccursAt(b, p, i)
    ensures OccursAt(a + b, p, i + |a|)
  {
    assert (a + b)[i + |a|..i + |a| + |p|] == b[i..i + |p|];
  }

  lemma OccursInPrefix(a: string, b: string, p: string, i: int)
    requires OccursAt(a, p, i)
    ensures OccursAt(a + b, p, i)
  {
    assert (a + b)[i..i + |p|] == a[i..i + |p|];
  }

  lemma OccursAfterPrefix(a: string, b: string, p: string, i: int)
    requires OccursAt(a + b, p, i) && i >= |a|
    ensures OccursAt(b, p, i - |a|)
  {
    assert (a + b)[i..i + |p|] == b[i - |a|..i - |a| + |p|];
  }

  lemma OccursBeforeEnd(a: string, b: string, p: string, i: int)
    requires OccursAt(a + b, p, i) && i + |p| <= |a|
    ensures OccursAt(a, p, i)
  {
    assert (a + b)[i..i + |p|] == a[i..i + |p|];
  }

  /** A character of an occurrence is the corresponding character of the
      pattern. */
  lemma OccursChar(s: string, p: string, i: int, m: int)
    requires OccursAt(s, p, i) && i <= m < i + |p|
    ensures s[m] == p[m - i]
  {
    assert s[i..i + |p|][m - i] == s[m];
  }

  /** An occurrence of a text that lacks `c` does not span a `c`. */
  lemma OccursAroundChar(s: string, p: string, i: int, m: int, c: char)
    requires OccursAt(s, p, i) && Lacks(p, c) && 0 <= m < |s| && s[m] == c
    ensures m < i || i + |p| <= m
  {
    if i <= m < i + |p| {
      OccursChar(s, p, i, m);
      assert false;
    }
  }

  lemma LacksConcat(a: string, b: string, c: char)
    requires Lacks(a, c) && Lacks(b, c)
    ensures Lacks(a + b, c)
  {
  }

  lemma ContainsSelf(p: string)
    ensures Contains(p, p)
  {
    assert OccursAt(p, p, 0);
  }

  /** What a slice contains, the whole text contains. */
  lemma ContainsSlices(s: string, p: string, k: nat)
    requires k <= |s|
    ensures Contains(s[..k], p) ==> Contains(s, p)
    ensures Contains(s[k..], p) ==> Contains(s, p)
  {
    if Contains(s[..k], p) {
      var i :| 0 <= i <= k && OccursAt(s[..k], p, i);
      assert s[..k] + s[k..] == s;
      OccursInPrefix(s[..k], s[k..], p, i);
    }
    if Contains(s[k..], p) {
      var i :| 0 <= i <= |s| - k && OccursAt(s[k..], p, i);
      OccursInSuffix(s, p, k, i);
    }
  }

  /** `p` is not in `a + mid + b` when it is in none of the three and holds
      neither the first nor the last character of `mid`. */
  lemma NotAcross(a: string, mid: string, b: string, p: string)
    requires mid != [] && Lacks(p, mid[0]) && Lacks(p, mid[|mid| - 1])
    requires !Contains(a, p) && !Contains(mid, p) && !Contains(b, p)
    ensures !Contains(a + mid + b, p)
  {
    var r := a + mid + b;
    var m := |a| + |mid|;
    assert r == a + (mid + b);
    if i :| 0 <= i <= |r| && OccursAt(r, p, i) {
      if i + |p| <= |a| {
        OccursBeforeEnd(a, mid + b, p, i);
        assert false;
      } else if i <= |a| {
        OccursChar(r, p, i, |a|);
        assert false;
      } else if i + |p| <= m {
        OccursAfterPrefix(a, mid + b, p, i);
        OccursBeforeEnd(mid, b, p, i - |a|);
        assert false;
      } else if i < m {
        OccursChar(r, p, i, m - 1);
        assert false;
      } else {
        assert r == (a + mid) + b;
        OccursAfterPrefix(a + mid, b, p, i);
        assert false;
      }
    }
  }

  /** An occurrence of `p` inside an occurrence of `t` is an occurrence in
      the enclosing string: `in` is transitive. */
  lemma ContainsTransitive(s: string, t: string, p: string)
    requires Contains(s, t) && Contains(t, p)
    ensures Contains(s, p)
  {
    var i :| 0 <= i <= |s| && OccursAt(s, t, i);
    var j :| 0 <= j <= |t| && OccursAt(t, p, j);
    forall k | 0 <= k < |p| ensures s[i + j + k] == p[k] {
      OccursChar(s, t, i, i + j + k);
      OccursChar(t, p, j, j + k);
    }
    assert s[i + j..i + j + |p|] == p;
    assert OccursAt(s, p, i + j);
  }

  lemma ContainsInfix(a: string, b: string, c: string, p: string)
    requires Contains(b, p)
    ensures Contains(a + b + c, p)
  {
    var i :| 0 <= i <= |b| && OccursAt(b, p, i);
    OccursInBoth(a, b, p, i);
    OccursInPrefix(a + b, c, p, i + |a|);
  }

  // ---------------------------------------------------------------------
  // str.find

  /** Python's `s.find(p)`: the least index at which `p` occurs, `None` for -1. */
  function Find(s: string, p: string): (r: Option<nat>)
    ensures r.Some? ==> OccursAt(s, p, r.value)
    ensures r.Some? ==> forall j :: 0 <= j < r.value ==> !OccursAt(s, p, j)
    ensures r.None? <==> !Contains(s, p)
  {
    FindFrom(s, p, 0)
  }

  function FindFrom(s: string, p: string, k: nat): (r: Option<nat>)
    requires k <= |s|
    ensures r.Some? ==> k <= r.value && OccursAt(s, p, r.value)
    ensures r.Some? ==> forall j :: k <= j < r.value ==> !OccursAt(s, p, j)
    ensures r.None? ==> forall j :: k <= j ==> !OccursAt(s, p, j)
    decreases |s| - k
  {
    if k + |p| > |s| then None
    else if s[k..k + |p|] == p then Some(k)
    else FindFrom(s, p, k + 1)
  }

  // ---------------------------------------------------------------------
  // str.replace

  /** Python's `s.replace("", rep)`: `rep` before every character and at the end. */
  function Interleave(s: string, rep: string): string {
    if s == [] then rep else rep + [s[0]] + Interleave(s[1..], rep)
  }

  /** Python's `s.replace(pat, rep)`: every occurrence, scanning left to
      right without overlaps. */
  function ReplaceAll(s: string, pat: string, rep: string): string
    decreases |s|
  {
    if pat == [] then Interleave(s, rep)
    else if OccursAt(s, pat, 0) then rep + ReplaceAll(s[|pat|..], pat, rep)
    else if s == [] then []
    else [s[0]] + ReplaceAll(s[1..], pat, rep)
  }

  /** Python's `s.replace(pat, rep, 1)`: the first occurrence only. */
  function ReplaceFirst(s: string, pat: string, rep: string): string {
    match Find(s, pat)
    case None => s
    case Some(i) => s[..i] + rep + s[i + |pat|..]
  }

  /** With a count of 1, the text before the first occurrence and after it
      is kept, and the occurrence becomes `rep`. */
  lemma ReplaceFirstAt(s: string, pat: string, rep: string, i: nat)
    requires OccursAt(s, pat, i)
    requires forall j :: 0 <= j < i ==> !OccursAt(s, pat, j)
    ensures ReplaceFirst(s, pat, rep) == s[..i] + rep + s[i + |pat|..]
  {
    var r := Find(s, pat);
    assert r.Some? && r.value == i;
  }

  /** Replacing the first `pat` by `pat + x` puts `x` right after it. */
  lemma ReplaceFirstAfter(s: string, pat: string, x: string, i: nat)
    requires OccursAt(s, pat, i)
    requires forall j :: 0 <= j < i ==> !OccursAt(s, pat, j)
    ensures ReplaceFirst(s, pat, pat + x) == s[..i + |pat|] + x + s[i + |pat|..]
  {
    ReplaceFirstAt(s, pat, pat + x, i);
    assert s[..i + |pat|] == s[..i] + pat by {
      assert s[i..i + |pat|] == pat;
    }
  }

  /** Without an occurrence, `replace` with a count of 1 changes nothing. */
  lemma ReplaceFirstAbsent(s: string, pat: string, rep: string)
    requires !Contains(s, pat)
    ensures ReplaceFirst(s, pat, rep) == s
  {
  }

  /** A replacement that happens leaves whatever `rep` contains. */
  lemma ReplaceFirstIntroduces(s: string, pat: string, rep: string, q: string)
    requires Contains(s, pat) && Contains(rep, q)
    ensures Contains(ReplaceFirst(s, pat, rep), q)
  {
    var i := Find(s, pat).value;
    ContainsInfix(s[..i], rep, s[i + |pat|..], q);
  }

  lemma {:induction false} InterleaveNothing(s: string)
    ensures Interleave(s, []) == s
  {
    if s != [] {
      InterleaveNothing(s[1..]);
      assert [s[0]] + s[1..] == s;
    }
  }

  /** Replacing a pattern by itself is the identity. */
  lemma {:induction false} ReplaceAllSelf(s: string, p: string)
    ensures ReplaceAll(s, p, p) == s
    decreases |s|
  {
    if p == [] {
      InterleaveNothing(s);
    } else if OccursAt(s, p, 0) {
      ReplaceAllSelf(s[|p|..], p);
      assert s[..|p|] + s[|p|..] == s;
    } else if s != [] {
      ReplaceAllSelf(s[1..], p);
      assert [s[0]] + s[1..] == s;
    }
  }

  /** A string without the pattern is left unchanged. */
  lemma {:induction false} ReplaceAllAbsent(s: string, pat: string, rep: string)
    requires pat != [] && !Contains(s, pat)
    ensures ReplaceAll(s, pat, rep) == s
    decreases |s|
  {
    assert !OccursAt(s, pat, 0);
    if s != [] {
      forall i | OccursAt(s[1..], pat, i) ensures false {
        OccursInSuffix(s, pat, 1, i);
      }
      ReplaceAllAbsent(s[1..], pat, rep);
      assert [s[0]] + s[1..] == s;
    }
  }

  /** If the pattern occurs, the result holds the replacement. */
  lemma {:induction false} ReplaceAllIntroduces(s: string, pat: string, rep: string)
    requires pat != [] && Contains(s, pat)
    ensures Contains(ReplaceAll(s, pat, rep), rep)
    decreases |s|
  {
    if OccursAt(s, pat, 0) {
      var rest := ReplaceAll(s[|pat|..], pat, rep);
      assert OccursAt(rep + rest, rep, 0);
    } else {
      var i :| 0 <= i <= |s| && OccursAt(s, pat, i);
      assert i > 0;
      assert s[1..][i - 1..i - 1 + |pat|] == s[i..i + |pat|];
      assert OccursAt(s[1..], pat, i - 1);
      ReplaceAllIntroduces(s[1..], pat, rep);
      var rest := ReplaceAll(s[1..], pat, rep);
      var j :| 0 <= j <= |rest| && OccursAt(rest, rep, j);
      OccursInBoth([s[0]], rest, rep, j);
    }
  }

  // ---------------------------------------------------------------------
  // When `replace` keeps an occurrence, and when it cannot create one

  /** `p` starts with '<' and ends with '>'. */
  predicate Bracketed(p: string) {
    |p| >= 1 && p[0] == '<' && p[|p| - 1] == '>'
  }

  /** `q` is one tag: '<' only first and '>' only last. */
  predicate SingleTag(q: string) {
    && Bracketed(q)
    && (forall k :: 0 < k < |q| ==> q[k] != '<')
    && (forall k :: 0 <= k < |q| - 1 ==> q[k] != '>')
  }

  /** Two single tags that occur at the same place are the same tag. */
  lemma SameTagAt(x: string, a: string, b: string, i: int)
    requires SingleTag(a) && SingleTag(b) && OccursAt(x, a, i) && OccursAt(x, b, i)
    ensures a == b
  {
    if |a| < |b| {
      OccursChar(x, a, i, i + |a| - 1);
      OccursChar(x, b, i, i + |a| - 1);
      assert false;
    } else if |b| < |a| {
      OccursChar(x, a, i, i + |b| - 1);
      OccursChar(x, b, i, i + |b| - 1);
      assert false;
    }
  }

  /** `q` holds neither '<' nor '>', and a character `c` that `pat` lacks:
      then no occurrence of `q` can overlap an occurrence of a bracketed
      `pat`. */
  predicate Apart(q: string, pat: string, c: char) {
    Bracketed(pat) && Lacks(q, '<') && Lacks(q, '>') && Lacks(pat, c) && !Lacks(q, c)
  }

  lemma CannotOverlap(s: string, pat: string, q: string, c: char, a: int, i: int)
    requires Apart(q, pat, c) && OccursAt(s, pat, a) && OccursAt(s, q, i)
    ensures a + |pat| <= i || i + |q| <= a
  {
    if i <= a < i + |q| {
      OccursChar(s, pat, a, a);
      OccursChar(s, q, i, a);
    } else if a < i < a + |pat| {
      if i + |q| >= a + |pat| {
        OccursChar(s, pat, a, a + |pat| - 1);
        OccursChar(s, q, i, a + |pat| - 1);
      } else {
        var t :| 0 <= t < |q| && q[t] == c;
        OccursChar(s, q, i, i + t);
        OccursChar(s, pat, a, i + t);
      }
    }
  }

  /** `replace` keeps a text that starts with `w` when no occurrence of the
      pattern begins inside `w`. */
  lemma {:induction false} ReplaceAllKeepsPrefix(t: string, pat: string, rep: string, w: string)
    requires pat != [] && |w| <= |t| && t[..|w|] == w
    requires forall j :: 0 <= j < |w| ==> !OccursAt(t, pat, j)
    ensures |w| <= |ReplaceAll(t, pat, rep)| && ReplaceAll(t, pat, rep)[..|w|] == w
    decreases |t|
  {
    if w != [] {
      assert !OccursAt(t, pat, 0);
      forall j | 0 <= j < |w| - 1 ensures !OccursAt(t[1..], pat, j) {
        if OccursAt(t[1..], pat, j) {
          OccursInSuffix(t, pat, 1, j);
        }
      }
      ReplaceAllKeepsPrefix(t[1..], pat, rep, w[1..]);
    }
  }

  /** An occurrence of `q` that no occurrence of the pattern can overlap
      survives `replace`. */
  lemma {:induction false} ReplaceAllKeeps(s: string, pat: string, rep: string, q: string, c: char)
    requires Apart(q, pat, c) && Contains(s, q)
    ensures Contains(ReplaceAll(s, pat, rep), q)
    decreases |s|
  {
    var i :| 0 <= i <= |s| && OccursAt(s, q, i);
    if OccursAt(s, pat, 0) {
      CannotOverlap(s, pat, q, c, 0, i);
      assert s[|pat|..][i - |pat|..i - |pat| + |q|] == s[i..i + |q|];
      assert OccursAt(s[|pat|..], q, i - |pat|);
      ReplaceAllKeeps(s[|pat|..], pat, rep, q, c);
      var rest := ReplaceAll(s[|pat|..], pat, rep);
      var j :| 0 <= j <= |rest| && OccursAt(rest, q, j);
      OccursInBoth(rep, rest, q, j);
    } else if i == 0 {
      forall j | 0 <= j < |q| ensures !OccursAt(s, pat, j) {
        if OccursAt(s, pat, j) {
          CannotOverlap(s, pat, q, c, j, 0);
        }
      }
      ReplaceAllKeepsPrefix(s, pat, rep, q);
      assert OccursAt(ReplaceAll(s, pat, rep), q, 0);
    } else {
      assert s[1..][i - 1..i - 1 + |q|] == s[i..i + |q|];
      assert OccursAt(s[1..], q, i - 1);
      ReplaceAllKeeps(s[1..], pat, rep, q, c);
      var rest := ReplaceAll(s[1..], pat, rep);
      var j :| 0 <= j <= |rest| && OccursAt(rest, q, j);
      OccursInBoth([s[0]], rest, q, j);
    }
  }

  /** A prefix without '<' of a `replace` result, whose replacement starts
      with '<', was already a prefix of the input. */
  lemma {:induction false} ReplaceAllPrefixBack(t: string, pat: string, rep: string, w: string)
    requires pat != [] && |rep| >= 1 && rep[0] == '<' && Lacks(w, '<')
    requires |w| <= |ReplaceAll(t, pat, rep)| && ReplaceAll(t, pat, rep)[..|w|] == w
    ensures |w| <= |t| && t[..|w|] == w
    decreases |t|
  {
    if w != [] {
      var r := ReplaceAll(t, pat, rep);
      assert r[0] == w[0] by {
        assert r[..|w|][0] == r[0];
      }
      assert w[0] != '<';
      if OccursAt(t, pat, 0) {
        ReplaceAllLeads(t, pat, rep);
        assert false;
      }
      assert t != [];
      var rest := ReplaceAll(t[1..], pat, rep);
      assert r == [t[0]] + rest;
      UnconsPrefix(r, t[0], rest, w);
      ReplaceAllPrefixBack(t[1..], pat, rep, w[1..]);
      assert t == [t[0]] + t[1..];
      ConsPrefix(t, t[0], t[1..], w);
    }
  }

  /** A `replace` result that starts at a match starts with the replacement. */
  lemma ReplaceAllLeads(t: string, pat: string, rep: string)
    requires pat != [] && rep != [] && OccursAt(t, pat, 0)
    ensures ReplaceAll(t, pat, rep)[0] == rep[0]
  {
    assert ReplaceAll(t, pat, rep) == rep + ReplaceAll(t[|pat|..], pat, rep);
  }

  /** `replace` creates no occurrence of a single tag `q` when its
      replacement is bracketed and does not contain `q`. */
  lemma {:induction false} ReplaceAllCreatesNo(s: string, pat: string, rep: string, q: string)
    requires pat != [] && Bracketed(rep) && SingleTag(q) && !Contains(rep, q)
    ensures Contains(ReplaceAll(s, pat, rep), q) ==> Contains(s, q)
    decreases |s|, 1
  {
    var r := ReplaceAll(s, pat, rep);
    if i :| 0 <= i <= |r| && OccursAt(r, q, i) {
      if OccursAt(s, pat, 0) {
        CreatesNoAtMatch(s, pat, rep, q, i);
      } else if s == [] {
        assert false;
      } else {
        CreatesNoAtSkip(s, pat, rep, q, i);
      }
    }
  }

  /** The case of `ReplaceAllCreatesNo` where `s` starts with `pat`. */
  lemma {:induction false} CreatesNoAtMatch(s: string, pat: string, rep: string, q: string, i: int)
    requires pat != [] && Bracketed(rep) && SingleTag(q) && !Contains(rep, q)
    requires OccursAt(s, pat, 0) && OccursAt(ReplaceAll(s, pat, rep), q, i)
    ensures Contains(s, q)
    decreases |s|, 0
  {
    var r := ReplaceAll(s, pat, rep);
    var rest := ReplaceAll(s[|pat|..], pat, rep);
    assert r == rep + rest;
    if i + |q| <= |rep| {
      OccursBeforeEnd(rep, rest, q, i);
      assert false;
    } else if i < |rep| {
      OccursChar(r, q, i, |rep| - 1);
      assert false;
    } else {
      OccursAfterPrefix(rep, rest, q, i);
      ReplaceAllCreatesNo(s[|pat|..], pat, rep, q);
      ContainsSlices(s, q, |pat|);
    }
  }

  /** The case of `ReplaceAllCreatesNo` where the first character is kept. */
  lemma {:induction false} CreatesNoAtSkip(s: string, pat: string, rep: string, q: string, i: int)
    requires pat != [] && Bracketed(rep) && SingleTag(q) && !Contains(rep, q)
    requires s != [] && !OccursAt(s, pat, 0) && OccursAt(ReplaceAll(s, pat, rep), q, i)
    ensures Contains(s, q)
    decreases |s|, 0
  {
    var r := ReplaceAll(s, pat, rep);
    var rest := ReplaceAll(s[1..], pat, rep);
    assert r == [s[0]] + rest;
    if i == 0 {
      var w := q[1..];
      assert rest[..|w|] == r[1..|q|];
      assert r[1..|q|] == w;
      ReplaceAllPrefixBack(s[1..], pat, rep, w);
      assert s[..|q|] == [s[0]] + s[1..][..|w|];
      assert OccursAt(s, q, 0);
    } else {
      OccursAfterPrefix([s[0]], rest, q, i);
      ReplaceAllCreatesNo(s[1..], pat, rep, q);
      ContainsSlices(s, q, 1);
    }
  }

  // ---------------------------------------------------------------------
  // str.split and str.strip on one character

  /** Python's `s.split(c)`: the fields between the occurrences of `c`. */
  function Split(s: string, c: char): (r: seq<string>)
    ensures |r| >= 1
    decreases |s|
  {
    if s == [] then [[]]
    else
      var rest := Split(s[1..], c);
      if s[0] == c then [[]] + rest else [[s[0]] + rest[0]] + rest[1..]
  }

  /** Python's `c.join(fields)`. */
  function Join(fields: seq<string>, c: char): string
    requires |fields| >= 1
  {
    if |fields| == 1 then fields[0] else fields[0] + [c] + Join(fields[1..], c)
  }

  /** Joining the fields of a split gives back the string, and no field
      holds the separator. */
  lemma {:induction false} SplitJoin(s: string, c: char)
    ensures Join(Split(s, c), c) == s
    ensures forall k :: 0 <= k < |Split(s, c)| ==> Lacks(Split(s, c)[k], c)
    decreases |s|
  {
    if s != [] {
      SplitJoin(s[1..], c);
      var rest := Split(s[1..], c);
      if s[0] != c {
        var r := Split(s, c);
        assert r == [[s[0]] + rest[0]] + rest[1..];
        if |rest| == 1 {
          assert Join(r, c) == [s[0]] + rest[0];
        } else {
          assert r[1..] == rest[1..];
          assert Join(rest, c) == rest[0] + [c] + Join(rest[1..], c);
          assert Join(r, c) == [s[0]] + rest[0] + [c] + Join(rest[1..], c);
        }
        assert [s[0]] + s[1..] == s;
      } else {
        assert Split(s, c)[1..] == rest;
        assert [c] + s[1..] == s;
      }
    }
  }

  /** A string without the separator is a single field. */
  lemma {:induction false} SplitWithout(s: string, c: char)
    requires Lacks(s, c)
    ensures Split(s, c) == [s]
    decreases |s|
  {
    if s != [] {
      SplitWithout(s[1..], c);
      assert [s[0]] + s[1..] == s;
    }
  }

  /** Splitting at the first separator: the text before it is the first field. */
  lemma {:induction false} SplitAtFirst(a: string, b: string, c: char)
    requires Lacks(a, c)
    ensures Split(a + [c] + b, c) == [a] + Split(b, c)
    decreases |a|
  {
    if a == [] {
      assert a + [c] + b == [c] + b;
      assert ([c] + b)[1..] == b;
    } else {
      SplitAtFirst(a[1..], b, c);
      assert (a + [c] + b)[1..] == a[1..] + [c] + b;
      assert [a[0]] + a[1..] == a;
    }
  }

  function TrimStart(s: string, c: char): string {
    if s != [] && s[0] == c then TrimStart(s[1..], c) else s
  }

  function TrimEnd(s: string, c: char): string {
    if s != [] && s[|s| - 1] == c then TrimEnd(s[..|s| - 1], c) else s
  }

  /** Python's `s.strip(c)`: both ends, all copies of `c`. */
  function Strip(s: string, c: char): string {
    TrimEnd(TrimStart(s, c), c)
  }

  /** One copy of `c` on each side of a text without `c` is stripped off
      exactly. */
  lemma StripQuoted(x: string, c: char)
    requires Lacks(x, c)
    ensures Strip([c] + x + [c], c) == x
  {
    var y := [c] + x + [c];
    assert y[1..] == x + [c];
    assert TrimStart(y, c) == TrimStart(x + [c], c);
    if x == [] {
      assert TrimStart([c], c) == TrimStart([], c);
    } else {
      assert (x + [c])[0] == x[0];
      assert TrimStart(x + [c], c) == x + [c];
      assert (x + [c])[..|x|] == x;
      assert TrimEnd(x + [c], c) == TrimEnd(x, c);
      assert TrimEnd(x, c) == x;
    }
  }
}
