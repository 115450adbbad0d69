/**
 * Literal substring replacement as Python's `str.replace` performs it:
 * scan left to right, replace the leftmost occurrence, resume after it.
 * The post-processing steps of `clean` and `html_to_xhtml` are folds of
 * this operation over fixed (pattern, replacement) pairs.
 */
module Text {

  /** `p` occurs in `s` starting at index `i`. */
  predicate OccursAt(s: string, p: string, i: int)
  {
    0 <= i && i + |p| <= |s| && s[i..i + |p|] == p
  }

  /** `p` occurs somewhere in `s`. */
  predicate Occurs(s: string, p: string)
  {
    exists i | 0 <= i <= |s| - |p| :: OccursAt(s, p, i)
  }

  /** Neither sequence is a prefix of the other: they differ at a common index. */
  predicate Disagree(a: string, b: string)
  {
    !(a <= b) && !(b <= a)
  }

  /** Two sequences that differ at a common index disagree. */
  lemma DisagreeAt(a: string, b: string, k: nat)
    requires k < |a| && k < |b| && a[k] != b[k]
    ensures Disagree(a, b)
  {
    assert !(a <= b) by {
      assert a[k] != b[k];
    }
  }

  /**
   * No occurrence of `p` can overlap a copy of `rep`, whatever surrounds it:
   * `p` cannot start inside `rep`, and `rep` cannot start inside `p`.
   */
  predicate NoOverlap(p: string, rep: string)
  {
    && (forall i :: 0 <= i < |rep| ==> Disagree(rep[i..], p))
    && (forall d :: 0 < d < |p| ==> Disagree(p[d..], rep))
  }

  /** `s.replace(pat, rep)` for a non-empty `pat`. */
  function ReplaceAll(s: string, pat: string, rep: string): string
    requires |pat| > 0
    decreases |s|
  {
    if |s| < |pat| then s
    else if s[..|pat|] == pat then rep + ReplaceAll(s[|pat|..], pat, rep)
    else [s[0]] + ReplaceAll(s[1..], pat, rep)
  }

  lemma OccursInSuffix(s: string, p: string, k: nat, i: int)
    requires k <= |s| && OccursAt(s[k..], p, i)
    ensures OccursAt(s, p, i + k)
  {
    assert s[k..][i..i + |p|] == s[i + k..i + k + |p|];
  }

  /**
   * Text before the first occurrence of `pat` is copied verbatim:
   * if `pat` does not start at any index below `m`, the result begins
   * with `s[..m]` and continues with the replacement of the rest.
   */
  lemma {:induction false} CopiedVerbatim(s: string, pat: string, rep: string, m: nat)
    requires |pat| > 0 && m <= |s|
    requires forall i :: 0 <= i < m ==> !OccursAt(s, pat, i)
    ensures ReplaceAll(s, pat, rep) == s[..m] + ReplaceAll(s[m..], pat, rep)
    decreases m
  {
    if m == 0 {
      assert s[..0] == [] && s[0..] == s;
    } else if |s| < |pat| {
      assert |s[m..]| < |pat|;
      assert s[..m] + s[m..] == s;
    } else {
      assert !OccursAt(s, pat, 0);
      forall i | 0 <= i < m - 1 ensures !OccursAt(s[1..], pat, i) {
        if OccursAt(s[1..], pat, i) {
          OccursInSuffix(s, pat, 1, i);
        }
      }
      CopiedVerbatim(s[1..], pat, rep, m - 1);
      assert s[1..][m - 1..] == s[m..];
      assert [s[0]] + s[1..][..m - 1] == s[..m];
    }
  }

  /** A string without `pat` is left unchanged. */
  lemma ReplaceAbsent(s: string, pat: string, rep: string)
    requires |pat| > 0 && !Occurs(s, pat)
    ensures ReplaceAll(s, pat, rep) == s
  {
    CopiedVerbatim(s, pat, rep, |s|);
    assert s[..|s|] == s && s[|s|..] == [];
  }

  /** Either `pat` does not start below `m`, or `k` is the first index where it does. */
  lemma FirstOccurrence(s: string, pat: string, m: nat) returns (k: nat)
    requires m <= |s|
    ensures k <= m
    ensures forall i :: 0 <= i < k ==> !OccursAt(s, pat, i)
    ensures k < m ==> OccursAt(s, pat, k)
  {
    k := 0;
    while k < m && !OccursAt(s, pat, k)
      invariant k <= m
      invariant forall i :: 0 <= i < k ==> !OccursAt(s, pat, i)
    {
      k := k + 1;
    }
  }

  /** A window of `rep + out` that starts inside `rep` is not `p`. */
  lemma WindowInRep(rep: string, out: string, p: string, i: int)
    requires NoOverlap(p, rep) && 0 <= i < |rep| && i + |p| <= |rep + out|
    ensures (rep + out)[i..i + |p|] != p
  {
    var win := (rep + out)[i..i + |p|];
    assert Disagree(rep[i..], p);
    if i + |p| <= |rep| {
      assert win == rep[i..][..|p|];
    } else {
      assert win[..|rep| - i] == rep[i..];
    }
  }

  /** A window at index `i >= |rep|` of `rep + out` is a window of `out`. */
  lemma WindowAfterRep(rep: string, out: string, p: string, i: int)
    requires OccursAt(rep + out, p, i) && i >= |rep|
    ensures OccursAt(out, p, i - |rep|)
  {
    assert out[i - |rep|..i - |rep| + |p|] == (rep + out)[i..i + |p|];
  }

  /** A window at index `i >= 1` of `[c] + out` is a window of `out`. */
  lemma WindowAfterChar(c: char, out: string, p: string, i: int)
    requires OccursAt([c] + out, p, i) && i >= 1
    ensures OccursAt(out, p, i - 1)
  {
    assert out[i - 1..i - 1 + |p|] == ([c] + out)[i..i + |p|];
  }

  /** A prefix of `pre + (rep + tail)` that reaches into `rep` is not `p`. */
  lemma PrefixMeetsRep(pre: string, rep: string, tail: string, p: string)
    requires NoOverlap(p, rep) && 0 < |pre| < |p|
    ensures !OccursAt(pre + (rep + tail), p, 0)
  {
    var d := |pre|;
    var w := pre + (rep + tail);
    assert Disagree(p[d..], rep);
    if |p| <= |w| {
      var win := w[..|p|];
      if |p| - d <= |rep| {
        assert win[d..] == rep[..|p| - d];
      } else {
        assert win[d..][..|rep|] == rep;
      }
    }
  }

  /**
   * When `t` does not start with `q`, the result does not start with `p`:
   * its first `|p|` characters either come verbatim from `t` or run into a
   * copy of `rep`, which `p` cannot overlap.
   */
  lemma HeadWindow(t: string, q: string, rep: string, p: string)
    requires |q| > 0 && |p| > 0 && NoOverlap(p, rep)
    requires |t| >= |q| && t[..|q|] != q
    requires p == q || !Occurs(t, p)
    ensures !OccursAt(ReplaceAll(t, q, rep), p, 0)
  {
    var u := t[1..];
    var out := ReplaceAll(t, q, rep);
    assert out == [t[0]] + ReplaceAll(u, q, rep);
    var m := if |p| - 1 <= |u| then |p| - 1 else |u|;
    var k := FirstOccurrence(u, q, m);
    CopiedVerbatim(u, q, rep, k);
    if k == m {
      HeadVerbatim(t, q, rep, p, m);
    } else {
      var tail := ReplaceAll(u[k..][|q|..], q, rep);
      assert u[k..][..|q|] == q;
      assert out == ([t[0]] + u[..k]) + (rep + tail);
      PrefixMeetsRep([t[0]] + u[..k], rep, tail, p);
    }
  }

  lemma HeadVerbatim(t: string, q: string, rep: string, p: string, m: nat)
    requires |q| > 0 && |p| > 0 && |t| >= |q| && t[..|q|] != q
    requires p == q || !Occurs(t, p)
    requires m == if |p| - 1 <= |t| - 1 then |p| - 1 else |t| - 1
    requires ReplaceAll(t[1..], q, rep) == t[1..][..m] + ReplaceAll(t[1..][m..], q, rep)
    ensures !OccursAt(ReplaceAll(t, q, rep), p, 0)
  {
    var u := t[1..];
    var out := ReplaceAll(t, q, rep);
    assert out == [t[0]] + ReplaceAll(u, q, rep);
    if m == |u| {
      assert u[m..] == [] && u[..m] == u;
      assert out == t;
    } else {
      assert out[..|p|] == [t[0]] + u[..|p| - 1];
      assert [t[0]] + u[..|p| - 1] == t[..|p|];
      assert !OccursAt(t, p, 0);
    }
  }

  /**
   * After replacing `q` by `rep`, the result contains no `p`, provided that
   * `p` cannot overlap `rep` and that `p` is either `q` itself or absent
   * from the input.
   */
  lemma {:induction false} NoneAfterReplace(t: string, q: string, rep: string, p: string)
    requires |q| > 0 && |p| > 0 && NoOverlap(p, rep)
    requires p == q || !Occurs(t, p)
    ensures !Occurs(ReplaceAll(t, q, rep), p)
    decreases |t|
  {
    var out := ReplaceAll(t, q, rep);
    if i :| 0 <= i <= |out| - |p| && OccursAt(out, p, i) {
      // When |t| < |q| the result is `t` itself, which the requires rule out.
      if |t| >= |q| && t[..|q|] == q {
        var rest := t[|q|..];
        if p != q && Occurs(rest, p) {
          var j :| OccursAt(rest, p, j);
          OccursInSuffix(t, p, |q|, j);
        }
        NoneAfterReplace(rest, q, rep, p);
        if i < |rep| {
          WindowInRep(rep, ReplaceAll(rest, q, rep), p, i);
        } else {
          WindowAfterRep(rep, ReplaceAll(rest, q, rep), p, i);
        }
      } else if |t| >= |q| && i == 0 {
        HeadWindow(t, q, rep, p);
      } else if |t| >= |q| {
        var u := t[1..];
        if p != q && Occurs(u, p) {
          var j :| OccursAt(u, p, j);
          OccursInSuffix(t, p, 1, j);
        }
        NoneAfterReplace(u, q, rep, p);
        WindowAfterChar(t[0], ReplaceAll(u, q, rep), p, i);
      }
    }
  }
}
