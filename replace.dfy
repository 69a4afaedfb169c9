/** Python's `str.replace(pat, rep)` with a non-empty `pat`: every
    occurrence, scanning left to right without overlaps, is replaced. */
module Replacing {
  import opened Text

  function Replace(s: string, pat: string, rep: string): string
    requires |pat| > 0
    decreases |s|
  {
    if |s| == 0 then []
    else if StartsWith(s, pat) then rep + Replace(s[|pat|..], pat, rep)
    else [s[0]] + Replace(s[1..], pat, rep)
  }

  /** Text without an occurrence of `pat` is left alone. */
  lemma {:induction false} ReplaceAbsent(s: string, pat: string, rep: string)
    requires |pat| > 0
    requires !Occurs(s, pat)
    ensures Replace(s, pat, rep) == s
    decreases |s|
  {
    if |s| > 0 {
      StartsWithOccursAt(s, pat, 0);
      assert s[0..] == s;
      assert !StartsWith(s, pat);
      forall i | 0 <= i <= |s| - 1 ensures !OccursAt(s[1..], pat, i) {
        OccursAtSuffix(s, pat, 1, i);
      }
      ReplaceAbsent(s[1..], pat, rep);
    }
  }

  /** No occurrence of `pat` runs from `a` into `t`. */
  predicate NoStraddle(a: string, t: string, pat: string) {
    forall i | 0 <= i < |a| && |a| < i + |pat| :: !OccursAt(a + t, pat, i)
  }

  /** Dropping `d` leading characters of `a` keeps `NoStraddle`. */
  lemma NoStraddleDrop(a: string, t: string, pat: string, d: nat)
    requires d <= |a| && NoStraddle(a, t, pat)
    ensures (a + t)[d..] == a[d..] + t
    ensures NoStraddle(a[d..], t, pat)
  {
    var s := a + t;
    assert s[d..] == a[d..] + t;
    forall i | 0 <= i < |a| - d && |a| - d < i + |pat| ensures !OccursAt(a[d..] + t, pat, i) {
      OccursAtSuffix(s, pat, d, i);
    }
  }

  /** When no occurrence of `pat` runs from `a` into `t`, replacing in
      `a + t` is replacing in each part. */
  lemma {:induction false} ReplaceSplit(a: string, t: string, pat: string, rep: string)
    requires |pat| > 0
    requires NoStraddle(a, t, pat)
    ensures Replace(a + t, pat, rep) == Replace(a, pat, rep) + Replace(t, pat, rep)
    decreases |a|
  {
    var s := a + t;
    if |a| > 0 {
      assert StartsWith(s, pat) == StartsWith(a, pat) by {
        StartsWithOccursAt(s, pat, 0);
        StartsWithOccursAt(a, pat, 0);
        assert s[0..] == s && a[0..] == a;
        assert |pat| <= |a| ==> s[..|pat|] == a[..|pat|];
      }
      var d := if StartsWith(s, pat) then |pat| else 1;
      var lead := if StartsWith(s, pat) then rep else [a[0]];
      NoStraddleDrop(a, t, pat, d);
      ReplaceSplit(a[d..], t, pat, rep);
      assert Replace(s, pat, rep) == lead + Replace(a[d..] + t, pat, rep);
      assert Replace(a, pat, rep) == lead + Replace(a[d..], pat, rep);
      assert lead + (Replace(a[d..], pat, rep) + Replace(t, pat, rep))
          == lead + Replace(a[d..], pat, rep) + Replace(t, pat, rep);
    } else {
      assert s == t;
    }
  }

  /** Text in front of which no occurrence of `pat` starts is copied. */
  lemma {:induction false} ReplaceSkip(m: string, b: string, pat: string, rep: string)
    requires |pat| > 0
    requires forall i | 0 <= i < |m| :: !OccursAt(m + b, pat, i)
    ensures Replace(m + b, pat, rep) == m + Replace(b, pat, rep)
    decreases |m|
  {
    var s := m + b;
    if |m| > 0 {
      StartsWithOccursAt(s, pat, 0);
      assert s[0..] == s;
      var m' := m[1..];
      assert s[1..] == m' + b;
      forall i | 0 <= i < |m'| ensures !OccursAt(m' + b, pat, i) {
        OccursAtSuffix(s, pat, 1, i);
      }
      ReplaceSkip(m', b, pat, rep);
      assert [m[0]] + (m' + Replace(b, pat, rep)) == m + Replace(b, pat, rep);
    } else {
      assert s == b;
    }
  }

  /** When no occurrence of `pat` starts inside `m` or runs into `m` from
      `a`, replacing in `a + m + b` is replacing in `a` and in `b`. */
  lemma ReplaceKeep(a: string, m: string, b: string, pat: string, rep: string)
    requires |pat| > 0
    requires forall i | 0 <= i < |a| + |m| && |a| < i + |pat| :: !OccursAt(a + m + b, pat, i)
    ensures Replace(a + m + b, pat, rep) == Replace(a, pat, rep) + m + Replace(b, pat, rep)
  {
    var s := a + m + b;
    assert s == a + (m + b);
    ReplaceSplit(a, m + b, pat, rep);
    assert s[|a|..] == m + b;
    forall i | 0 <= i < |m| ensures !OccursAt(m + b, pat, i) {
      OccursAtSuffix(s, pat, |a|, i);
    }
    ReplaceSkip(m, b, pat, rep);
    assert Replace(a, pat, rep) + (m + Replace(b, pat, rep)) == Replace(a, pat, rep) + m + Replace(b, pat, rep);
  }

  /** An occurrence of `pat` that nothing from the left runs into is
      replaced by `rep`. */
  lemma ReplaceHit(a: string, b: string, pat: string, rep: string)
    requires |pat| > 0
    requires forall i | 0 <= i < |a| && |a| < i + |pat| :: !OccursAt(a + pat + b, pat, i)
    ensures Replace(a + pat + b, pat, rep) == Replace(a, pat, rep) + rep + Replace(b, pat, rep)
  {
    assert a + pat + b == a + [] + (pat + b);
    ReplaceKeep(a, [], pat + b, pat, rep);
    ReplaceStart(pat, b, rep);
    assert Replace(a, pat, rep) + [] + (rep + Replace(b, pat, rep))
        == Replace(a, pat, rep) + rep + Replace(b, pat, rep);
  }

  /** A text starting with `pat` has its leading occurrence replaced. */
  lemma ReplaceStart(pat: string, b: string, rep: string)
    requires |pat| > 0
    ensures Replace(pat + b, pat, rep) == rep + Replace(b, pat, rep)
  {
    assert (pat + b)[..|pat|] == pat;
    assert (pat + b)[|pat|..] == b;
  }

  /** The last character of a replacement result is the last character of
      the input or of `rep`. */
  lemma {:induction false} ReplaceLast(x: string, pat: string, rep: string)
    requires |pat| > 0 && |x| > 0 && |rep| > 0
    ensures var r := Replace(x, pat, rep); |r| > 0 && (r[|r| - 1] == x[|x| - 1] || r[|r| - 1] == rep[|rep| - 1])
    decreases |x|
  {
    if StartsWith(x, pat) {
      if |x[|pat|..]| > 0 {
        ReplaceLast(x[|pat|..], pat, rep);
      }
    } else if |x| > 1 {
      ReplaceLast(x[1..], pat, rep);
    }
  }

  /** The first character of a replacement result is the first character
      of the input or of `rep`. */
  lemma ReplaceFirst(y: string, pat: string, rep: string)
    requires |pat| > 0 && |y| > 0 && |rep| > 0
    ensures var r := Replace(y, pat, rep); |r| > 0 && (r[0] == y[0] || r[0] == rep[0])
  {
  }
}
