/** The opaque tokens the compressor puts in place of protected code:
    `__CODE_BLOCK_<n>__` for fenced blocks and `__INLINE_CODE_<n>__` for
    inline spans. Everything here is about how such tokens can and cannot
    overlap in a text. */
module Placeholders {
  import opened Text

  datatype CodeKind = Fenced | Inline

  /** The `n`-th protected span of a kind. */
  datatype Slot = Slot(kind: CodeKind, index: nat)

  function Prefix(kind: CodeKind): string {
    match kind
    case Fenced => "__CODE_BLOCK_"
    case Inline => "__INLINE_CODE_"
  }

  function Ph(s: Slot): string {
    Prefix(s.kind) + NatStr(s.index) + "__"
  }

  /** The characters a placeholder is made of. */
  predicate PhChar(c: char) {
    c == '_' || 'A' <= c <= 'Z' || IsDigit(c)
  }

  /** A text whose last character cannot be part of a placeholder. */
  predicate LeftSealed(x: string) {
    |x| == 0 || !PhChar(x[|x| - 1])
  }

  /** A text whose first character cannot be part of a placeholder. */
  predicate RightSealed(y: string) {
    |y| == 0 || !PhChar(y[0])
  }

  /** Text that contains no placeholder-shaped substring. */
  predicate NoPlaceholderText(m: string) {
    !Occurs(m, Prefix(Fenced)) && !Occurs(m, Prefix(Inline))
  }

  /** A non-empty text whose first and last characters cannot be part of
      a placeholder. Protected code spans, which start and end with a
      backtick, have this shape. */
  predicate Flanked(m: string) {
    |m| > 0 && !PhChar(m[0]) && !PhChar(m[|m| - 1])
  }

  /** A text that no placeholder can overlap from outside: flanked, and
      free of placeholder text. */
  predicate Sealed(m: string) {
    Flanked(m) && NoPlaceholderText(m)
  }

  lemma PhShape(s: Slot)
    ensures |Ph(s)| >= 16
    ensures forall i | 0 <= i < |Ph(s)| :: PhChar(Ph(s)[i])
    ensures Ph(s)[0] == '_' && Ph(s)[1] == '_'
    ensures StartsWith(Ph(s), Prefix(s.kind))
  {
    var p, d := Prefix(s.kind), NatStr(s.index);
    assert Ph(s) == p + d + "__";
    assert forall i | 0 <= i < |p| :: PhChar(p[i]);
    forall i | 0 <= i < |Ph(s)| ensures PhChar(Ph(s)[i]) {
      if i < |p| {
        assert Ph(s)[i] == p[i];
      } else if i < |p| + |d| {
        assert Ph(s)[i] == d[i - |p|];
      }
    }
    assert Ph(s)[..|p|] == p;
  }

  /** Inside a placeholder, two underscores in a row occur only at its
      start and at its end. */
  lemma PhInnerUnderscores(s: Slot, o: int)
    requires 0 < o < |Ph(s)| - 2
    ensures !(Ph(s)[o] == '_' && Ph(s)[o + 1] == '_')
  {
    var p, d := Prefix(s.kind), NatStr(s.index);
    var t := Ph(s);
    assert t == p + d + "__";
    if o + 1 < |p| {
      assert t[o] == p[o] && t[o + 1] == p[o + 1];
      assert !(p[o] == '_' && p[o + 1] == '_');
    } else if o + 1 == |p| {
      assert t[o + 1] == d[0];
    } else {
      assert t[o] == d[o - |p|];
    }
  }

  /** A placeholder that begins another placeholder is that placeholder. */
  lemma PhPrefixUnique(a: Slot, b: Slot)
    requires |Ph(a)| <= |Ph(b)| && Ph(b)[..|Ph(a)|] == Ph(a)
    ensures a == b
  {
    var pa, pb := Ph(a), Ph(b);
    assert pa[2] == pb[2];
    assert a.kind == b.kind by {
      assert Prefix(Fenced)[2] != Prefix(Inline)[2];
      assert pa[2] == Prefix(a.kind)[2] && pb[2] == Prefix(b.kind)[2];
    }
    var p, da, db := Prefix(a.kind), NatStr(a.index), NatStr(b.index);
    assert pa == p + da + "__" && pb == p + db + "__";
    assert pb[|p| + |da|] == pa[|p| + |da|] == '_';
    assert |da| == |db|;
    assert pa == pb by {
      assert pb == pb[..|pa|];
    }
    assert da == pa[|p|..|p| + |da|];
    assert db == pb[|p|..|p| + |db|];
    NatStrInjective(a.index, b.index);
  }

  /** No placeholder occurrence covers a non-placeholder character. */
  lemma NoPhOver(s: string, j: int, p: Slot, i: int)
    requires 0 <= i <= j < i + |Ph(p)| && j < |s|
    requires !PhChar(s[j])
    ensures !OccursAt(s, Ph(p), i)
  {
    PhShape(p);
    OccursAtChar(s, Ph(p), i, j);
  }

  /** A placeholder found inside another placeholder is that placeholder. */
  lemma PhInside(q: Slot, p: Slot, o: int)
    requires OccursAt(Ph(q), Ph(p), o)
    ensures o == 0 && p == q
  {
    var P, Q := Ph(p), Ph(q);
    PhShape(p);
    OccursAtChar(Q, P, o, o);
    OccursAtChar(Q, P, o, o + 1);
    if o > 0 {
      PhInnerUnderscores(q, o);
    } else {
      assert Q[..|P|] == P;
      PhPrefixUnique(p, q);
    }
  }

  /** An occurrence of a pattern made of placeholder characters that
      overlaps a stretch `q` of `s` flanked by non-placeholder characters
      lies inside that stretch. */
  lemma FlankedWindow(s: string, a: int, q: string, pat: string, i: int)
    requires 0 <= a && a + |q| <= |s| && s[a..a + |q|] == q
    requires a == 0 || !PhChar(s[a - 1])
    requires a + |q| == |s| || !PhChar(s[a + |q|])
    requires forall k | 0 <= k < |pat| :: PhChar(pat[k])
    requires a - |pat| < i < a + |q|
    ensures OccursAt(s, pat, i) ==> a <= i && i + |pat| <= a + |q| && OccursAt(q, pat, i - a)
  {
    if i < 0 {
    } else if i < a {
      OccursAtChar(s, pat, i, a - 1);
    } else if i + |pat| > a + |q| {
      if a + |q| < |s| {
        OccursAtChar(s, pat, i, a + |q|);
      }
    } else if OccursAt(s, pat, i) {
      assert forall k | 0 <= k < |q| :: q[k] == s[a + k];
      assert q[i - a..i - a + |pat|] == s[i..i + |pat|];
    }
  }

  /** In `x + m + y` with both sides sealed, `m` sits between characters
      that cannot be part of a placeholder. */
  lemma SealedSides(x: string, m: string, y: string)
    requires LeftSealed(x) && RightSealed(y)
    ensures (x + m + y)[|x|..|x| + |m|] == m
    ensures |x| == 0 || !PhChar((x + m + y)[|x| - 1])
    ensures |x| + |m| == |x + m + y| || !PhChar((x + m + y)[|x| + |m|])
  {
    var s := x + m + y;
    assert |x| > 0 ==> s[|x| - 1] == x[|x| - 1];
    assert |x| + |m| < |s| ==> s[|x| + |m|] == y[0];
  }

  /** An occurrence of any placeholder in `x + Ph(q) + y`, with both sides
      sealed, that overlaps `Ph(q)` is `Ph(q)` itself. */
  lemma PhWindow(x: string, q: Slot, y: string, p: Slot, i: int)
    requires LeftSealed(x) && RightSealed(y)
    requires |x| - |Ph(p)| < i < |x| + |Ph(q)|
    ensures OccursAt(x + Ph(q) + y, Ph(p), i) ==> i == |x| && p == q
  {
    var s := x + Ph(q) + y;
    assert OccursAt(s, Ph(p), i) ==> OccursAt(Ph(q), Ph(p), i - |x|) by {
      SealedSides(x, Ph(q), y);
      assert forall k | 0 <= k < |Ph(p)| :: PhChar(Ph(p)[k]) by {
        PhShape(p);
      }
      FlankedWindow(s, |x|, Ph(q), Ph(p), i);
    }
    if OccursAt(s, Ph(p), i) {
      PhInside(q, p, i - |x|);
    }
  }

  /** No placeholder overlaps a sealed text `m` sitting between `x` and `y`. */
  lemma SealedWindow(x: string, m: string, y: string, p: Slot, i: int)
    requires Sealed(m)
    requires |x| - |Ph(p)| < i < |x| + |m|
    ensures !OccursAt(x + m + y, Ph(p), i)
  {
    var s, P := x + m + y, Ph(p);
    PhShape(p);
    if i < 0 {
    } else if i <= |x| {
      assert s[|x|] == m[0];
      NoPhOver(s, |x|, p, i);
    } else if i + |P| > |x| + |m| {
      assert s[|x| + |m| - 1] == m[|m| - 1];
      NoPhOver(s, |x| + |m| - 1, p, i);
    } else {
      var o := i - |x|;
      var pre := Prefix(p.kind);
      assert s[|x|..|x| + |m|] == m;
      assert OccursAt(s, P, i) ==> OccursAt(m, pre, o) by {
        if OccursAt(s, P, i) {
          assert m[o..o + |P|] == s[i..i + |P|] == P;
          assert m[o..o + |pre|] == P[..|pre|] == pre;
        }
      }
      assert !OccursAt(m, Prefix(Fenced), o) && !OccursAt(m, Prefix(Inline), o);
    }
  }

  /** A placeholder occurrence gives an occurrence of its family prefix. */
  lemma PrefixOfOccurrence(m: string, p: Slot, i: int)
    requires OccursAt(m, Ph(p), i)
    ensures OccursAt(m, Prefix(p.kind), i)
  {
    PhShape(p);
    assert m[i..i + |Prefix(p.kind)|] == Ph(p)[..|Prefix(p.kind)|];
  }

  /** Text free of placeholder text holds no placeholder. */
  lemma NoPhIn(m: string, p: Slot)
    requires NoPlaceholderText(m)
    ensures !Occurs(m, Ph(p))
  {
    if Occurs(m, Ph(p)) {
      var i :| 0 <= i <= |m| && OccursAt(m, Ph(p), i);
      PrefixOfOccurrence(m, p, i);
    }
  }
}
