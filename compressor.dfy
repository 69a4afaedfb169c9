/** The content compressor: code is swapped out for numbered placeholders,
    the markup passes run over what is left, and the code is put back by
    replacing each placeholder in turn, fenced blocks first. */
module Compressor {
  import opened Wrappers
  import opened Text
  import opened Placeholders
  import opened Replacing
  import opened Passes

  /** A fenced block: three backticks, then the shortest stretch up to the
      next three backticks. */
  predicate IsFence(m: string) {
    |m| >= 6 && StartsWith(m, "```") && EndsWith(m, "```") &&
    forall i | 3 <= i < |m| - 3 :: !OccursAt(m, "```", i)
  }

  /** An inline span: a backtick, no backtick or newline, a backtick. */
  predicate IsInlineSpan(m: string) {
    |m| >= 2 && m[0] == '`' && m[|m| - 1] == '`' &&
    forall i | 0 < i < |m| - 1 :: m[i] != '`' && m[i] != '\n'
  }

  predicate IsCode(kind: CodeKind, m: string) {
    match kind
    case Fenced => IsFence(m)
    case Inline => IsInlineSpan(m)
  }

  /** The length of the code span the protection pattern of a kind
      matches at the head of a text: three backticks up to the nearest
      closing three, or one backtick up to the next one with no newline
      between them. */
  function CodeMatch(kind: CodeKind, t: string): (r: Option<nat>)
    ensures r.Some? ==> 0 < r.value <= |t| && IsCode(kind, t[..r.value])
  {
    match kind
    case Fenced =>
      if !StartsWith(t, "```") then None
      else (match FindFrom(t, "```", 3)
        case None => None
        case Some(e) =>
          FenceAtHead(t, e);
          Some(e + 3))
    case Inline =>
      if |t| == 0 || t[0] != '`' then None
      else match FindIn(t, {'`', '\n'}, 1)
        case None => None
        case Some(j) => if t[j] == '`' then Some(j + 1) else None
  }

  /** The shortest fence at the head of `t` ends with the first closing
      backticks found from index 3. */
  lemma FenceAtHead(t: string, e: nat)
    requires StartsWith(t, "```") && FindFrom(t, "```", 3) == Some(e)
    ensures IsFence(t[..e + 3])
  {
    var m := t[..e + 3];
    forall i | 3 <= i < e ensures !OccursAt(m, "```", i) {
      OccursAtPrefix(t, e + 3, "```", i);
    }
    assert m[..3] == t[..3];
    assert m[e..] == t[e..e + 3];
  }

  /** Code at the head of a text is what the pattern matches: a fenced
      block or an inline span there is found, with its own length. With
      the contract of `CodeMatch`, a match of length `l` exists exactly
      when the first `l` characters are code. */
  lemma CodeFound(kind: CodeKind, t: string, l: nat)
    requires l <= |t| && IsCode(kind, t[..l])
    ensures CodeMatch(kind, t) == Some(l)
  {
    var m := t[..l];
    match kind
    case Fenced =>
      assert StartsWith(t, "```") by {
        assert t[..3] == m[..3];
      }
      assert OccursAt(t, "```", l - 3) by {
        assert t[l - 3..l] == m[l - 3..];
      }
      forall i | 3 <= i < l - 3 ensures !OccursAt(t, "```", i) {
        OccursAtPrefix(t, l, "```", i);
      }
      FindFromAt(t, "```", 3, l - 3);
    case Inline =>
      assert t[l - 1] == m[l - 1];
      forall i | 1 <= i < l - 1 ensures t[i] !in {'`', '\n'} {
        assert t[i] == m[i];
      }
      FindInAt(t, {'`', '\n'}, 1, l - 1);
  }

  /** `re.sub` with a callback that appends each match to a side list and
      returns the placeholder numbered by the list's length, starting at
      `n`: the rewritten text and the side list. */
  function Protect(kind: CodeKind, s: string, n: nat): (r: (string, seq<string>))
    ensures forall i | 0 <= i < |r.1| :: IsCode(kind, r.1[i])
    decreases |s|
  {
    if |s| == 0 then ([], [])
    else match CodeMatch(kind, s)
      case Some(len) =>
        var rest := Protect(kind, s[len..], n + 1);
        (Ph(Slot(kind, n)) + rest.0, [s[..len]] + rest.1)
      case None =>
        var rest := Protect(kind, s[1..], n);
        ([s[0]] + rest.0, rest.1)
  }

  /** The gaps with the middles in between: `g0 + m0 + g1 + ... + gk`. */
  function Weave(gaps: seq<string>, mids: seq<string>): string
    requires |gaps| == |mids| + 1
    decreases |mids|
  {
    if |mids| == 0 then gaps[0] else gaps[0] + mids[0] + Weave(gaps[1..], mids[1..])
  }

  /** Text put in front of the first gap is put in front of the whole. */
  lemma WeaveCons(c: string, gaps: seq<string>, mids: seq<string>)
    requires |gaps| == |mids| + 1
    ensures Weave([c + gaps[0]] + gaps[1..], mids) == c + Weave(gaps, mids)
  {
    var g := [c + gaps[0]] + gaps[1..];
    assert g[1..] == gaps[1..];
  }

  /** The placeholders numbered `n` to `n + k - 1`. */
  function Phs(kind: CodeKind, n: nat, k: nat): (r: seq<string>)
    ensures |r| == k && forall i | 0 <= i < k :: r[i] == Ph(Slot(kind, n + i))
    decreases k
  {
    if k == 0 then [] else [Ph(Slot(kind, n))] + Phs(kind, n + 1, k - 1)
  }

  /** The pattern of a kind matches nowhere among the first `len`
      positions of `t`. */
  predicate NoMatchIn(kind: CodeKind, t: string, len: nat) {
    forall i | 0 <= i < len && i <= |t| :: CodeMatch(kind, t[i..]) == None
  }

  /** `Weave(gaps, items)` read as a leftmost scan: the pattern matches at
      no position of a gap, and it matches each item, whole, where the
      item starts. */
  predicate Scanned(kind: CodeKind, gaps: seq<string>, items: seq<string>)
    requires |gaps| == |items| + 1
    decreases |items|
  {
    NoMatchIn(kind, Weave(gaps, items), |gaps[0]|) &&
    (|items| > 0 ==>
      CodeMatch(kind, items[0] + Weave(gaps[1..], items[1..])) == Some(|items[0]|) &&
      Scanned(kind, gaps[1..], items[1..]))
  }

  /** A gap decomposition of the text after a match extends to the text
      with the match in front, and so does the protected text. */
  lemma GapsHit(kind: CodeKind, s: string, len: nat, n: nat, r0: string, g: seq<string>, items: seq<string>)
    requires 0 < len <= |s| && |g| == |items| + 1
    requires s[len..] == Weave(g, items) && r0 == Weave(g, Phs(kind, n + 1, |g| - 1))
    ensures s[..len] + Weave(g, items) == s && s == Weave([[]] + g, [s[..len]] + items)
    ensures Ph(Slot(kind, n)) + r0 == Weave([[]] + g, Phs(kind, n, |g|))
  {
    HitText(s, len, g, items);
    HitPhs(kind, n, g);
  }

  lemma HitText(s: string, len: nat, g: seq<string>, items: seq<string>)
    requires 0 < len <= |s| && |g| == |items| + 1 && s[len..] == Weave(g, items)
    ensures s[..len] + Weave(g, items) == s && s == Weave([[]] + g, [s[..len]] + items)
  {
    assert s[..len] + s[len..] == s;
    WeaveHead([], s[..len], g, items);
    assert [] + s[..len] == s[..len];
  }

  lemma HitPhs(kind: CodeKind, n: nat, g: seq<string>)
    requires |g| > 0
    ensures Ph(Slot(kind, n)) + Weave(g, Phs(kind, n + 1, |g| - 1)) == Weave([[]] + g, Phs(kind, n, |g|))
  {
    var p := Ph(Slot(kind, n));
    assert Phs(kind, n, |g|) == [p] + Phs(kind, n + 1, |g| - 1);
    WeaveHead([], p, g, Phs(kind, n + 1, |g| - 1));
    assert [] + p == p;
  }

  lemma WeaveHead(g0: string, m: string, g: seq<string>, mids: seq<string>)
    requires |g| == |mids| + 1
    ensures Weave([g0] + g, [m] + mids) == g0 + m + Weave(g, mids)
  {
    var gaps, all := [g0] + g, [m] + mids;
    assert gaps[1..] == g && all[1..] == mids;
  }

  /** A match in front of a scanned text extends the scan. */
  lemma ScannedHit(kind: CodeKind, m: string, g: seq<string>, items: seq<string>)
    requires |g| == |items| + 1 && Scanned(kind, g, items)
    requires CodeMatch(kind, m + Weave(g, items)) == Some(|m|)
    ensures Scanned(kind, [[]] + g, [m] + items)
  {
    var gaps, all := [[]] + g, [m] + items;
    assert gaps[1..] == g && all[1..] == items;
  }

  /** A gap decomposition of the text after an unmatched character
      extends to the text with the character in front of the first gap,
      and so does the protected text. */
  lemma GapsSkip(kind: CodeKind, s: string, n: nat, r0: string, g: seq<string>, items: seq<string>)
    requires 0 < |s| && |g| == |items| + 1
    requires s[1..] == Weave(g, items) && r0 == Weave(g, Phs(kind, n, |g| - 1))
    ensures s == Weave([[s[0]] + g[0]] + g[1..], items)
    ensures [s[0]] + r0 == Weave([[s[0]] + g[0]] + g[1..], Phs(kind, n, |g| - 1))
  {
    WeaveCons([s[0]], g, items);
    WeaveCons([s[0]], g, Phs(kind, n, |g| - 1));
    assert [s[0]] + s[1..] == s;
  }

  /** An unmatched character in front of a scanned text extends the scan
      of its first gap. */
  lemma ScannedSkip(kind: CodeKind, s: string, g: seq<string>, items: seq<string>)
    requires 0 < |s| && CodeMatch(kind, s) == None
    requires |g| == |items| + 1 && s[1..] == Weave(g, items) && Scanned(kind, g, items)
    requires s == Weave([[s[0]] + g[0]] + g[1..], items)
    ensures Scanned(kind, [[s[0]] + g[0]] + g[1..], items)
  {
    var gaps := [[s[0]] + g[0]] + g[1..];
    assert gaps[1..] == g[1..];
    assert NoMatchIn(kind, s[1..], |g[0]|);
    forall i | 0 <= i < |gaps[0]| && i <= |s| ensures CodeMatch(kind, s[i..]) == None {
      if i == 0 {
        assert s[0..] == s;
      } else {
        assert s[i..] == s[1..][i - 1..];
      }
    }
  }

  /** What a protection pass does: the input is the text between the
      items (`gaps`) with the items in between, read as a leftmost scan,
      and the protected text is the same gaps, unchanged, with the items
      replaced by the placeholders `n`, `n + 1`, ... in order. */
  lemma {:induction false} ProtectGaps(kind: CodeKind, s: string, n: nat) returns (gaps: seq<string>)
    ensures |gaps| == |Protect(kind, s, n).1| + 1
    ensures s == Weave(gaps, Protect(kind, s, n).1)
    ensures Protect(kind, s, n).0 == Weave(gaps, Phs(kind, n, |gaps| - 1))
    ensures Scanned(kind, gaps, Protect(kind, s, n).1)
    decreases |s|
  {
    if |s| == 0 {
      gaps := [[]];
    } else {
      match CodeMatch(kind, s)
      case Some(len) =>
        var rest := Protect(kind, s[len..], n + 1);
        var g := ProtectGaps(kind, s[len..], n + 1);
        GapsHit(kind, s, len, n, rest.0, g, rest.1);
        ScannedHit(kind, s[..len], g, rest.1);
        gaps := [[]] + g;
      case None =>
        var rest := Protect(kind, s[1..], n);
        var g := ProtectGaps(kind, s[1..], n);
        GapsSkip(kind, s, n, rest.0, g, rest.1);
        ScannedSkip(kind, s, g, rest.1);
        gaps := [[s[0]] + g[0]] + g[1..];
    }
  }

  /** Code spans begin and end with a backtick, which no placeholder
      contains. */
  lemma CodeIsFlanked(kind: CodeKind, m: string)
    requires IsCode(kind, m)
    ensures Flanked(m)
  {
    if kind == Fenced {
      assert m[0] == m[..3][0];
      assert m[|m| - 1] == m[|m| - 3..][2];
    }
  }

  /** Disjoint, ordered occurrences of `items` in `s` from position `k`
      on. */
  predicate SpansAt(s: string, items: seq<string>, idx: seq<nat>, k: nat) {
    |idx| == |items| &&
    (forall i | 0 <= i < |idx| :: k <= idx[i] && OccursAt(s, items[i], idx[i])) &&
    (forall i | 0 <= i < |idx| - 1 :: idx[i] + |items[i]| <= idx[i + 1])
  }

  /** Occurrences in a suffix are occurrences in the whole text. */
  lemma ShiftSpans(s: string, k: nat, items: seq<string>, tail: seq<nat>) returns (idx: seq<nat>)
    requires k <= |s| && SpansAt(s[k..], items, tail, 0)
    ensures SpansAt(s, items, idx, k)
  {
    idx := seq(|tail|, i requires 0 <= i < |tail| => tail[i] + k);
    forall i | 0 <= i < |idx| ensures OccursAt(s, items[i], idx[i]) {
      OccursAtSuffix(s, items[i], k, tail[i]);
    }
  }

  /** A span at the head followed by spans that start after it. */
  lemma ConsSpan(s: string, m: string, items: seq<string>, tail: seq<nat>, k: nat) returns (idx: seq<nat>)
    requires OccursAt(s, m, 0) && |m| <= k && SpansAt(s, items, tail, k)
    ensures idx == [0] + tail && SpansAt(s, [m] + items, idx, 0)
  {
    idx := [0] + tail;
    var all := [m] + items;
    forall i | 0 <= i < |idx| ensures OccursAt(s, all[i], idx[i]) {
      if i > 0 {
        assert all[i] == items[i - 1] && idx[i] == tail[i - 1];
      }
    }
    forall i | 0 <= i < |idx| - 1 ensures idx[i] + |all[i]| <= idx[i + 1] {
      if i > 0 {
        assert all[i] == items[i - 1] && idx[i] == tail[i - 1] && idx[i + 1] == tail[i];
      }
    }
  }

  /** The protected spans are disjoint stretches of the input, in order:
      `idx` gives where each one starts. */
  lemma {:induction false} ProtectSpans(kind: CodeKind, s: string, n: nat) returns (idx: seq<nat>)
    ensures SpansAt(s, Protect(kind, s, n).1, idx, 0)
    decreases |s|
  {
    if |s| == 0 {
      idx := [];
    } else {
      match CodeMatch(kind, s)
      case Some(len) =>
        var rest := Protect(kind, s[len..], n + 1).1;
        var tail := ProtectSpans(kind, s[len..], n + 1);
        var shifted := ShiftSpans(s, len, rest, tail);
        assert Protect(kind, s, n).1 == [s[..len]] + rest;
        assert OccursAt(s, s[..len], 0) by {
          assert s[0..len] == s[..len];
        }
        idx := ConsSpan(s, s[..len], rest, shifted, len);
      case None =>
        var tail := ProtectSpans(kind, s[1..], n);
        idx := ShiftSpans(s, 1, Protect(kind, s[1..], n).1, tail);
    }
  }

  /** Without a backtick there is nothing to protect. */
  lemma {:induction false} ProtectNothing(kind: CodeKind, s: string, n: nat)
    requires forall i | 0 <= i < |s| :: s[i] != '`'
    ensures Protect(kind, s, n) == (s, [])
    decreases |s|
  {
    if |s| > 0 {
      assert s[0..] == s;
      StartsWithOccursAt(s, "```", 0);
      OccursAtChar(s, "```", 0, 0);
      ProtectNothing(kind, s[1..], n);
      assert [s[0]] + s[1..] == s;
    }
  }

  /** Every placeholder text is non-empty, as `str.replace` on a pattern
      needs here. */
  lemma PhNonEmpty(p: Slot)
    ensures |Ph(p)| > 0
  {
    PhShape(p);
  }

  /** The restore loop for one kind after iterations `lo` to `n - 1`: each
      placeholder in turn replaced by the code it stands for. */
  function RestoreFrom(c: string, kind: CodeKind, items: seq<string>, lo: nat, n: nat): string
    requires lo <= n <= |items|
    decreases n - lo
  {
    if n == lo then c
    else
      PhNonEmpty(Slot(kind, n - 1));
      Replace(RestoreFrom(c, kind, items, lo, n - 1), Ph(Slot(kind, n - 1)), items[n - 1])
  }

  /** The loop can be cut at any iteration. */
  lemma {:induction false} RestoreSplit(c: string, kind: CodeKind, items: seq<string>, lo: nat, mid: nat, n: nat)
    requires lo <= mid <= n <= |items|
    ensures RestoreFrom(c, kind, items, lo, n) ==
            RestoreFrom(RestoreFrom(c, kind, items, lo, mid), kind, items, mid, n)
    decreases n - mid
  {
    if n > mid {
      RestoreSplit(c, kind, items, lo, mid, n - 1);
    }
  }

  /** Replacing another placeholder keeps a placeholder whose neighbours
      cannot be part of a placeholder, and keeps its neighbours so. */
  lemma StepKeepsPlaceholder(x: string, q: Slot, y: string, p: Slot, rep: string) returns (x': string, y': string)
    requires LeftSealed(x) && RightSealed(y) && p != q && Flanked(rep)
    ensures |Ph(p)| > 0
    ensures Replace(x + Ph(q) + y, Ph(p), rep) == x' + Ph(q) + y'
    ensures LeftSealed(x') && RightSealed(y')
  {
    PhShape(p);
    forall i | 0 <= i < |x| + |Ph(q)| && |x| < i + |Ph(p)| ensures !OccursAt(x + Ph(q) + y, Ph(p), i) {
      PhWindow(x, q, y, p, i);
    }
    ReplaceKeep(x, Ph(q), y, Ph(p), rep);
    x', y' := Replace(x, Ph(p), rep), Replace(y, Ph(p), rep);
    if |x| > 0 {
      ReplaceLast(x, Ph(p), rep);
    }
    if |y| > 0 {
      ReplaceFirst(y, Ph(p), rep);
    }
  }

  /** Replacing a placeholder with sealed neighbours puts its code in its
      place. */
  lemma StepRestores(x: string, q: Slot, y: string, rep: string) returns (x': string, y': string)
    requires LeftSealed(x) && RightSealed(y)
    ensures |Ph(q)| > 0
    ensures Replace(x + Ph(q) + y, Ph(q), rep) == x' + rep + y'
  {
    PhShape(q);
    forall i | 0 <= i < |x| && |x| < i + |Ph(q)| ensures !OccursAt(x + Ph(q) + y, Ph(q), i) {
      PhWindow(x, q, y, q, i);
    }
    ReplaceHit(x, y, Ph(q), rep);
    x', y' := Replace(x, Ph(q), rep), Replace(y, Ph(q), rep);
  }

  /** Replacing any placeholder keeps a sealed stretch of text. */
  lemma StepKeepsSealed(x: string, m: string, y: string, p: Slot, rep: string) returns (x': string, y': string)
    requires Sealed(m)
    ensures |Ph(p)| > 0
    ensures Replace(x + m + y, Ph(p), rep) == x' + m + y'
  {
    PhShape(p);
    forall i | 0 <= i < |x| + |m| && |x| < i + |Ph(p)| ensures !OccursAt(x + m + y, Ph(p), i) {
      SealedWindow(x, m, y, p, i);
    }
    ReplaceKeep(x, m, y, Ph(p), rep);
    x', y' := Replace(x, Ph(p), rep), Replace(y, Ph(p), rep);
  }

  predicate AllFlanked(items: seq<string>) {
    forall j | 0 <= j < |items| :: Flanked(items[j])
  }

  /** Iterations for other slots keep the placeholder of `q`. */
  lemma {:induction false} RestoreKeepsPlaceholder(c: string, kind: CodeKind, items: seq<string>, lo: nat, n: nat,
                                                   x: string, q: Slot, y: string) returns (x': string, y': string)
    requires lo <= n <= |items| && AllFlanked(items)
    requires c == x + Ph(q) + y && LeftSealed(x) && RightSealed(y)
    requires q.kind != kind || !(lo <= q.index < n)
    ensures RestoreFrom(c, kind, items, lo, n) == x' + Ph(q) + y' && LeftSealed(x') && RightSealed(y')
    decreases n - lo
  {
    if n == lo {
      x', y' := x, y;
    } else {
      var x1, y1 := RestoreKeepsPlaceholder(c, kind, items, lo, n - 1, x, q, y);
      var p := Slot(kind, n - 1);
      assert p != q && Flanked(items[n - 1]);
      x', y' := StepKeepsPlaceholder(x1, q, y1, p, items[n - 1]);
      assert RestoreFrom(c, kind, items, lo, n) == Replace(x1 + Ph(q) + y1, Ph(p), items[n - 1]);
    }
  }

  /** Every iteration keeps a sealed stretch of text. */
  lemma {:induction false} RestoreKeepsSealed(c: string, kind: CodeKind, items: seq<string>, lo: nat, n: nat,
                                              x: string, m: string, y: string) returns (x': string, y': string)
    requires lo <= n <= |items| && Sealed(m) && c == x + m + y
    ensures RestoreFrom(c, kind, items, lo, n) == x' + m + y'
    decreases n - lo
  {
    if n == lo {
      x', y' := x, y;
    } else {
      var x1, y1 := RestoreKeepsSealed(c, kind, items, lo, n - 1, x, m, y);
      x', y' := StepKeepsSealed(x1, m, y1, Slot(kind, n - 1), items[n - 1]);
    }
  }

  /** The loop for the placeholder's own kind puts its code in its place,
      and the code stays there through the remaining iterations. */
  lemma RestoreOwnKind(c: string, items: seq<string>, x: string, q: Slot, y: string) returns (x': string, y': string)
    requires q.index < |items| && AllFlanked(items) && Sealed(items[q.index])
    requires c == x + Ph(q) + y && LeftSealed(x) && RightSealed(y)
    ensures RestoreFrom(c, q.kind, items, 0, |items|) == x' + items[q.index] + y'
  {
    var k := q.index;
    RestoreSplit(c, q.kind, items, 0, k, |items|);
    var c1 := RestoreFrom(c, q.kind, items, 0, k);
    var x1, y1 := RestoreKeepsPlaceholder(c, q.kind, items, 0, k, x, q, y);
    RestoreSplit(c1, q.kind, items, k, k + 1, |items|);
    assert Slot(q.kind, k) == q;
    var x2, y2 := StepRestores(x1, q, y1, items[k]);
    var c2 := RestoreFrom(c1, q.kind, items, k, k + 1);
    assert c2 == x2 + items[k] + y2;
    x', y' := RestoreKeepsSealed(c2, q.kind, items, k + 1, |items|, x2, items[k], y2);
  }

  /** A restore loop over all the items of one kind. */
  function Restore(c: string, kind: CodeKind, items: seq<string>): string {
    RestoreFrom(c, kind, items, 0, |items|)
  }

  /** The fenced blocks taken out of `s`, in order. */
  function Blocks(s: string): seq<string> {
    Protect(Fenced, s, 0).1
  }

  /** The inline spans taken out of what the fenced pass left. */
  function Spans(s: string): seq<string> {
    Protect(Inline, Protect(Fenced, s, 0).0, 0).1
  }

  /** The text after both protections and the six markup passes. */
  function Marked(s: string): string {
    Markup(Protect(Inline, Protect(Fenced, s, 0).0, 0).0)
  }

  /** The compressor: blank input is returned as it is; otherwise code is
      protected, markup is rewritten, and fenced blocks then inline spans
      are put back. */
  function Compress(s: string): string {
    if AllSpace(s) then s else Restore(Restore(Marked(s), Fenced, Blocks(s)), Inline, Spans(s))
  }

  /** The compressor as the program runs it, one assignment at a time. */
  method CompressContent(content: string) returns (r: string)
    ensures r == Compress(content)
    ensures AllSpace(content) ==> r == content
  {
    if AllSpace(content) {
      return content;
    }
    var fenced := Protect(Fenced, content, 0);
    var codeBlocks := fenced.1;
    var inline := Protect(Inline, fenced.0, 0);
    var inlineCodes := inline.1;
    var c := inline.0;
    c := Sub(DivImage, c);
    c := Sub(ImageAlt, c);
    c := Sub(ImageBare, c);
    c := Sub(ImageRun, c);
    c := Sub(UrlScheme, c);
    c := Sub(Tag, c);
    var marked := c;
    for i := 0 to |codeBlocks|
      invariant c == RestoreFrom(marked, Fenced, codeBlocks, 0, i)
    {
      PhNonEmpty(Slot(Fenced, i));
      c := Replace(c, Ph(Slot(Fenced, i)), codeBlocks[i]);
    }
    var restored := c;
    for i := 0 to |inlineCodes|
      invariant c == RestoreFrom(restored, Inline, inlineCodes, 0, i)
    {
      PhNonEmpty(Slot(Inline, i));
      c := Replace(c, Ph(Slot(Inline, i)), inlineCodes[i]);
    }
    return c;
  }

  lemma ItemsFlanked(kind: CodeKind, s: string, n: nat)
    ensures AllFlanked(Protect(kind, s, n).1)
  {
    var items := Protect(kind, s, n).1;
    forall j | 0 <= j < |items| ensures Flanked(items[j]) {
      CodeIsFlanked(kind, items[j]);
    }
  }

  /** A fenced block whose placeholder the markup passes left standing,
      with neighbours that cannot extend it, is in the output unchanged,
      provided the block holds no placeholder text of its own. */
  lemma CodeBlockSurvives(s: string, k: nat, x: string, y: string) returns (x': string, y': string)
    requires !AllSpace(s) && k < |Blocks(s)|
    requires Marked(s) == x + Ph(Slot(Fenced, k)) + y && LeftSealed(x) && RightSealed(y)
    requires NoPlaceholderText(Blocks(s)[k])
    ensures IsFence(Blocks(s)[k])
    ensures Compress(s) == x' + Blocks(s)[k] + y'
  {
    var blocks, spans := Blocks(s), Spans(s);
    ItemsFlanked(Fenced, s, 0);
    assert IsCode(Fenced, blocks[k]);
    var x1, y1 := RestoreOwnKind(Marked(s), blocks, x, Slot(Fenced, k), y);
    x', y' := RestoreKeepsSealed(Restore(Marked(s), Fenced, blocks), Inline, spans, 0, |spans|, x1, blocks[k], y1);
  }

  /** The same for an inline span: the fenced restore loop leaves its
      placeholder alone and the inline loop puts the span back. */
  lemma InlineCodeSurvives(s: string, k: nat, x: string, y: string) returns (x': string, y': string)
    requires !AllSpace(s) && k < |Spans(s)|
    requires Marked(s) == x + Ph(Slot(Inline, k)) + y && LeftSealed(x) && RightSealed(y)
    requires NoPlaceholderText(Spans(s)[k])
    ensures IsInlineSpan(Spans(s)[k])
    ensures Compress(s) == x' + Spans(s)[k] + y'
  {
    var blocks, spans := Blocks(s), Spans(s);
    ItemsFlanked(Fenced, s, 0);
    ItemsFlanked(Inline, Protect(Fenced, s, 0).0, 0);
    assert IsCode(Inline, spans[k]);
    var x1, y1 := RestoreKeepsPlaceholder(Marked(s), Fenced, blocks, 0, |blocks|, x, Slot(Inline, k), y);
    x', y' := RestoreOwnKind(Restore(Marked(s), Fenced, blocks), spans, x1, Slot(Inline, k), y1);
  }

  /** Text with no backtick, no tag, no `[image]` and no `http(s)://` comes
      out of the compressor unchanged. */
  lemma PlainTextUnchanged(s: string)
    requires forall i | 0 <= i < |s| :: s[i] != '`' && s[i] != '<'
    requires !Occurs(s, Image) && !Occurs(s, "http://") && !Occurs(s, "https://")
    ensures Compress(s) == s
  {
    if !AllSpace(s) {
      ProtectNothing(Fenced, s, 0);
      ProtectNothing(Inline, s, 0);
      MarkupPlain(s);
    }
  }

  /** No backtick, no `<`, no `[` and no `>`. */
  predicate Bare(x: string) {
    forall i | 0 <= i < |x| :: x[i] != '`' && x[i] != '<' && x[i] != '[' && x[i] != '>'
  }

  lemma BareJoin(x: string, y: string, z: string)
    requires Bare(x) && Bare(y) && Bare(z)
    ensures Bare(x + y + z)
  {
  }

  /** Text with no backtick, `<`, `[` or `>` is changed only by the scheme
      pass, once what that pass leaves holds none of them either. */
  lemma SchemeOnly(s: string)
    requires !AllSpace(s) && Bare(s) && Bare(Sub(UrlScheme, s))
    ensures Compress(s) == Sub(UrlScheme, s)
  {
    ProtectNothing(Fenced, s, 0);
    ProtectNothing(Inline, s, 0);
    forall p, i | p in {DivImage, ImageAlt, ImageBare, Tag} && 0 <= i < |s|
      ensures MatchAt(p, s[i..]).None?
    {
      NoAngleNoMatch(p, s[i..]);
    }
    forall i | 0 <= i < |s| ensures MatchAt(ImageRun, s[i..]).None? {
      NoRunWithoutBracket(s[i..]);
    }
    SubNoMatch(DivImage, s);
    SubNoMatch(ImageAlt, s);
    SubNoMatch(ImageBare, s);
    SubNoMatch(ImageRun, s);
    NoGtKept(Sub(UrlScheme, s));
  }

  /** The scheme pass on `a + "http://" + b`, where no scheme starts in
      `a` or anywhere in `b` and `b` does not start with `www.`. */
  lemma SchemeInside(a: string, h: string, b: string)
    requires h == "http://" && !StartsWith(b, "www.")
    requires forall i | 0 <= i < |a| :: MatchAt(UrlScheme, (a + h + b)[i..]).None?
    requires forall i | 0 <= i < |b| :: MatchAt(UrlScheme, b[i..]).None?
    ensures Sub(UrlScheme, a + h + b) == a + b
  {
    var s := a + h + b;
    SubKeep(UrlScheme, s, |a|);
    assert s[..|a|] == a && s[|a|..] == h + "" + b;
    SchemeRemoved(h, "", b);
    SubNoMatch(UrlScheme, b);
  }

  /** The scheme pass on `"ht" + "http://" + "tp://"` leaves `"http://"`. */
  lemma SchemeJoined(a: string, h: string, b: string)
    requires a == "ht" && h == "http://" && b == "tp://"
    ensures Sub(UrlScheme, a + h + b) == h
  {
    var s := a + h + b;
    forall i | 0 <= i < |a| ensures MatchAt(UrlScheme, s[i..]).None? {
      var t := s[i..];
      assert t[..7][0] != "http://"[0] || t[..7][2] != "http://"[2];
      assert t[..8][0] != "https://"[0] || t[..8][2] != "https://"[2];
    }
    forall i | 0 <= i < |b| ensures MatchAt(UrlScheme, b[i..]).None? {
      assert |b[i..]| < 7;
    }
    assert !StartsWith(b, "www.") by {
      assert b[..4][0] != "www."[0];
    }
    SchemeInside(a, h, b);
  }

  /** Compressing is not idempotent even without code: the scheme pass
      deletes the `http://` inside `hthttp://tp://`, which joins a new
      `http://`, and compressing again deletes that one too. */
  lemma CodeFreeNotIdempotent(a: string, h: string, b: string)
    requires a == "ht" && h == "http://" && b == "tp://"
    ensures Compress(a + h + b) == h && Compress(h) == ""
  {
    assert Bare(a) && Bare(h) && Bare(b) && Bare("");
    assert !IsSpace(h[0]) && !IsSpace(a[0]);
    BareJoin(a, h, b);
    SchemeJoined(a, h, b);
    assert !AllSpace(a + h + b) by {
      assert (a + h + b)[0] == a[0];
    }
    SchemeOnly(a + h + b);
    assert Sub(UrlScheme, h) == "" by {
      SchemeRemoved(h, "", "");
      assert h + "" + "" == h;
    }
    SchemeOnly(h);
  }

  /** A fence with no backtick inside, at the head of a text, is protected
      whole and numbered `n`. */
  lemma ProtectFence(c: string, rest: string, n: nat)
    requires forall i | 0 <= i < |c| :: c[i] != '`'
    ensures var t := Protect(Fenced, "```" + c + "```" + rest, n + 1);
            Protect(Fenced, "```" + c + "```" + rest, n) ==
              (Ph(Slot(Fenced, n)) + Protect(Fenced, rest, n + 1).0, ["```" + c + "```"] + Protect(Fenced, rest, n + 1).1)
  {
    var m := "```" + c + "```";
    var s := m + rest;
    var e := 3 + |c|;
    assert StartsWith(s, "```") by {
      assert s[..3] == "```";
    }
    assert OccursAt(s, "```", e) by {
      assert s[e..e + 3] == "```";
    }
    forall i | 3 <= i < e ensures !OccursAt(s, "```", i) {
      assert s[i] == c[i - 3];
      OccursAtChar(s, "```", i, i);
    }
    assert FindFrom(s, "```", 3) == Some(e);
    assert CodeMatch(Fenced, s) == Some(e + 3);
    assert s[..e + 3] == m && s[e + 3..] == rest;
  }

  /** A text made only of placeholder characters has no occurrence of a
      pattern that starts with another character. */
  lemma PhTextLacks(t: string, p: string)
    requires forall i | 0 <= i < |t| :: PhChar(t[i])
    requires |p| > 0 && !PhChar(p[0])
    ensures !Occurs(t, p)
  {
    forall i | 0 <= i <= |t| ensures !OccursAt(t, p, i) {
      if i < |t| {
        OccursAtChar(t, p, i, i);
      }
    }
  }

  /** Such a text is left alone by both protections and by the markup
      passes. */
  lemma PhTextUntouched(t: string, kind: CodeKind, n: nat)
    requires forall i | 0 <= i < |t| :: PhChar(t[i])
    ensures Protect(kind, t, n) == (t, []) && Markup(t) == t
  {
    ProtectNothing(kind, t, n);
    PhTextLacks(t, Image);
    PhTextLacks(t, "http://");
    PhTextLacks(t, "https://");
    MarkupPlain(t);
  }

  predicate NoTick(p: string) {
    forall k | 0 <= k < |p| :: p[k] != '`'
  }

  /** A pattern without a backtick that occurs on neither side of a
      backtick does not occur across it. */
  lemma TickSplit(a: string, b: string, p: string)
    requires NoTick(p) && !Occurs(a, p) && !Occurs(b, p)
    ensures !Occurs(a + "`" + b, p)
  {
    var s := a + "`" + b;
    forall i | 0 <= i <= |s| ensures !OccursAt(s, p, i) {
      if i + |p| <= |a| {
        assert s[i..i + |p|] == a[i..i + |p|];
        assert !OccursAt(a, p, i);
      } else if i > |a| && i + |p| <= |s| {
        assert s[i..i + |p|] == b[i - |a| - 1..i - |a| - 1 + |p|];
        assert !OccursAt(b, p, i - |a| - 1);
      } else if i <= |a| && i + |p| <= |s| {
        OccursAtChar(s, p, i, |a|);
      }
    }
  }

  lemma TicksSplit(a: string, b: string, p: string)
    requires |p| > 0 && NoTick(p) && !Occurs(a, p) && !Occurs(b, p)
    ensures !Occurs(a + "```" + b, p)
  {
    assert !Occurs([], p);
    TickSplit([], b, p);
    TickSplit([], [] + "`" + b, p);
    TickSplit(a, [] + "`" + ([] + "`" + b), p);
    assert a + "```" + b == a + "`" + ([] + "`" + ([] + "`" + b));
  }

  /** Code starts with a backtick. */
  lemma NoTickNoMatch(kind: CodeKind, s: string)
    requires |s| > 0 && s[0] != '`'
    ensures CodeMatch(kind, s) == None
  {
    if kind == Fenced && |s| >= 3 {
      assert s[..3][0] == s[0];
    }
  }

  /** Where nothing matches, the first character is copied. */
  lemma ProtectUnmatched(kind: CodeKind, s: string, n: nat)
    requires |s| > 0 && CodeMatch(kind, s) == None
    ensures Protect(kind, s, n) == ([s[0]] + Protect(kind, s[1..], n).0, Protect(kind, s[1..], n).1)
  {
  }

  /** Backtick-free text in front is copied by a protection pass. */
  lemma {:induction false} ProtectSkip(kind: CodeKind, x: string, rest: string, n: nat)
    requires NoTick(x)
    ensures Protect(kind, x + rest, n) == (x + Protect(kind, rest, n).0, Protect(kind, rest, n).1)
    decreases |x|
  {
    var s := x + rest;
    var t := Protect(kind, rest, n);
    if |x| > 0 {
      var u := Protect(kind, x[1..] + rest, n);
      assert u.0 == x[1..] + t.0 && u.1 == t.1 by {
        ProtectSkip(kind, x[1..], rest, n);
      }
      HeadSplit(x, rest);
      HeadSplit(x, t.0);
      SkipOne(kind, s, x[0], x[1..] + rest, n);
    } else {
      assert s == rest && x + t.0 == t.0;
    }
  }

  lemma HeadSplit(x: string, z: string)
    requires |x| > 0
    ensures x + z == [x[0]] + (x[1..] + z)
  {
  }

  /** A character other than a backtick in front is copied. */
  lemma SkipOne(kind: CodeKind, s: string, c: char, tail: string, n: nat)
    requires c != '`' && s == [c] + tail
    ensures Protect(kind, s, n) == ([c] + Protect(kind, tail, n).0, Protect(kind, tail, n).1)
  {
    assert s[0] == c && s[1..] == tail;
    NoTickNoMatch(kind, s);
    ProtectUnmatched(kind, s, n);
  }

  predicate NoNewline(x: string) {
    forall k | 0 <= k < |x| :: x[k] != '\n'
  }

  /** A backtick not followed by another opens no fenced block. */
  lemma LoneTick(t: string)
    requires |t| > 0 && (|t| < 3 || t[1] != '`')
    ensures CodeMatch(Fenced, t) == None
  {
    if |t| >= 3 {
      assert t[..3][1] == t[1];
    }
  }

  /** A lone backtick is kept by the fenced pass. */
  lemma LoneTickKept(t: string, n: nat)
    requires |t| == 1 && t[0] == '`'
    ensures Protect(Fenced, t, n) == (t, [])
  {
    LoneTick(t);
    ProtectUnmatched(Fenced, t, n);
    assert t[1..] == [] && [t[0]] == t;
    assert Protect(Fenced, [], n) == ([], []);
    assert [t[0]] + Protect(Fenced, [], n).0 == t;
  }

  /** The fenced pass of the case below: the block between backtick-free
      text is taken out, and the lone backticks `t` around it are
      kept. */
  lemma SwallowProtected(t: string, x: string, c: string, y: string, n: nat)
    requires |t| == 1 && t[0] == '`' && |x| > 0 && NoTick(x) && NoTick(c) && NoTick(y)
    ensures var b := "```" + c + "```";
            Protect(Fenced, t + x + b + y + t, n) == (t + x + Ph(Slot(Fenced, n)) + y + t, [b])
  {
    var b := "```" + c + "```";
    var P := Ph(Slot(Fenced, n));
    var s := t + x + b + y + t;
    LoneTickKept(t, n + 1);
    assert Protect(Fenced, y + t, n + 1) == (y + t, []) by {
      ProtectSkip(Fenced, y, t, n + 1);
    }
    assert Protect(Fenced, b + (y + t), n) == (P + (y + t), [b]) by {
      ProtectFence(c, y + t, n);
      assert [b] + [] == [b];
    }
    var front := Protect(Fenced, x + (b + (y + t)), n);
    assert front == (x + (P + (y + t)), [b]) by {
      ProtectSkip(Fenced, x, b + (y + t), n);
    }
    assert Protect(Fenced, s, n) == (t + front.0, front.1) by {
      var z := x + (b + (y + t));
      Regroup(t, x, b, y, t);
      assert s[1..] == z && s[1] == x[0] && [s[0]] == t;
      LoneTick(s);
      ProtectUnmatched(Fenced, s, n);
    }
    Regroup(t, x, P, y, t);
  }

  lemma Regroup(a: string, b: string, c: string, d: string, e: string)
    ensures a + b + c + d + e == a + (b + (c + (d + e)))
  {
  }

  /** Backtick- and newline-free text between two backticks is one inline
      span, taken out whole. */
  lemma InlineWhole(t: string, x: string, n: nat)
    requires |t| == 1 && t[0] == '`' && NoTick(x) && NoNewline(x)
    ensures Protect(Inline, t + x + t, n) == (Ph(Slot(Inline, n)), [t + x + t])
  {
    var r := t + x + t;
    forall i | 0 < i < |r| - 1 ensures r[i] != '`' && r[i] != '\n' {
      assert r[i] == x[i - 1];
    }
    assert r[..|r|] == r && r[|r|..] == [];
    CodeFound(Inline, r, |r|);
    assert Protect(Inline, [], n + 1) == ([], []);
    assert Ph(Slot(Inline, n)) + [] == Ph(Slot(Inline, n)) && [r] + [] == [r];
  }

  /** Replacing one placeholder leaves another alone. */
  lemma ReplaceOtherPh(q: Slot, p: Slot, rep: string)
    requires p != q
    ensures |Ph(p)| > 0 && Replace(Ph(q), Ph(p), rep) == Ph(q)
  {
    PhShape(p);
    forall i | 0 <= i <= |Ph(q)| ensures !OccursAt(Ph(q), Ph(p), i) {
      if OccursAt(Ph(q), Ph(p), i) {
        PhInside(q, p, i);
      }
    }
    ReplaceAbsent(Ph(q), Ph(p), rep);
  }

  /** The lone backticks and backtick-free pieces of the case below hold
      no three backticks in a row. */
  lemma NoFenceInSpan(r: string, x: string, m: string, y: string, b: string)
    requires |x| > 0 && NoTick(x) && NoTick(m) && NoTick(y) && StartsWith(b, "``")
    requires r == "`" + x + m + y + "`"
    ensures !Occurs(r, b)
  {
    forall k | 0 < k < |r| - 1 ensures r[k] != '`' {
      if k <= |x| {
        assert r[k] == x[k - 1];
      } else if k <= |x| + |m| {
        assert r[k] == m[k - 1 - |x|];
      } else {
        assert r[k] == y[k - 1 - |x| - |m|];
      }
    }
    assert r[1] == x[0];
    forall i | 0 <= i <= |r| ensures !OccursAt(r, b, i) {
      if OccursAt(r, b, i) {
        assert b[..2][0] == '`' && b[..2][1] == '`';
        OccursAtChar(r, b, i, i);
        OccursAtChar(r, b, i, i + 1);
      }
    }
  }

  /** The rest of the case below: when the inline pass leaves only
      placeholder 0 of its own kind, the fenced restore finds nothing and
      the inline restore gives back the span. */
  lemma SwallowRestored(s: string, r: string, b: string)
    requires |s| > 0 && s[0] == '`'
    requires Protect(Fenced, s, 0) == (r, [b]) && Protect(Inline, r, 0) == (Ph(Slot(Inline, 0)), [r])
    ensures Blocks(s) == [b] && Spans(s) == [r] && Compress(s) == r
  {
    var I0 := Ph(Slot(Inline, 0));
    assert Marked(s) == I0 by {
      PhShape(Slot(Inline, 0));
      PhTextUntouched(I0, Inline, 0);
    }
    assert Restore(I0, Fenced, [b]) == I0 by {
      ReplaceOtherPh(Slot(Inline, 0), Slot(Fenced, 0), b);
    }
    assert Restore(I0, Inline, [r]) == r by {
      PhShape(Slot(Inline, 0));
      ReplaceWhole(I0, r);
    }
    assert !AllSpace(s);
  }

  /** The survival conditions are sufficient, not necessary: a fence
      whose content is placeholder text still comes out unchanged. */
  lemma PlaceholderFenceKept(q: Slot)
    ensures var b := "```" + Ph(q) + "```";
            Blocks(b) == [b] && !NoPlaceholderText(b) && Compress(b) == b
  {
    var c, P0 := Ph(q), Ph(Slot(Fenced, 0));
    var b := "```" + c + "```";
    assert Protect(Fenced, b, 0) == (P0, [b]) by {
      PhPlain(q);
      FenceAlone(c, 0);
    }
    assert Marked(b) == P0 && Spans(b) == [] by {
      PhShape(Slot(Fenced, 0));
      PhTextUntouched(P0, Inline, 0);
    }
    assert Restore(P0, Fenced, [b]) == b by {
      PhShape(Slot(Fenced, 0));
      ReplaceWhole(P0, b);
    }
    assert !AllSpace(b) by {
      assert b[0] == '`';
    }
    assert !NoPlaceholderText(b) by {
      PhHasText(q, "```", "```");
    }
  }

  /** A text with a placeholder in it holds placeholder text. */
  lemma PhHasText(q: Slot, x: string, y: string)
    ensures !NoPlaceholderText(x + Ph(q) + y)
  {
    var t, P := x + Ph(q) + y, Prefix(q.kind);
    PhShape(q);
    assert t[|x|..] == Ph(q) + y;
    assert (Ph(q) + y)[..|P|] == Ph(q)[..|P|];
    StartsWithOccursAt(t, P, |x|);
  }

  lemma ReplaceWhole(p: string, rep: string)
    requires |p| > 0
    ensures Replace(p, p, rep) == rep
  {
    ReplaceStart(p, [], rep);
    assert p + [] == p && rep + [] == rep;
  }

  /** Placeholders hold no backtick and no newline. */
  lemma PhPlain(p: Slot)
    ensures NoTick(Ph(p)) && NoNewline(Ph(p))
  {
    PhShape(p);
  }

  lemma PlainJoin(x: string, m: string, y: string)
    requires NoTick(x) && NoTick(m) && NoTick(y) && NoNewline(x) && NoNewline(m) && NoNewline(y)
    ensures NoTick(x + m + y) && NoNewline(x + m + y)
  {
    var w := x + m + y;
    forall i | 0 <= i < |w| ensures w[i] != '`' && w[i] != '\n' {
      if i < |x| {
        assert w[i] == x[i];
      } else if i < |x| + |m| {
        assert w[i] == m[i - |x|];
      } else {
        assert w[i] == y[i - |x| - |m|];
      }
    }
  }

  lemma Regroup3b(a: string, b: string, c: string, d: string, e: string)
    ensures a + (b + c + d) + e == a + b + c + d + e
  {
  }

  /** A fenced block inside an inline span is lost. The fenced pass takes
      it out first; the inline pass then takes the whole span, with the
      block's placeholder inside it, so no placeholder for block 0 is left
      for the fenced restore to find. The inline restore then puts the
      span back with the placeholder `__CODE_BLOCK_0__` still in it. */
  lemma InlineSwallowsFence(x: string, c: string, y: string)
    requires |x| > 0 && NoTick(x) && NoTick(c) && NoTick(y) && NoNewline(x) && NoNewline(y)
    ensures var b := "```" + c + "```";
            var s := "`" + x + b + y + "`";
            var r := "`" + x + Ph(Slot(Fenced, 0)) + y + "`";
            Blocks(s) == [b] && Spans(s) == [r] && Compress(s) == r && !Occurs(r, b)
  {
    var b := "```" + c + "```";
    var s := "`" + x + b + y + "`";
    var P0, I0 := Ph(Slot(Fenced, 0)), Ph(Slot(Inline, 0));
    var r := "`" + x + P0 + y + "`";
    var mid := x + P0 + y;
    SwallowProtected("`", x, c, y, 0);
    assert Protect(Inline, r, 0) == (I0, [r]) by {
      PhPlain(Slot(Fenced, 0));
      PlainJoin(x, P0, y);
      InlineWhole("`", mid, 0);
      Regroup3b("`", x, P0, y, "`");
    }
    SwallowRestored(s, r, b);
    assert StartsWith(b, "``") by {
      assert b[..2] == "``";
    }
    PhPlain(Slot(Fenced, 0));
    NoFenceInSpan(r, x, P0, y, b);
  }

  /** Two backtick-free fences in a row, followed by backtick-free text,
      are protected as two placeholders. */
  lemma TwoFences(c0: string, c1: string, rest: string, n: nat)
    requires NoTick(c0) && NoTick(c1) && NoTick(rest)
    ensures var b0, b1 := "```" + c0 + "```", "```" + c1 + "```";
            var r := Protect(Fenced, b0 + b1 + rest, n);
            r.0 == Ph(Slot(Fenced, n)) + Ph(Slot(Fenced, n + 1)) + rest && r.1 == [b0, b1]
  {
    var b0, b1 := "```" + c0 + "```", "```" + c1 + "```";
    ProtectFence(c0, b1 + rest, n);
    assert b0 + (b1 + rest) == b0 + b1 + rest;
    ProtectFence(c1, rest, n + 1);
    ProtectNothing(Fenced, rest, n + 2);
    var P, Q := Ph(Slot(Fenced, n)), Ph(Slot(Fenced, n + 1));
    var inner := Protect(Fenced, b1 + rest, n + 1);
    var last := Protect(Fenced, rest, n + 2);
    assert last.0 == rest && last.1 == [];
    assert inner.0 == Q + rest;
    assert inner.1 == [b1];
    var r := Protect(Fenced, b0 + (b1 + rest), n);
    assert r.0 == P + inner.0;
    assert r.1 == [b0] + inner.1;
    assert P + (Q + rest) == P + Q + rest;
  }

  /** Two backtick-free fences followed by text, none of which holds a
      backtick-free pattern, do not hold it together either. */
  lemma FencesLack(c0: string, c1: string, tail: string, pre: string)
    requires |pre| > 0 && NoTick(pre)
    requires !Occurs(c0, pre) && !Occurs(c1, pre) && !Occurs(tail, pre)
    ensures !Occurs("```" + c0 + "```" + ("```" + c1 + "```") + tail, pre)
  {
    assert !Occurs([], pre);
    TicksSplit(c1, tail, pre);
    TicksSplit([], c1 + "```" + tail, pre);
    TicksSplit(c0, [] + "```" + (c1 + "```" + tail), pre);
    TicksSplit([], c0 + "```" + ([] + "```" + (c1 + "```" + tail)), pre);
    assert "```" + c0 + "```" + ("```" + c1 + "```") + tail
        == [] + "```" + (c0 + "```" + ([] + "```" + (c1 + "```" + tail)));
  }

  /** A placeholder without its two leading underscores holds no
      placeholder text: its only double underscore is at its end. */
  lemma PhTailFree(q: Slot)
    ensures NoPlaceholderText(Ph(q)[2..])
  {
    var P := Ph(q);
    var tail := P[2..];
    PhShape(q);
    forall kind: CodeKind, i | 0 <= i <= |tail| ensures !OccursAt(tail, Prefix(kind), i) {
      var pre := Prefix(kind);
      assert pre[0] == '_' && pre[1] == '_' && |pre| >= 13;
      if i + |pre| <= |tail| {
        OccursAtChar(tail, pre, i, i);
        OccursAtChar(tail, pre, i, i + 1);
        PhInnerUnderscores(q, i + 2);
      }
    }
  }

  /** The protection stage of the collision below. */
  lemma CollisionProtected(c0: string, c1: string)
    requires NoTick(c0) && NoTick(c1) && NoPlaceholderText(c0) && NoPlaceholderText(c1)
    ensures var b0, b1 := "```" + c0 + "```", "```" + c1 + "```";
            var P0, P1 := Ph(Slot(Fenced, 0)), Ph(Slot(Fenced, 1));
            var s := b0 + b1 + P0[2..];
            NoPlaceholderText(s) && Protect(Fenced, s, 0).0 == P0 + P1 + P0[2..] &&
            Protect(Fenced, s, 0).1 == [b0, b1]
  {
    var tail := Ph(Slot(Fenced, 0))[2..];
    assert NoTick(tail) by {
      PhShape(Slot(Fenced, 0));
    }
    assert NoPlaceholderText("```" + c0 + "```" + ("```" + c1 + "```") + tail) by {
      PhTailFree(Slot(Fenced, 0));
      FencesLack(c0, c1, tail, Prefix(Fenced));
      FencesLack(c0, c1, tail, Prefix(Inline));
    }
    TwoFences(c0, c1, tail, 0);
  }

  /** Replacing in `p + x + p`, where no occurrence of `p` starts in
      `x`: both copies are replaced. */
  lemma ReplaceBothEnds(p: string, x: string, rep: string)
    requires |p| > 0
    requires forall i | 0 <= i < |x| :: !OccursAt(x + p, p, i)
    ensures Replace(p + x + p, p, rep) == rep + x + rep
  {
    assert p + x + p == p + (x + p);
    ReplaceStart(p, x + p, rep);
    assert x + p + [] == x + p;
    ReplaceHit(x, [], p, rep);
    assert (x + p)[..|x|] == x;
    forall i | 0 <= i <= |x| ensures !OccursAt(x, p, i) {
      if i + |p| <= |x| {
        OccursAtPrefix(x + p, |x|, p, i);
      }
    }
    ReplaceAbsent(x, p, rep);
    assert Replace([], p, rep) == [];
  }

  /** A backtick-free pattern that occurs in neither `c` nor `x` does not
      occur in `x` between two copies of the fence around `c`. */
  lemma BetweenFencesLack(c: string, x: string, p: string)
    requires |p| > 0 && NoTick(p) && !Occurs(c, p) && !Occurs(x, p)
    ensures !Occurs("```" + c + "```" + x + ("```" + c + "```"), p)
  {
    assert !Occurs([], p);
    TicksSplit(c, [], p);
    TicksSplit(x, c + "```" + [], p);
    TicksSplit(c, x + "```" + (c + "```" + []), p);
    TicksSplit([], c + "```" + (x + "```" + (c + "```" + [])), p);
    assert "```" + c + "```" + x + ("```" + c + "```")
        == [] + "```" + (c + "```" + (x + "```" + (c + "```" + [])));
  }

  /** Placeholder 1 without its closing underscores, followed by
      placeholder 0, holds placeholder 0 only at its end. */
  lemma SecondHeadThenFirst(P0: string, X: string)
    requires P0 == Ph(Slot(Fenced, 0)) && X == Ph(Slot(Fenced, 1))[..14]
    ensures forall i | 0 <= i < |X| :: !OccursAt(X + P0, P0, i)
  {
    var P1 := Ph(Slot(Fenced, 1));
    PhShape(Slot(Fenced, 0));
    PhShape(Slot(Fenced, 1));
    forall i | 0 <= i < |X| ensures !OccursAt(X + P0, P0, i) {
      var w := X + P0;
      if i == 0 {
        assert w[13] == P1[13] == '1' && P0[13] == '0';
        OccursAtChar(w, P0, 0, 13);
      } else {
        OccursAtChar(w, P0, i, 14);
        OccursAtChar(w, P0, i, 15);
        PhInnerUnderscores(Slot(Fenced, 0), 14 - i);
      }
    }
  }

  /** The fenced restore stage of the collision below. */
  lemma CollisionRestored(c0: string, c1: string)
    requires NoTick(c0) && NoPlaceholderText(c0)
    ensures var b0, b1 := "```" + c0 + "```", "```" + c1 + "```";
            var P0, P1 := Ph(Slot(Fenced, 0)), Ph(Slot(Fenced, 1));
            RestoreFrom(P0 + P1 + P0[2..], Fenced, [b0, b1], 0, 2) == b0 + P1[..14] + b0
  {
    var b0, b1 := "```" + c0 + "```", "```" + c1 + "```";
    var P0, P1 := Ph(Slot(Fenced, 0)), Ph(Slot(Fenced, 1));
    PhShape(Slot(Fenced, 0));
    PhShape(Slot(Fenced, 1));
    var X := P1[..14];
    assert P1 == X + P0[..2];
    assert P0[..2] + P0[2..] == P0;
    assert P0 + P1 + P0[2..] == P0 + X + P0;
    SecondHeadThenFirst(P0, X);
    ReplaceBothEnds(P0, X, b0);
    assert !Occurs(c0, P1) by {
      if Occurs(c0, P1) {
        var i :| 0 <= i <= |c0| && OccursAt(c0, P1, i);
        PrefixOfOccurrence(c0, Slot(Fenced, 1), i);
      }
    }
    assert !Occurs(X, P1);
    BetweenFencesLack(c0, X, P1);
    ReplaceAbsent(b0 + X + b0, P1, b1);
  }

  /** The first two fenced-block placeholders, spelt out. */
  lemma FirstPlaceholders()
    ensures Ph(Slot(Fenced, 0)) == "__CODE_BLOCK_0__" && Ph(Slot(Fenced, 1)) == "__CODE_BLOCK_1__"
  {
    assert NatStr(0) == "0" && NatStr(1) == "1";
  }

  /** The sequential restore can rewrite code although the input holds no
      placeholder text: after two adjacent fenced blocks, the text
      `CODE_BLOCK_0__` completes the tail of the second placeholder into a
      copy of the first, so restoring block 0 fills both spots and breaks
      block 1's placeholder; the second block is lost. */
  lemma PlaceholderCollision(c0: string, c1: string)
    requires NoTick(c0) && NoTick(c1) && NoPlaceholderText(c0) && NoPlaceholderText(c1)
    ensures var b0, b1 := "```" + c0 + "```", "```" + c1 + "```";
            var s := b0 + b1 + Ph(Slot(Fenced, 0))[2..];
            NoPlaceholderText(s) && Blocks(s) == [b0, b1] &&
            Compress(s) == b0 + Ph(Slot(Fenced, 1))[..14] + b0 && Compress(s) != s
  {
    var b0, b1 := "```" + c0 + "```", "```" + c1 + "```";
    var P0, P1 := Ph(Slot(Fenced, 0)), Ph(Slot(Fenced, 1));
    var s := b0 + b1 + P0[2..];
    var t := P0 + P1 + P0[2..];
    var r := b0 + P1[..14] + b0;
    assert NoPlaceholderText(s) && Blocks(s) == [b0, b1] && Protect(Fenced, s, 0).0 == t by {
      CollisionProtected(c0, c1);
    }
    assert Marked(s) == t && Spans(s) == [] by {
      assert forall i | 0 <= i < |t| :: PhChar(t[i]) by {
        PhShape(Slot(Fenced, 0));
        PhShape(Slot(Fenced, 1));
      }
      PhTextUntouched(t, Inline, 0);
    }
    assert Restore(t, Fenced, [b0, b1]) == r by {
      CollisionRestored(c0, c1);
    }
    assert Compress(s) == r by {
      assert !AllSpace(s) by {
        assert s[0] == '`';
      }
      assert Restore(r, Inline, []) == r;
    }
    assert r[|b0|] == P1[0] == '_' && s[|b0|] == '`' by {
      PhShape(Slot(Fenced, 1));
    }
  }

  /** Placeholder 1 without its closing underscores, followed by
      placeholder 1, holds no copy of placeholder 0. */
  lemma NoFirstAfterSecondHead(P0: string, X: string, P1: string)
    requires P0 == Ph(Slot(Fenced, 0)) && P1 == Ph(Slot(Fenced, 1)) && X == P1[..14]
    ensures !Occurs(X + P1, P0)
  {
    PhShape(Slot(Fenced, 0));
    PhShape(Slot(Fenced, 1));
    var w := X + P1;
    assert |P0| == 16 && |P1| == 16 && P0[13] == '0' && P1[13] == '1';
    forall i | 0 <= i <= |w| ensures !OccursAt(w, P0, i) {
      if i == 0 {
        assert w[13] == P1[13];
        OccursAtChar(w, P0, 0, 13);
      } else if i < 14 {
        assert w[14] == P1[0] && w[15] == P1[1];
        OccursAtChar(w, P0, i, 14);
        OccursAtChar(w, P0, i, 15);
        PhInnerUnderscores(Slot(Fenced, 0), 14 - i);
      } else if i == 14 {
        assert w[27] == P1[13];
        OccursAtChar(w, P0, 14, 27);
      }
    }
  }

  /** A backtick-free fence on its own is protected whole. */
  lemma FenceAlone(c: string, n: nat)
    requires NoTick(c)
    ensures var b := "```" + c + "```";
            Protect(Fenced, b, n) == (Ph(Slot(Fenced, n)), [b])
  {
    var b := "```" + c + "```";
    ProtectFence(c, [], n);
    assert b + [] == b;
    assert Protect(Fenced, [], n + 1) == ([], []);
    assert Ph(Slot(Fenced, n)) + [] == Ph(Slot(Fenced, n)) && [b] + [] == [b];
  }

  /** Two copies of a backtick-free fence around backtick-free text are
      protected as placeholders `n` and `n + 1`. */
  lemma FencePairProtected(c: string, X: string, n: nat)
    requires NoTick(c) && NoTick(X)
    ensures var b := "```" + c + "```";
            Protect(Fenced, b + X + b, n) == (Ph(Slot(Fenced, n)) + X + Ph(Slot(Fenced, n + 1)), [b, b])
  {
    var b := "```" + c + "```";
    FenceAlone(c, n + 1);
    ProtectSkip(Fenced, X, b, n + 1);
    ProtectFence(c, X + b, n);
    Regroup3(b, X, b);
    Regroup3(Ph(Slot(Fenced, n)), X, Ph(Slot(Fenced, n + 1)));
    assert [b] + [b] == [b, b];
  }

  /** The text the collision produces, compressed again: its two fences
      are protected, the placeholder head between them stays text. */
  lemma RecompressProtected(c0: string)
    requires NoTick(c0)
    ensures var b0, P0, P1 := "```" + c0 + "```", Ph(Slot(Fenced, 0)), Ph(Slot(Fenced, 1));
            var X := P1[..14];
            Protect(Fenced, b0 + X + b0, 0) == (P0 + X + P1, [b0, b0])
  {
    var X := Ph(Slot(Fenced, 1))[..14];
    assert NoTick(X) by {
      PhPlain(Slot(Fenced, 1));
    }
    FencePairProtected(c0, X, 0);
  }

  /** The first restore of that text fills placeholder 0 only. */
  lemma RecompressFirst(P0: string, X: string, P1: string, b0: string)
    requires P0 == Ph(Slot(Fenced, 0)) && P1 == Ph(Slot(Fenced, 1)) && X == P1[..14]
    ensures |P0| > 0 && Replace(P0 + X + P1, P0, b0) == b0 + (X + P1)
  {
    PhShape(Slot(Fenced, 0));
    NoFirstAfterSecondHead(P0, X, P1);
    ReplaceStart(P0, X + P1, b0);
    ReplaceAbsent(X + P1, P0, b0);
    Regroup3(P0, X, P1);
  }

  lemma Regroup3(a: string, b: string, c: string)
    ensures a + b + c == a + (b + c)
  {
  }

  /** The head of placeholder 1 followed by placeholder 1 is placeholder 1
      followed by its tail. */
  lemma HeadThenWhole(P1: string)
    requires P1 == Ph(Slot(Fenced, 1))
    ensures |P1| == 16 && P1[..14] + P1 == P1 + P1[2..]
  {
    PhShape(Slot(Fenced, 1));
    assert |P1| == 16 && P1[14] == '_' && P1[15] == '_';
    assert P1 == P1[..14] + P1[14..] && P1[14..] == P1[..2];
    assert P1[..2] + P1[2..] == P1;
  }

  /** A backtick-free fence around text without placeholder text holds
      no placeholder. */
  lemma FenceLacksPh(c: string, p: Slot)
    requires NoTick(c) && NoPlaceholderText(c)
    ensures !Occurs("```" + c + "```", Ph(p))
  {
    PhShape(p);
    NoPhIn(c, p);
    assert !Occurs([], Ph(p));
    TicksSplit(c, [], Ph(p));
    TicksSplit([], c + "```" + [], Ph(p));
    assert "```" + c + "```" == [] + "```" + (c + "```" + []);
  }

  /** The second restore fills the placeholder 1 right after the first
      block and leaves the tail. */
  lemma RecompressSecond(b0: string, P1: string, T: string)
    requires P1 == Ph(Slot(Fenced, 1)) && |b0| > 0 && b0[|b0| - 1] == '`'
    requires !Occurs(b0, P1) && !Occurs(T, P1)
    ensures |P1| > 0 && Replace(b0 + P1 + T, P1, b0) == b0 + b0 + T
  {
    PhShape(Slot(Fenced, 1));
    var w := b0 + P1 + T;
    forall i | 0 <= i < |b0| && |b0| < i + |P1| ensures !OccursAt(w, P1, i) {
      assert w[|b0| - 1] == '`';
      NoPhOver(w, |b0| - 1, Slot(Fenced, 1), i);
    }
    ReplaceHit(b0, T, P1, b0);
    ReplaceAbsent(b0, P1, b0);
    ReplaceAbsent(T, P1, b0);
  }

  /** Restoring the two fences of that text: the first `replace` fills
      placeholder 0, the second fills the placeholder 1 that now starts
      right after the placeholder head, leaving its tail as text. */
  lemma RecompressRestored(c0: string)
    requires NoTick(c0) && NoPlaceholderText(c0)
    ensures var b0, P0, P1 := "```" + c0 + "```", Ph(Slot(Fenced, 0)), Ph(Slot(Fenced, 1));
            RestoreFrom(P0 + P1[..14] + P1, Fenced, [b0, b0], 0, 2) == b0 + b0 + P1[2..]
  {
    var b0, P0, P1 := "```" + c0 + "```", Ph(Slot(Fenced, 0)), Ph(Slot(Fenced, 1));
    var X, T := P1[..14], P1[2..];
    RecompressFirst(P0, X, P1, b0);
    HeadThenWhole(P1);
    assert b0[|b0| - 1] == '`';
    FenceLacksPh(c0, Slot(Fenced, 1));
    assert !Occurs(T, P1) by {
      PhTailFree(Slot(Fenced, 1));
      NoPhIn(T, Slot(Fenced, 1));
    }
    RecompressSecond(b0, P1, T);
    Regroup3(b0, P1, T);
  }

  /** The output of the collision, compressed again, is
      `b0 + b0 + "CODE_BLOCK_1__"`. */
  lemma CollisionRecompressed(c0: string)
    requires NoTick(c0) && NoPlaceholderText(c0)
    ensures var b0, P1 := "```" + c0 + "```", Ph(Slot(Fenced, 1));
            Compress(b0 + P1[..14] + b0) == b0 + b0 + P1[2..]
  {
    var b0, P0, P1 := "```" + c0 + "```", Ph(Slot(Fenced, 0)), Ph(Slot(Fenced, 1));
    var s := b0 + P1[..14] + b0;
    var t := P0 + P1[..14] + P1;
    assert Protect(Fenced, s, 0) == (t, [b0, b0]) by {
      RecompressProtected(c0);
    }
    assert forall i | 0 <= i < |t| :: PhChar(t[i]) by {
      PhShape(Slot(Fenced, 0));
      PhShape(Slot(Fenced, 1));
    }
    assert s[0] == '`';
    CompressOfPhText(s, t, [b0, b0]);
    RecompressRestored(c0);
  }

  /** When the fenced pass leaves only placeholder characters, the markup
      passes and the inline pass keep them, and compressing is restoring
      the fenced blocks. */
  lemma {:induction false} CompressOfPhText(s: string, t: string, items: seq<string>)
    requires |s| > 0 && s[0] == '`' && Protect(Fenced, s, 0) == (t, items)
    requires forall i | 0 <= i < |t| :: PhChar(t[i])
    ensures Compress(s) == Restore(t, Fenced, items)
  {
    MarkedPhText(s, t, items);
    RestoreNone(Restore(t, Fenced, items), Inline);
    assert !IsSpace(s[0]);
  }

  lemma MarkedPhText(s: string, t: string, items: seq<string>)
    requires Protect(Fenced, s, 0) == (t, items)
    requires forall i | 0 <= i < |t| :: PhChar(t[i])
    ensures Marked(s) == t && Spans(s) == [] && Blocks(s) == items
  {
    PhTextUntouched(t, Inline, 0);
  }

  /** A restore loop with nothing to restore changes nothing. */
  lemma RestoreNone(c: string, kind: CodeKind)
    ensures Restore(c, kind, []) == c
  {
  }

  /** Compressing is not idempotent once code is involved: compressing the
      collision's output changes it again. */
  lemma CompressNotIdempotent(c0: string, c1: string)
    requires NoTick(c0) && NoTick(c1) && NoPlaceholderText(c0) && NoPlaceholderText(c1)
    ensures var s := "```" + c0 + "```" + ("```" + c1 + "```") + Ph(Slot(Fenced, 0))[2..];
            Compress(Compress(s)) != Compress(s)
  {
    var b0, b1 := "```" + c0 + "```", "```" + c1 + "```";
    var P1 := Ph(Slot(Fenced, 1));
    var s := b0 + b1 + Ph(Slot(Fenced, 0))[2..];
    var r := b0 + P1[..14] + b0;
    assert Compress(s) == r by {
      PlaceholderCollision(c0, c1);
    }
    assert Compress(r) == b0 + b0 + P1[2..] by {
      CollisionRecompressed(c0);
    }
    assert (b0 + b0 + P1[2..])[|b0|] == '`' && r[|b0|] == P1[0] == '_' by {
      PhShape(Slot(Fenced, 1));
    }
  }
}
