/** Character and string helpers: prefixes, occurrences, searches,
    Python's notion of whitespace and decimal rendering of numbers. */
module Text {
  import opened Wrappers

  predicate StartsWith(s: string, p: string) {
    |p| <= |s| && s[..|p|] == p
  }

  predicate EndsWith(s: string, p: string) {
    |p| <= |s| && s[|s| - |p|..] == p
  }

  /** `p` occurs in `s` starting at index `i`. */
  predicate OccursAt(s: string, p: string, i: int) {
    0 <= i && i + |p| <= |s| && s[i..i + |p|] == p
  }

  predicate Occurs(s: string, p: string) {
    exists i | 0 <= i <= |s| :: OccursAt(s, p, i)
  }

  /** The characters Python's `str.strip()` removes and its regular
      expressions match with `\s`. */
  predicate IsSpace(c: char) {
    var n := c as int;
    n == 32 || 9 <= n <= 13 || 28 <= n <= 31 || n == 0x85 || n == 0xA0 ||
    n == 0x1680 || 0x2000 <= n <= 0x200A || n == 0x2028 || n == 0x2029 ||
    n == 0x202F || n == 0x205F || n == 0x3000
  }

  /** `len(s.strip()) == 0`: empty or made of whitespace only. */
  predicate AllSpace(s: string) {
    forall i | 0 <= i < |s| :: IsSpace(s[i])
  }

  predicate IsDigit(c: char) {
    '0' <= c <= '9'
  }

  function DigitChar(d: nat): (c: char)
    requires d < 10
    ensures IsDigit(c) && c as int - '0' as int == d
  {
    (d + '0' as int) as char
  }

  /** Python's `str(n)` for a non-negative integer. */
  function NatStr(n: nat): (r: string)
    ensures |r| >= 1
    ensures forall i | 0 <= i < |r| :: IsDigit(r[i])
    ensures n >= 10 <==> |r| >= 2
    decreases n
  {
    if n < 10 then [DigitChar(n)] else NatStr(n / 10) + [DigitChar(n % 10)]
  }

  /** Distinct numbers get distinct decimal renderings. */
  lemma {:induction false} NatStrInjective(a: nat, b: nat)
    requires NatStr(a) == NatStr(b)
    ensures a == b
    decreases a
  {
    if a >= 10 && b >= 10 {
      var ra, rb := NatStr(a), NatStr(b);
      assert ra[|ra| - 1] == rb[|rb| - 1];
      assert a % 10 == b % 10;
      assert NatStr(a / 10) == ra[..|ra| - 1] == rb[..|rb| - 1] == NatStr(b / 10);
      NatStrInjective(a / 10, b / 10);
    }
  }

  lemma OccursAtSuffix(s: string, p: string, k: nat, i: nat)
    requires k <= |s|
    ensures OccursAt(s[k..], p, i) <==> OccursAt(s, p, i + k)
  {
    if i + |p| <= |s| - k {
      assert s[k..][i..i + |p|] == s[i + k..i + k + |p|];
    }
  }

  lemma StartsWithOccursAt(s: string, p: string, k: nat)
    requires k <= |s|
    ensures StartsWith(s[k..], p) <==> OccursAt(s, p, k)
  {
    if |p| <= |s| - k {
      assert s[k..][..|p|] == s[k..k + |p|];
    }
  }

  /** An occurrence inside a prefix of `s` is an occurrence in `s`, and back. */
  lemma OccursAtPrefix(s: string, n: nat, p: string, i: int)
    requires n <= |s|
    requires i + |p| <= n
    ensures OccursAt(s[..n], p, i) <==> OccursAt(s, p, i)
  {
    if 0 <= i {
      assert s[..n][i..i + |p|] == s[i..i + |p|];
    }
  }

  /** A character inside an occurrence is the pattern's character. */
  lemma OccursAtChar(s: string, pat: string, i: int, j: int)
    requires 0 <= i <= j < i + |pat|
    ensures OccursAt(s, pat, i) ==> s[j] == pat[j - i]
  {
    if OccursAt(s, pat, i) {
      assert s[i..i + |pat|][j - i] == s[j];
    }
  }

  /** An occurrence that lies within the middle piece of `a + m + b` is an
      occurrence in `m`, and back. */
  lemma OccursInside(a: string, m: string, b: string, p: string, i: int)
    requires |a| <= i && i + |p| <= |a| + |m|
    ensures OccursAt(a + m + b, p, i) <==> OccursAt(m, p, i - |a|)
  {
    var s := a + m + b;
    assert s[|a|..|a| + |m|] == m;
    assert s[i..i + |p|] == m[i - |a|..i - |a| + |p|];
  }

  /** The first index at or after `k` where `p` occurs in `s`
      (the leftmost match of a literal). */
  function FindFrom(s: string, p: string, k: nat): (r: Option<nat>)
    ensures r.Some? ==> k <= r.value && OccursAt(s, p, r.value)
    ensures r.Some? ==> forall i | k <= i < r.value :: !OccursAt(s, p, i)
    ensures r.None? ==> forall i | k <= i :: !OccursAt(s, p, i)
    decreases |s| - k
  {
    if k + |p| > |s| then None
    else if s[k..k + |p|] == p then Some(k)
    else FindFrom(s, p, k + 1)
  }

  lemma SliceSplit(s: string, i: nat, j: nat, l: nat)
    requires i <= j <= l <= |s|
    ensures s[i..l] == s[i..j] + s[j..l]
  {
  }

  /** The first occurrence at or after `k` is the one found. */
  lemma FindFromAt(s: string, p: string, k: nat, j: nat)
    requires k <= j && OccursAt(s, p, j)
    requires forall i | k <= i < j :: !OccursAt(s, p, i)
    ensures FindFrom(s, p, k) == Some(j)
  {
  }

  /** The first index at or after `k` holding a character of `cs`. */
  function FindIn(s: string, cs: set<char>, k: nat): (r: Option<nat>)
    ensures r.Some? ==> k <= r.value < |s| && s[r.value] in cs
    ensures r.Some? ==> forall i | k <= i < r.value :: s[i] !in cs
    ensures r.None? ==> forall i | k <= i < |s| :: s[i] !in cs
    decreases |s| - k
  {
    if k >= |s| then None
    else if s[k] in cs then Some(k)
    else FindIn(s, cs, k + 1)
  }

  /** The first character of `cs` at or after `k` is the one found. */
  lemma FindInAt(s: string, cs: set<char>, k: nat, j: nat)
    requires k <= j < |s| && s[j] in cs
    requires forall i | k <= i < j :: s[i] !in cs
    ensures FindIn(s, cs, k) == Some(j)
  {
  }

  /** The first index at or after `k` that is not whitespace, or `|s|`:
      where a greedy `\s*` stops. */
  function SkipSpace(s: string, k: nat): (r: nat)
    requires k <= |s|
    ensures k <= r <= |s|
    ensures forall i | k <= i < r :: IsSpace(s[i])
    ensures r < |s| ==> !IsSpace(s[r])
    decreases |s| - k
  {
    if k == |s| || !IsSpace(s[k]) then k else SkipSpace(s, k + 1)
  }

  /** The strings `f` gives for each element of `xs`, in order. */
  function Flat<T>(xs: seq<T>, f: T -> seq<string>): seq<string>
    decreases |xs|
  {
    if |xs| == 0 then [] else Flat(xs[..|xs| - 1], f) + f(xs[|xs| - 1])
  }

  lemma FlatLast<T>(s: seq<T>, f: T -> seq<string>)
    requires |s| > 0
    ensures Flat(s, f) == Flat(s[..|s| - 1], f) + f(s[|s| - 1])
  {
  }

  lemma {:induction false} FlatAppend<T>(a: seq<T>, b: seq<T>, f: T -> seq<string>)
    ensures Flat(a + b, f) == Flat(a, f) + Flat(b, f)
    decreases |b|
  {
    if |b| == 0 {
      assert a + b == a;
    } else {
      var n := |b| - 1;
      assert (a + b)[..|a + b| - 1] == a + b[..n];
      assert (a + b)[|a + b| - 1] == b[n];
      FlatAppend(a, b[..n], f);
      FlatLast(a + b, f);
      FlatLast(b, f);
    }
  }
}
