/** The compressor's six markup rewrites. Each `re.sub` is a leftmost,
    non-overlapping scan: at every position the pattern is tried, a match
    is replaced and the scan resumes after it, and otherwise one
    character is kept. `MatchAt` is what the pattern matches at the head
    of a text, with Python's greedy and lazy backtracking worked out. */
module Passes {
  import opened Wrappers
  import opened Text

  /** A match at the head of a text: the length it covers and what
      replaces it. */
  datatype Match = Match(len: nat, repl: string)

  /** The six rewrites, in the order the compressor applies them. */
  datatype Pass =
    | DivImage   // a `div` holding an image with an alt text, up to `</div>`: the alt text in brackets
    | ImageAlt   // an `img` tag with an alt text: the alt text in brackets
    | ImageBare  // any other `img` tag: `[image]`
    | ImageRun   // two or more `[image]` tokens with only whitespace after each: `[images]`
    | UrlScheme  // `http://` or `https://`, and a `www.` right after it: removed
    | Tag        // `<`, at least one character other than `>`, then `>`: removed

  const Alt: string := "alt=\""
  const Image: string := "[image]"

  /** Where a greedy `[^>]*` that starts at `k` stops: at the first `>`
      at or after `k`, or at the end. */
  function UpToGt(t: string, k: nat): (g: nat)
    requires k <= |t|
    ensures k <= g <= |t|
    ensures forall i | k <= i < g :: t[i] != '>'
    ensures g < |t| ==> t[g] == '>'
  {
    match FindIn(t, {'>'}, k)
    case Some(g) => g
    case None => |t|
  }

  /** The rest of an image-with-alt match once `alt="` is taken at `p`,
      up to the tag's end: the lazy capture ends at the first `"` (index
      `q`) and `[^>]*>` runs to the next `>` (index `g`). */
  function AltTag(t: string, p: nat): (r: Option<(nat, nat)>)
    ensures r.Some? ==> OccursAt(t, Alt, p) && p + 5 <= r.value.0 < r.value.1 < |t|
    ensures r.Some? ==> t[r.value.0] == '"' && forall i | p + 5 <= i < r.value.0 :: t[i] != '"'
    ensures r.Some? ==> t[r.value.1] == '>' && forall i | r.value.0 < i < r.value.1 :: t[i] != '>'
  {
    if !OccursAt(t, Alt, p) then None
    else match FindIn(t, {'"'}, p + 5)
      case None => None
      case Some(q) =>
        match FindIn(t, {'>'}, q + 1)
        case None => None
        case Some(g) => Some((q, g))
  }

  /** The whole rest of the match: in the `div` form a lazy `.*?</div>`
      follows the tag. The result is `q` and the end of the match. */
  function AltEnd(t: string, p: nat, div: bool): (r: Option<(nat, nat)>)
    ensures r.Some? ==> OccursAt(t, Alt, p) && p + 5 <= r.value.0 < r.value.1 <= |t|
    ensures r.Some? ==> t[r.value.0] == '"' && forall i | p + 5 <= i < r.value.0 :: t[i] != '"'
  {
    match AltTag(t, p)
    case None => None
    case Some((q, g)) =>
      if !div then Some((q, g + 1))
      else match FindFrom(t, "</div>", g + 1)
        case None => None
        case Some(c) => Some((q, c + 6))
  }

  /** The greedy `[^>]*` before `alt="` gives the positions `p` from the
      largest down to `lo`; the first that lets the rest match wins. */
  function AltSearch(t: string, lo: nat, p: int, div: bool): (r: Option<Match>)
    ensures r.Some? ==> 0 < r.value.len <= |t|
    decreases p - lo + 1
  {
    if p < lo then None
    else match AltEnd(t, p, div)
      case Some((q, e)) => Some(Match(e, "[" + t[p + 5..q] + "]"))
      case None => AltSearch(t, lo, p - 1, div)
  }

  /** Where `<div[^>]*>\s*` stops, if `<img` follows there. */
  function DivImageStart(t: string): (w: Option<nat>)
    ensures w.Some? ==> OccursAt(t, "<img", w.value)
  {
    if !StartsWith(t, "<div") then None
    else match FindIn(t, {'>'}, 4)
      case None => None
      case Some(d) =>
        var w := SkipSpace(t, d + 1);
        if OccursAt(t, "<img", w) then Some(w) else None
  }

  function DivImageAt(t: string): (r: Option<Match>)
    ensures r.Some? ==> 0 < r.value.len <= |t|
  {
    match DivImageStart(t)
    case None => None
    case Some(w) => AltSearch(t, w + 4, UpToGt(t, w + 4), true)
  }

  function ImageAltAt(t: string): (r: Option<Match>)
    ensures r.Some? ==> 0 < r.value.len <= |t|
  {
    if !StartsWith(t, "<img") then None
    else AltSearch(t, 4, UpToGt(t, 4), false)
  }

  function ImageBareAt(t: string): (r: Option<Match>)
    ensures r.Some? ==> 0 < r.value.len <= |t|
  {
    if !StartsWith(t, "<img") then None
    else match FindIn(t, {'>'}, 4)
      case None => None
      case Some(g) => Some(Match(g + 1, "[image]"))
  }

  /** The greedy repetition of `\[image\]\s*` from `k`: how many tokens it
      takes and where it stops. */
  function Run(t: string, k: nat): (r: (nat, nat))
    requires k <= |t|
    ensures k <= r.1 <= |t|
    ensures r.0 == 0 <==> !OccursAt(t, Image, k)
    ensures r.0 == 0 ==> r.1 == k
    ensures r.0 > 0 ==> r.1 >= k + 7 && !OccursAt(t, Image, r.1) && (r.1 == |t| || !IsSpace(t[r.1]))
    decreases |t| - k
  {
    if OccursAt(t, Image, k) then
      var next := Run(t, SkipSpace(t, k + 7));
      (next.0 + 1, next.1)
    else (0, k)
  }

  function ImageRunAt(t: string): (r: Option<Match>)
    ensures r.Some? ==> 0 < r.value.len <= |t|
  {
    var run := Run(t, 0);
    if run.0 >= 2 then Some(Match(run.1, "[images]")) else None
  }

  function UrlSchemeAt(t: string): (r: Option<Match>)
    ensures r.Some? ==> 0 < r.value.len <= |t|
  {
    var n := if StartsWith(t, "https://") then 8 else if StartsWith(t, "http://") then 7 else 0;
    if n == 0 then None
    else Some(Match(if OccursAt(t, "www.", n) then n + 4 else n, ""))
  }

  function TagAt(t: string): (r: Option<Match>)
    ensures r.Some? ==> 0 < r.value.len <= |t|
  {
    if |t| >= 2 && t[0] == '<' && t[1] != '>' then
      match FindIn(t, {'>'}, 2)
      case None => None
      case Some(g) => Some(Match(g + 1, ""))
    else None
  }

  function MatchAt(p: Pass, t: string): (r: Option<Match>)
    ensures r.Some? ==> 0 < r.value.len <= |t|
  {
    match p
    case DivImage => DivImageAt(t)
    case ImageAlt => ImageAltAt(t)
    case ImageBare => ImageBareAt(t)
    case ImageRun => ImageRunAt(t)
    case UrlScheme => UrlSchemeAt(t)
    case Tag => TagAt(t)
  }

  /** `re.sub(pattern, replacement, s)` for one of the passes. */
  function Sub(p: Pass, s: string): string
    decreases |s|
  {
    if |s| == 0 then []
    else match MatchAt(p, s)
      case Some(m) => m.repl + Sub(p, s[m.len..])
      case None => [s[0]] + Sub(p, s[1..])
  }

  /** The markup passes in the compressor's order. */
  function Markup(s: string): string {
    Sub(Tag, Sub(UrlScheme, Sub(ImageRun, Sub(ImageBare, Sub(ImageAlt, Sub(DivImage, s))))))
  }

  /** An image tag `<img attrs alt="x" more>`. */
  function AltImage(attrs: string, x: string, more: string): string {
    "<img" + attrs + Alt + x + "\"" + more + ">"
  }

  /** Where no match starts in the first `k` characters, the scan keeps
      them as they are. */
  lemma {:induction false} SubKeep(p: Pass, s: string, k: nat)
    requires k <= |s|
    requires forall i | 0 <= i < k :: MatchAt(p, s[i..]).None?
    ensures Sub(p, s) == s[..k] + Sub(p, s[k..])
    decreases k
  {
    assert s[0..] == s;
    if k > 0 {
      var s' := s[1..];
      forall i | 0 <= i < k - 1 ensures MatchAt(p, s'[i..]).None? {
        assert s'[i..] == s[i + 1..];
      }
      SubKeep(p, s', k - 1);
      assert s'[k - 1..] == s[k..];
      assert s[..k] == [s[0]] + s'[..k - 1];
    }
  }

  /** A text in which the pattern matches nowhere is left unchanged. */
  lemma SubNoMatch(p: Pass, s: string)
    requires forall i | 0 <= i < |s| :: MatchAt(p, s[i..]).None?
    ensures Sub(p, s) == s
  {
    SubKeep(p, s, |s|);
    assert s[|s|..] == [];
  }

  /** A match at the head is replaced and the scan goes on after it. */
  lemma SubHead(p: Pass, m: string, rest: string, repl: string)
    requires MatchAt(p, m + rest) == Some(Match(|m|, repl))
    ensures Sub(p, m + rest) == repl + Sub(p, rest)
  {
    assert (m + rest)[|m|..] == rest;
  }

  /** Candidate positions for `alt="` that hold no `alt="` are passed over. */
  lemma {:induction false} AltSearchSkip(t: string, lo: nat, hi: int, p: nat, div: bool)
    requires lo <= p <= hi
    requires forall i | p < i <= hi :: !OccursAt(t, Alt, i)
    ensures AltSearch(t, lo, hi, div) == AltSearch(t, lo, p, div)
    decreases hi - p
  {
    if hi > p {
      assert AltEnd(t, hi, div).None?;
      AltSearchSkip(t, lo, hi - 1, p, div);
    }
  }

  /** Once `alt="` is taken at `p`, the capture runs to the first quote
      `q` and the match to the next `>` at `g`. */
  lemma AltEndAt(t: string, p: nat, q: nat, g: nat)
    requires OccursAt(t, Alt, p)
    requires p + 5 <= q < g < |t| && t[q] == '"' && t[g] == '>'
    requires forall i | p + 5 <= i < q :: t[i] != '"'
    requires forall i | q < i < g :: t[i] != '>'
    ensures AltTag(t, p) == Some((q, g))
    ensures AltEnd(t, p, false) == Some((q, g + 1))
  {
    FindInAt(t, {'"'}, p + 5, q);
    FindInAt(t, {'>'}, q + 1, g);
  }

  /** No `alt="` starts after `p` and up to the first `>` that follows,
      when none starts between `p + 5` and the `>` at `g`. */
  lemma NoLaterAlt(t: string, p: nat, g: nat, u: nat)
    requires OccursAt(t, Alt, p) && p + 5 <= u <= g < |t| && t[g] == '>'
    requires forall i | p + 5 <= i && i + 5 <= g :: !OccursAt(t, Alt, i)
    ensures forall i | p < i <= u :: !OccursAt(t, Alt, i)
  {
    assert forall i | p <= i < p + 5 :: t[i] == Alt[i - p] by {
      assert t[p..p + 5] == Alt;
    }
    forall i | p < i <= u ensures !OccursAt(t, Alt, i) {
      if i < p + 5 {
        OccursAtChar(t, Alt, i, i);
      } else if i + 5 > g {
        OccursAtChar(t, Alt, i, g);
      }
    }
  }

  /** The greedy `[^>]*` from `lo` backs off to the last `alt="` before
      the tag's end. */
  lemma AltSearchFrom(t: string, lo: nat, p: nat, g: nat, div: bool)
    requires lo <= p && OccursAt(t, Alt, p) && p + 5 <= g < |t| && t[g] == '>'
    requires forall i | lo <= i < p :: t[i] != '>'
    requires forall i | p + 5 <= i && i + 5 <= g :: !OccursAt(t, Alt, i)
    ensures AltSearch(t, lo, UpToGt(t, lo), div) == AltSearch(t, lo, p, div)
  {
    var u := UpToGt(t, lo);
    assert forall i | p <= i < p + 5 :: t[i] != '>' by {
      assert t[p..p + 5] == Alt;
    }
    assert p + 5 <= u <= g;
    NoLaterAlt(t, p, g, u);
    AltSearchSkip(t, lo, u, p, div);
  }

  /** The image pattern's match at the head of a text, given where its
      pieces lie: `alt="` at `p`, the closing quote at `q`, the tag's `>`
      at `g`, and no later `alt="` before that `>`. */
  lemma ImageAltAtPieces(t: string, p: nat, q: nat, g: nat)
    requires StartsWith(t, "<img") && 4 <= p && OccursAt(t, Alt, p)
    requires forall i | 4 <= i < p :: t[i] != '>'
    requires p + 5 <= q < g < |t| && t[q] == '"' && t[g] == '>'
    requires forall i | p + 5 <= i < q :: t[i] != '"'
    requires forall i | q < i < g :: t[i] != '>'
    requires forall i | p + 5 <= i && i + 5 <= g :: !OccursAt(t, Alt, i)
    ensures ImageAltAt(t) == Some(Match(g + 1, "[" + t[p + 5..q] + "]"))
  {
    AltSearchFrom(t, 4, p, g, false);
    AltEndAt(t, p, q, g);
  }

  /** In the `div` form, the match then runs to the first `</div>` at `c`. */
  lemma AltEndDivAt(t: string, lo: nat, p: nat, q: nat, g: nat, c: nat)
    requires lo <= p
    requires OccursAt(t, Alt, p) && OccursAt(t, "</div>", c)
    requires p + 5 <= q < g < c && t[q] == '"' && t[g] == '>'
    requires forall i | p + 5 <= i < q :: t[i] != '"'
    requires forall i | q < i < g :: t[i] != '>'
    requires forall i | g < i < c :: !OccursAt(t, "</div>", i)
    ensures AltSearch(t, lo, p, true) == Some(Match(c + 6, "[" + t[p + 5..q] + "]"))
  {
    AltEndDiv(t, p, q, g, c);
  }

  lemma AltEndDiv(t: string, p: nat, q: nat, g: nat, c: nat)
    requires OccursAt(t, Alt, p) && OccursAt(t, "</div>", c)
    requires p + 5 <= q < g < c && t[q] == '"' && t[g] == '>'
    requires forall i | p + 5 <= i < q :: t[i] != '"'
    requires forall i | q < i < g :: t[i] != '>'
    requires forall i | g < i < c :: !OccursAt(t, "</div>", i)
    ensures AltEnd(t, p, true) == Some((q, c + 6))
  {
    AltEndAt(t, p, q, g);
    FindFromAt(t, "</div>", g + 1, c);
  }

  /** The head of the div-wrapped form: `<div`, its attributes up to the
      `>` at `d`, whitespace, and `<img` at `w`; the match is then the
      alt search after `<img`, which `DivAltPieces` settles. */
  lemma DivHead(t: string, d: nat, w: nat)
    requires StartsWith(t, "<div") && OccursAt(t, "<img", w) && 4 <= d < w
    requires t[d] == '>' && forall i | 4 <= i < d :: t[i] != '>'
    requires forall i | d < i < w :: IsSpace(t[i])
    ensures DivImageStart(t) == Some(w)
    ensures DivImageAt(t) == AltSearch(t, w + 4, UpToGt(t, w + 4), true)
  {
    DivStart(t, d, w);
    DivAt(t, w);
  }

  /** Once the image start is known, the match is the alt search after
      `<img`. */
  lemma DivAt(t: string, w: nat)
    requires DivImageStart(t) == Some(w)
    ensures DivImageAt(t) == AltSearch(t, w + 4, UpToGt(t, w + 4), true)
  {
  }

  /** Where the `div` head and the whitespace after it stop. */
  lemma DivStart(t: string, d: nat, w: nat)
    requires StartsWith(t, "<div") && OccursAt(t, "<img", w) && 4 <= d < w
    requires t[d] == '>' && forall i | 4 <= i < d :: t[i] != '>'
    requires forall i | d < i < w :: IsSpace(t[i])
    ensures DivImageStart(t) == Some(w)
  {
    assert FindIn(t, {'>'}, 4) == Some(d) by {
      FindInAt(t, {'>'}, 4, d);
    }
    assert SkipSpace(t, d + 1) == w by {
      DivSpaceSkipped(t, d, w);
    }
  }

  /** The whitespace after the `div` head is skipped up to the `<img`. */
  lemma DivSpaceSkipped(t: string, d: nat, w: nat)
    requires OccursAt(t, "<img", w) && d < w
    requires forall i | d < i < w :: IsSpace(t[i])
    ensures SkipSpace(t, d + 1) == w
  {
    OccursAtChar(t, "<img", w, w);
  }

  /** The image part of the div-wrapped form, from `lo` just after `<img`:
      the alt attribute as in the bare form, then the first `</div>` after
      the tag at `c`. */
  lemma DivAltPieces(t: string, lo: nat, p: nat, q: nat, g: nat, c: nat)
    requires OccursAt(t, Alt, p) && OccursAt(t, "</div>", c)
    requires lo <= p && forall i | lo <= i < p :: t[i] != '>'
    requires p + 5 <= q < g < c && t[q] == '"' && t[g] == '>'
    requires forall i | p + 5 <= i < q :: t[i] != '"'
    requires forall i | q < i < g :: t[i] != '>'
    requires forall i | p + 5 <= i && i + 5 <= g :: !OccursAt(t, Alt, i)
    requires forall i | g < i < c :: !OccursAt(t, "</div>", i)
    ensures AltSearch(t, lo, UpToGt(t, lo), true) == Some(Match(c + 6, "[" + t[p + 5..q] + "]"))
  {
    AltSearchFrom(t, lo, p, g, true);
    AltEndDivAt(t, lo, p, q, g, c);
  }

/** The image pattern's match at the head of an `<img>` tag with an
      `alt` attribute: the whole tag, replaced by the alt text in
      brackets. The attribute is the last `alt="` before the tag's end. */
  lemma ImageAltMatch(a: string, x: string, b: string, rest: string)
    requires forall i | 0 <= i < |a| :: a[i] != '>'
    requires forall i | 0 <= i < |x| :: x[i] != '"'
    requires forall i | 0 <= i < |b| :: b[i] != '>'
    requires !Occurs(x + "\"" + b, Alt)
    ensures ImageAltAt(AltImage(a, x, b) + rest) == Some(Match(|AltImage(a, x, b)|, "[" + x + "]"))
  {
    var t := AltImage(a, x, b) + rest;
    var p, q := 4 + |a|, 4 + |a| + 5 + |x|;
    var g := q + 1 + |b|;
    assert ImageAltAt(t) == Some(Match(g + 1, "[" + t[p + 5..q] + "]")) by {
      AltImageFixed(a, x, b, rest);
      AltImageFree(a, x, b, rest);
      AltImageNoAlt(a, x, b, rest);
      ImageAltAtPieces(t, p, q, g);
    }
    assert t[p + 5..q] == x && |AltImage(a, x, b)| == g + 1 by {
      AltImageFixed(a, x, b, rest);
    }
  }

  /** Where the fixed pieces of an image tag lie. */
  lemma AltImageFixed(a: string, x: string, b: string, rest: string)
    ensures var t, p := AltImage(a, x, b) + rest, 4 + |a|;
            var q := p + 5 + |x|;
            var g := q + 1 + |b|;
            |AltImage(a, x, b)| == g + 1 && StartsWith(t, "<img") && OccursAt(t, Alt, p) &&
            t[p + 5..q] == x && t[q] == '"' && t[g] == '>'
  {
    var t, p := AltImage(a, x, b) + rest, 4 + |a|;
    var q := p + 5 + |x|;
    assert t[..4] == "<img";
    assert t[p..p + 5] == Alt;
    assert t[p + 5..q] == x;
  }

  /** The attribute stretches of an image tag hold no `>` and the
      captured value no quote. */
  lemma AltImageFree(a: string, x: string, b: string, rest: string)
    requires forall i | 0 <= i < |a| :: a[i] != '>'
    requires forall i | 0 <= i < |x| :: x[i] != '"'
    requires forall i | 0 <= i < |b| :: b[i] != '>'
    ensures var t, p := AltImage(a, x, b) + rest, 4 + |a|;
            var q := p + 5 + |x|;
            var g := q + 1 + |b|;
            (forall i | 4 <= i < p :: t[i] != '>') && (forall i | p + 5 <= i < q :: t[i] != '"') &&
            (forall i | q < i < g :: t[i] != '>')
  {
    var t, p := AltImage(a, x, b) + rest, 4 + |a|;
    var q := p + 5 + |x|;
    var g := q + 1 + |b|;
    forall i | 4 <= i < p ensures t[i] == a[i - 4] {
    }
    forall i | p + 5 <= i < q ensures t[i] == x[i - p - 5] {
    }
    forall i | q < i < g ensures t[i] == b[i - q - 1] {
    }
  }

  /** No `alt="` starts after the attribute's own one inside the tag. */
  lemma AltImageNoAlt(a: string, x: string, b: string, rest: string)
    requires !Occurs(x + "\"" + b, Alt)
    ensures var t, p := AltImage(a, x, b) + rest, 4 + |a|;
            var g := p + 5 + |x| + 1 + |b|;
            forall i | p + 5 <= i && i + 5 <= g :: !OccursAt(t, Alt, i)
  {
    var mid := x + "\"" + b;
    var head := "<img" + a + Alt;
    var t, p := AltImage(a, x, b) + rest, 4 + |a|;
    var g := p + 5 + |x| + 1 + |b|;
    assert t == head + mid + (">" + rest);
    forall i | p + 5 <= i && i + 5 <= g ensures !OccursAt(t, Alt, i) {
      OccursInside(head, mid, ">" + rest, Alt, i);
      assert 0 <= i - |head| <= |mid|;
    }
  }

  /** An `<img ... alt="x" ...>` tag becomes `[x]`. */
  lemma ImageAltRewrite(a: string, x: string, b: string, rest: string)
    requires forall i | 0 <= i < |a| :: a[i] != '>'
    requires forall i | 0 <= i < |x| :: x[i] != '"'
    requires forall i | 0 <= i < |b| :: b[i] != '>'
    requires !Occurs(x + "\"" + b, Alt)
    ensures Sub(ImageAlt, AltImage(a, x, b) + rest) == "[" + x + "]" + Sub(ImageAlt, rest)
  {
    ImageAltMatch(a, x, b, rest);
    SubHead(ImageAlt, AltImage(a, x, b), rest, "[" + x + "]");
  }

  lemma {:induction false} AltSearchNone(t: string, lo: nat, hi: int, div: bool)
    requires forall i | lo <= i <= hi :: !OccursAt(t, Alt, i)
    ensures AltSearch(t, lo, hi, div).None?
    decreases hi - lo + 1
  {
    if hi >= lo {
      AltSearchNone(t, lo, hi - 1, div);
    }
  }

  /** With no `alt="` before the first `>` after the tag name, the
      image-with-alt pattern does not match at the head. */
  lemma ImageAltNone(s: string, g: nat)
    requires g < |s| && s[g] == '>'
    requires forall j | 4 <= j && j + 5 <= g :: !OccursAt(s, Alt, j)
    ensures ImageAltAt(s).None?
  {
    StartsWithOccursAt(s, "<img", 0);
    assert s[0..] == s;
    OccursAtChar(s, "<img", 0, if g < 4 then g else 0);
    if StartsWith(s, "<img") {
      var u := UpToGt(s, 4);
      forall i | 4 <= i <= u ensures !OccursAt(s, Alt, i) {
        if i + 5 > g {
          OccursAtChar(s, Alt, i, g);
        }
      }
      AltSearchNone(s, 4, u, false);
    }
  }

  /** An `<img ...>` tag with no `alt="` in it is left for the next pass. */
  lemma ImageAltSkips(a: string, rest: string)
    requires forall i | 0 <= i < |a| :: a[i] != '>'
    requires !Occurs(a, Alt)
    ensures Sub(ImageAlt, "<img" + a + ">" + rest) == "<img" + a + ">" + Sub(ImageAlt, rest)
  {
    var img := "<img" + a + ">";
    var t := img + rest;
    var g := 4 + |a|;
    assert t[g] == '>';
    assert t == "<img" + a + (">" + rest);
    forall k | 4 <= k && k + 5 <= g ensures !OccursAt(t, Alt, k) {
      OccursInside("<img", a, ">" + rest, Alt, k);
    }
    forall i | 0 <= i < |img| ensures ImageAltAt(t[i..]).None? {
      forall j | 4 <= j && j + 5 <= g - i ensures !OccursAt(t[i..], Alt, j) {
        OccursAtSuffix(t, Alt, i, j);
      }
      ImageAltNone(t[i..], g - i);
    }
    SubKeep(ImageAlt, t, |img|);
    assert t[..|img|] == img && t[|img|..] == rest;
  }

  /** Any `<img ...>` tag becomes `[image]`. */
  lemma ImageBareRewrite(a: string, rest: string)
    requires forall i | 0 <= i < |a| :: a[i] != '>'
    ensures Sub(ImageBare, "<img" + a + ">" + rest) == "[image]" + Sub(ImageBare, rest)
  {
    var t := "<img" + a + ">" + rest;
    assert t[..4] == "<img";
    assert forall i | 4 <= i < 4 + |a| :: t[i] == a[i - 4];
    assert t[4 + |a|] == '>';
    assert FindIn(t, {'>'}, 4) == Some(4 + |a|);
    SubHead(ImageBare, "<img" + a + ">", rest, "[image]");
  }

  /** Bracketed text with no `<img` in it is not touched by the bare-image
      pass. */
  lemma BracketKept(x: string, rest: string)
    requires !Occurs(x, "<img")
    ensures Sub(ImageBare, "[" + x + "]" + rest) == "[" + x + "]" + Sub(ImageBare, rest)
  {
    var t := "[" + x + "]" + rest;
    var n := |x| + 2;
    assert t[0] == '[' && t[n - 1] == ']';
    forall i | 0 <= i < n ensures ImageBareAt(t[i..]).None? {
      StartsWithOccursAt(t, "<img", i);
      if i == 0 || i == n - 1 {
        OccursAtChar(t, "<img", i, i);
      } else if i + 4 <= n - 1 {
        OccursInside("[", x, "]" + rest, "<img", i);
      } else {
        OccursAtChar(t, "<img", i, n - 1);
      }
    }
    SubKeep(ImageBare, t, n);
    assert t[..n] == "[" + x + "]" && t[n..] == rest;
  }

  /** Through the two image passes, an `<img ... alt="x" ...>` tag becomes
      `[x]`. */
  lemma ImageWithAlt(a: string, x: string, b: string, rest: string)
    requires forall i | 0 <= i < |a| :: a[i] != '>'
    requires forall i | 0 <= i < |x| :: x[i] != '"'
    requires forall i | 0 <= i < |b| :: b[i] != '>'
    requires !Occurs(x + "\"" + b, Alt) && !Occurs(x, "<img")
    ensures Sub(ImageBare, Sub(ImageAlt, AltImage(a, x, b) + rest)) ==
            "[" + x + "]" + Sub(ImageBare, Sub(ImageAlt, rest))
  {
    ImageAltRewrite(a, x, b, rest);
    BracketKept(x, Sub(ImageAlt, rest));
  }

  /** Through the two image passes, an `<img ...>` tag without `alt="`
      becomes `[image]`. */
  lemma ImageWithoutAlt(a: string, rest: string)
    requires forall i | 0 <= i < |a| :: a[i] != '>'
    requires !Occurs(a, Alt)
    ensures Sub(ImageBare, Sub(ImageAlt, "<img" + a + ">" + rest)) ==
            "[image]" + Sub(ImageBare, Sub(ImageAlt, rest))
  {
    ImageAltSkips(a, rest);
    ImageBareRewrite(a, Sub(ImageAlt, rest));
  }

  /** `[image]` tokens, each followed by its whitespace. */
  function Tokens(ws: seq<string>): string {
    if |ws| == 0 then [] else Image + ws[0] + Tokens(ws[1..])
  }

  /** The run from `k` is exactly `Run(t, k).0` tokens separated and
      followed by whitespace. */
  lemma {:induction false} RunShape(t: string, k: nat) returns (ws: seq<string>)
    requires k <= |t|
    ensures |ws| == Run(t, k).0
    ensures forall i | 0 <= i < |ws| :: AllSpace(ws[i])
    ensures t[k..Run(t, k).1] == Tokens(ws)
    decreases |t| - k
  {
    if OccursAt(t, Image, k) {
      var k' := SkipSpace(t, k + 7);
      var tail := RunShape(t, k');
      var e := Run(t, k').1;
      ws := [t[k + 7..k']] + tail;
      assert ws[1..] == tail;
      assert t[k..k + 7] == Image;
      SliceSplit(t, k, k + 7, e);
      SliceSplit(t, k + 7, k', e);
      assert t[k..e] == Image + (t[k + 7..k'] + t[k'..e]);
    } else {
      ws := [];
    }
  }

  /** The run pattern matches at the head exactly when an `[image]` is
      followed, after optional whitespace, by another. */
  lemma ImageRunMatches(t: string)
    ensures ImageRunAt(t).Some? <==> OccursAt(t, Image, 0) && OccursAt(t, Image, SkipSpace(t, 7))
  {
    if OccursAt(t, Image, 0) {
      assert Run(t, 0).0 == Run(t, SkipSpace(t, 7)).0 + 1;
    }
  }

  /** Two or more `[image]` tokens separated only by whitespace, with the
      whitespace after the last, become one `[images]`; the scan resumes
      where neither whitespace nor another token follows. */
  lemma ImagesCollapse(t: string) returns (n: nat, ws: seq<string>)
    requires OccursAt(t, Image, 0) && OccursAt(t, Image, SkipSpace(t, 7))
    ensures n <= |t| && Sub(ImageRun, t) == "[images]" + Sub(ImageRun, t[n..])
    ensures |ws| >= 2 && t[..n] == Tokens(ws)
    ensures forall i | 0 <= i < |ws| :: AllSpace(ws[i])
    ensures (n == |t| || !IsSpace(t[n])) && !OccursAt(t, Image, n)
  {
    ImageRunMatches(t);
    n := Run(t, 0).1;
    ws := RunShape(t, 0);
    assert t[0..n] == t[..n];
  }

  /** A lone `[image]`, not followed after whitespace by another, stays. */
  lemma LoneImageKept(t: string)
    requires OccursAt(t, Image, 0) && !OccursAt(t, Image, SkipSpace(t, 7))
    ensures Sub(ImageRun, t) == Image + Sub(ImageRun, t[7..])
  {
    ImageRunMatches(t);
    assert t[0..] == t;
    assert t[..7] == Image;
    forall i | 1 <= i < 7 ensures ImageRunAt(t[i..]).None? {
      assert t[i..][0] == Image[i];
      NoRunWithoutBracket(t[i..]);
    }
    SubKeep(ImageRun, t, 7);
  }

  lemma NoRunWithoutBracket(s: string)
    requires |s| > 0 && s[0] != '['
    ensures ImageRunAt(s).None?
  {
    OccursAtChar(s, Image, 0, 0);
  }

  /** `http://` or `https://`, with a `www.` right after it if there is
      one, is deleted. */
  lemma SchemeRemoved(scheme: string, www: string, rest: string)
    requires scheme == "http://" || scheme == "https://"
    requires www == "www." || (www == "" && !StartsWith(rest, "www."))
    ensures Sub(UrlScheme, scheme + www + rest) == Sub(UrlScheme, rest)
  {
    var t := scheme + www + rest;
    var n := |scheme|;
    assert t[..n] == scheme;
    assert t == scheme + (www + rest);
    assert StartsWith(t, "https://") <==> scheme == "https://" by {
      assert scheme == "http://" ==> t[4] == ':';
    }
    assert t[n..] == www + rest;
    StartsWithOccursAt(t, "www.", n);
    assert www == "www." ==> (www + rest)[..4] == www;
    assert www == "" ==> www + rest == rest;
    assert UrlSchemeAt(t) == Some(Match(|scheme + www|, ""));
    assert t == (scheme + www) + rest;
    SubHead(UrlScheme, scheme + www, rest, "");
  }

  /** A tag `<a>`, with `a` non-empty and free of `>`, is deleted. */
  lemma TagRemoved(a: string, rest: string)
    requires |a| > 0 && forall i | 0 <= i < |a| :: a[i] != '>'
    ensures Sub(Tag, "<" + a + ">" + rest) == Sub(Tag, rest)
  {
    var t := "<" + a + ">" + rest;
    assert forall i | 1 <= i < 1 + |a| :: t[i] == a[i - 1];
    assert t[1 + |a|] == '>';
    assert FindIn(t, {'>'}, 2) == Some(1 + |a|);
    SubHead(Tag, "<" + a + ">", rest, "");
  }

  /** Without a `>`, the tag pass changes nothing. */
  lemma NoGtKept(s: string)
    requires forall i | 0 <= i < |s| :: s[i] != '>'
    ensures Sub(Tag, s) == s
  {
    NoGtNoTag(s);
    SubNoMatch(Tag, s);
  }

  lemma NoGtNoTag(s: string)
    requires forall i | 0 <= i < |s| :: s[i] != '>'
    ensures forall i | 0 <= i < |s| :: MatchAt(Tag, s[i..]).None?
  {
    forall i | 0 <= i < |s| ensures MatchAt(Tag, s[i..]).None? {
      var t := s[i..];
      assert forall j | 0 <= j < |t| :: t[j] != '>' by {
        forall j | 0 <= j < |t| ensures t[j] == s[i + j] {
        }
      }
      TagAtNoGt(t);
    }
  }

  lemma TagAtNoGt(t: string)
    requires forall j | 0 <= j < |t| :: t[j] != '>'
    ensures TagAt(t).None?
  {
  }

  /** Text the tag pattern matches nowhere in. */
  predicate TagFree(s: string) {
    forall i | 0 <= i < |s| :: TagAt(s[i..]).None?
  }

  /** The tag pass leaves no tag behind: every `<` it keeps is followed
      by `>` or by no `>` at all. */
  lemma {:induction false} TagStripLeavesNoTag(s: string)
    ensures TagFree(Sub(Tag, s))
    decreases |s|
  {
    if |s| > 0 {
      match TagAt(s)
      case Some(m) =>
        TagStripLeavesNoTag(s[m.len..]);
        assert Sub(Tag, s) == Sub(Tag, s[m.len..]);
      case None =>
        var r, r' := Sub(Tag, s), Sub(Tag, s[1..]);
        TagStripLeavesNoTag(s[1..]);
        assert r == [s[0]] + r';
        forall i | 1 <= i < |r| ensures TagAt(r[i..]).None? {
          assert r[i..] == r'[i - 1..];
        }
        assert r[0..] == r;
        if |s| >= 2 && s[0] == '<' {
          if s[1] == '>' {
            assert s[1..][0] == '>';
            assert r'[0] == '>';
          } else {
            assert FindIn(s, {'>'}, 2).None?;
            assert forall j | 0 <= j < |s[1..]| :: s[1..][j] == s[j + 1];
            NoGtKept(s[1..]);
            assert r == s;
          }
        }
    }
  }

  /** Stripping tags twice is stripping them once. */
  lemma TagStripIdempotent(s: string)
    ensures Sub(Tag, Sub(Tag, s)) == Sub(Tag, s)
  {
    TagStripLeavesNoTag(s);
    SubNoMatch(Tag, Sub(Tag, s));
  }

  /** Every pattern but the run and the scheme starts with `<`. */
  lemma NoAngleNoMatch(p: Pass, t: string)
    requires p in {DivImage, ImageAlt, ImageBare, Tag}
    requires |t| > 0 && t[0] != '<'
    ensures MatchAt(p, t).None?
  {
    assert t[0..] == t;
    StartsWithOccursAt(t, "<div", 0);
    StartsWithOccursAt(t, "<img", 0);
    OccursAtChar(t, "<div", 0, 0);
    OccursAtChar(t, "<img", 0, 0);
  }

  /** Text without `<`, without `[image]` and without an `http://` or
      `https://` goes through all the markup passes unchanged. */
  lemma MarkupPlain(s: string)
    requires forall i | 0 <= i < |s| :: s[i] != '<'
    requires !Occurs(s, Image) && !Occurs(s, "http://") && !Occurs(s, "https://")
    ensures Markup(s) == s
  {
    forall p, i | p in {DivImage, ImageAlt, ImageBare, Tag} && 0 <= i < |s|
      ensures MatchAt(p, s[i..]).None?
    {
      NoAngleNoMatch(p, s[i..]);
    }
    forall i | 0 <= i < |s| ensures MatchAt(ImageRun, s[i..]).None? && MatchAt(UrlScheme, s[i..]).None? {
      StartsWithOccursAt(s, Image, i);
      StartsWithOccursAt(s, "http://", i);
      StartsWithOccursAt(s, "https://", i);
      OccursAtSuffix(s, Image, i, 0);
    }
    SubNoMatch(DivImage, s);
    SubNoMatch(ImageAlt, s);
    SubNoMatch(ImageBare, s);
    SubNoMatch(ImageRun, s);
    SubNoMatch(UrlScheme, s);
    SubNoMatch(Tag, s);
  }
}
