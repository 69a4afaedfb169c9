# docs-exporter core, modelled in Dafny

docs-exporter reads the sidebar of a documentation site, lets the user pick
pages, fetches each page's markdown source and joins the pages into one
markdown document, optionally compressed. This project models the sequential
core of `DocsExporter` in `app.py` and proves properties of it:

- **URL rules** (`urls.dfy`). Trailing slashes are stripped from the base URL.
  A page's markdown URL is `url + ".md"` after a trailing slash and
  `url + "/.md"` otherwise. A typed URL without an `http://` or `https://`
  scheme gets `https://` in front.
- **Fetch outcome** (`fetch.dfy`). The HTTP response becomes a value:
  a status and a body, a timeout, or a connection failure. The outcome is
  either the content or exactly one of the three error strings.
- **Navigation extraction** (`navigation.dfy`). The sidebar is a value: a
  sequence of group headers. Each header has an optional `h5` title and an
  optional list of links that follows it.
  - Untitled headers are skipped, and headers that yield no page are dropped.
  - Order is kept.
  - Root-relative hrefs become `https://` + domain + href.
  - `GetNavigationStructure` is the nested append loop. It is proved equal to
    the functional `Navigation`.
- **Compressor** (`compressor.dfy`, `passes.dfy`, `placeholders.dfy`,
  `replace.dfy`).
  - Fenced blocks, then inline spans, are swapped for numbered placeholders
    `__CODE_BLOCK_<n>__` and `__INLINE_CODE_<n>__`.
  - Six regular-expression rewrites then run over the text. Each is modelled
    as a leftmost, non-overlapping scan (`Sub`), with Python's greedy and lazy
    backtracking worked out in each pass's head-of-text matcher (`MatchAt`).
  - The code is put back by Python's `str.replace` (`Replace`), one
    placeholder at a time, fenced blocks first.
  - `CompressContent` is the imperative method with the two restore loops. It
    is proved equal to the functional `Compress`.
- **Document assembly** (`export.dfy`).
  - The task list is the URLs of the selected pages, in navigation order.
  - The results are zipped into a URL-to-result map (`dict(zip(...))`).
  - The two nested loops then emit group headings, page headings, content
    and errors.
  - Every method is proved equal to a functional specification (`Export`).
    Projections of the output (group names, page titles, bodies, errors) are
    proved to follow navigation order. The output depends on the fetches only
    through the URL-to-result map. `asyncio.gather` returns its results in
    task order, whatever order the fetches complete in. When each result is
    its own task's fetch, every URL in the map holds the fetch of that URL
    (`Export.FetchedResults`).

Everything the program gets from outside is a parameter:
- the response to the base-page request;
- the HTML parser's location of the sidebar (`locate`);
- the URL library's host part (`netloc`) and relative-reference resolution
  (`join`);
- the network (`get`, in `FetchPage`);
- the list of task results that `asyncio.gather` returns.

These behaviours of the code as written are proved rather than assumed:

- **Restoring can rewrite code.** Code can be rewritten when it is next to
  text that completes a placeholder (`Compressor.PlaceholderCollision`).
  Take two adjacent fenced blocks `b0 b1` followed by the text
  `CODE_BLOCK_0__`. Suppose the blocks hold no backtick and no placeholder
  text (`NoTick` and `NoPlaceholderText` of both contents). Then the model
  compresses this to `b0 + "__CODE_BLOCK_1" + b0`. What happens:
  - Protection leaves `__CODE_BLOCK_0____CODE_BLOCK_1__CODE_BLOCK_0__`.
  - The first `replace` fills both copies of `__CODE_BLOCK_0__`, destroying
    the second block's placeholder.
  - The second block is lost from the output.
  - Compressing `b0 + "__CODE_BLOCK_1" + b0` again gives
    `b0 + b0 + "CODE_BLOCK_1__"` (`Compressor.CollisionRecompressed`), so
    `Compress(Compress(s)) != Compress(s)` for the input above
    (`Compressor.CompressNotIdempotent`).
- **Compressing is not idempotent.** This holds even for text without code:
  the scheme pass alone breaks idempotence. Deleting the `http://` inside
  `hthttp://tp://` joins `ht` and `tp://` into a new `http://`. Compressing
  once gives `http://`, and compressing again gives the empty text
  (`Compressor.CodeFreeNotIdempotent`). `Compressor.PlainTextUnchanged`
  covers only text that none of the passes touches: such text comes out
  unchanged.
- **When code survives.** A protected block or span reappears byte for byte
  under three sufficient conditions (`CodeBlockSurvives`,
  `InlineCodeSurvives`):
  - the markup passes leave its placeholder standing;
  - the neighbours of the placeholder cannot extend it;
  - the code itself holds no placeholder text.

  These conditions are not necessary. For example, the fence
  `` ```__CODE_BLOCK_0__``` `` holds placeholder text and still comes out
  unchanged (`Compressor.PlaceholderFenceKept`).
- **The inline pass can swallow a fenced placeholder.** The inline pattern
  runs on text from which fenced blocks are already taken out. A fenced
  placeholder between two single backticks on one line becomes part of an
  inline span. On `` `a ```b``` c` `` the fenced block is taken out first,
  and then the whole line `` `a __CODE_BLOCK_0__ c` `` is an inline span.
  The fenced restore finds no placeholder to fill, and the inline restore
  puts the span back. The output is `` `a __CODE_BLOCK_0__ c` ``: the block
  is lost and its placeholder leaks (`Compressor.InlineSwallowsFence`).

## Model

| member | source | states |
|---|---|---|
| Urls.StripTrailingSlashes | app.py:15 | the stripped base URL is a prefix of the given one, does not end with `/`, and only slashes were removed |
| Urls.StripTrailingSlashesUnique | app.py:15 | the stripped URL is the only prefix with those properties; stripping twice changes nothing |
| Urls.MarkdownUrl | app.py:80-83 | the markdown URL starts with the page URL, ends with `/.md`, and is 3 characters longer after a trailing slash, 4 otherwise |
| Urls.MarkdownUrlTrailingSlash | app.py:80-83 | a URL with and without one trailing slash has the same markdown URL |
| Urls.EnsureScheme | app.py:221-222 | the result has an `http://` or `https://` scheme and ends with the typed URL; a URL with a scheme is kept; otherwise it is `https://` + the URL |
| Urls.EnsureSchemeIdempotent | app.py:221-222 | prefixing a second time changes nothing |
| Fetch.MarkdownOutcome | app.py:85-94 | the outcome is content exactly when the status is below 400 (then it is the body); 404 gives "Pages that don't exist"; a timeout gives "Rate limiting from the server"; other statuses of 400 or more and connection failures give "Pages that can't be accessed" |
| Fetch.FetchPage | app.py:74-94 | a fetch requests the markdown URL and is content exactly when that request came back below 400, and then the content is the response body; every failure carries one of the three error strings |
| Navigation.NewExporter | app.py:14-16 | the exporter keeps the base URL without trailing slashes and the host part of the given URL |
| Navigation.ResolveHref | app.py:54-58 | definition: a root-relative href is joined to the domain under `https`, any other goes through `join`; its meaning is given by `PageUrlsResolved` |
| Navigation.PagesOf | app.py:49-64 | definition: one page per link with an href, in order; its meaning is given by `PagesOrigin`, `PagesResolved` and `HeaderPages` |
| Navigation.GroupOf | app.py:38-70 | definition: nothing for an untitled header or one without pages, otherwise one group; its meaning is given by `GroupsOrigin` and `GroupsKeepEveryPage` |
| Navigation.BaseReachable | app.py:20-24 | definition: the base request came back with a status outside 400-599; its meaning is given by `Navigation` |
| Navigation.GroupsOf | app.py:38-70 | every extracted group has at least one page |
| Navigation.HeaderPages | app.py:47-64 | the inner loop builds the pages of one header's links, in order |
| Navigation.Navigation | app.py:18-72 | an unreachable base page (a failed request or a 4xx/5xx status) gives "Pages that can't be accessed"; a missing sidebar gives "Pages that don't exist"; otherwise the groups are returned and none is empty |
| Navigation.GetNavigationStructure | app.py:18-72 | the imperative extraction returns exactly `Navigation` |
| Navigation.PageUrlsResolved | app.py:54-58 | every extracted page's URL is its href resolved, and a root-relative href gives `https://` + domain + href |
| Navigation.PagesResolved | app.py:49-64 | each page of one list has its href resolved as its URL |
| Navigation.PagesOrigin | app.py:49-64 | the pages of a list correspond one to one, in order, to its links that have an href, with their text, resolved URL and href |
| Navigation.GroupsOrigin | app.py:36-70 | the groups correspond one to one, in sidebar order, to the headers that have a title and yield a page, with that title and those pages; every other header is skipped |
| Navigation.GroupsKeepEveryPage | app.py:66-70 | dropping empty groups loses no page: the pages read group by group are the pages of every titled header in sidebar order |
| Compressor.CodeMatch | app.py:116-117 | a match of a protection pattern at the head of a text is a fenced block or an inline span |
| Compressor.CodeFound | app.py:116-117 | a fenced block or inline span at the head of a text is matched with its own length; with `CodeMatch`, a match of length `l` exists exactly when the first `l` characters are code |
| Compressor.FenceAtHead | app.py:116 | three backticks up to the nearest closing three form a fenced block |
| Compressor.Protect | app.py:105-117 | every item taken out by a protection pass is a code span of that kind |
| Compressor.ProtectGaps | app.py:105-117 | the input is a sequence of gaps with the items between them; the protected text is the same gaps, unchanged, with item `i` replaced by placeholder `n + i`; the pattern matches at no position inside a gap and matches each item whole where it starts |
| Compressor.ProtectSkip | app.py:116-117 | backtick-free text in front of the input is copied unchanged and changes neither the items nor their numbers |
| Compressor.LoneTickKept | app.py:116 | a lone backtick is left by the fenced pass, with nothing taken out |
| Compressor.ProtectSpans | app.py:105-117 | the items taken out occur in the input, in order and without overlapping |
| Compressor.ProtectNothing | app.py:116-117 | text without a backtick has nothing taken out and is left as it is |
| Compressor.ProtectFence | app.py:116 | a backtick-free fence at the head of a text is taken out whole and numbered `n` |
| Compressor.TwoFences | app.py:116 | two adjacent backtick-free fences become placeholders `n` and `n + 1` |
| Compressor.CodeIsFlanked | app.py:116-117 | a protected span begins and ends with a character that no placeholder contains |
| Compressor.ItemsFlanked | app.py:105-117 | every protected item is flanked that way |
| Compressor.RestoreSplit | app.py:134-138 | the restore loop can be cut at any iteration |
| Compressor.StepRestores | app.py:135 | a placeholder between sealed neighbours is replaced by its code |
| Compressor.StepKeepsPlaceholder | app.py:135 | replacing a different placeholder keeps a placeholder between sealed neighbours, and the neighbours stay sealed |
| Compressor.StepKeepsSealed | app.py:135 | replacing any placeholder keeps a stretch that is flanked and free of placeholder text |
| Compressor.RestoreKeepsPlaceholder | app.py:134-138 | iterations for other slots keep a sealed placeholder |
| Compressor.RestoreKeepsSealed | app.py:134-138 | every iteration keeps a sealed stretch of text |
| Compressor.RestoreOwnKind | app.py:134-138 | the loop of a placeholder's own kind puts its code in its place, and the code stays there |
| Compressor.RestoreFrom | app.py:134-138 | definition: iterations `lo` to `n - 1` of a restore loop, each a `replace` of one placeholder by its code; its meaning is given by `RestoreSplit`, `StepRestores`, `RestoreKeepsPlaceholder`, `RestoreKeepsSealed` and `RestoreOwnKind` |
| Compressor.Restore | app.py:134-138 | definition: the whole restore loop of one kind; its meaning is given by `RestoreOwnKind` and `RestoreKeepsSealed` |
| Compressor.Compress | app.py:96-140 | definition: blank input returned as it is, otherwise protection, the markup passes and the two restore loops; `CompressContent` proves the method equal to it, and its meaning is given by `CodeBlockSurvives`, `InlineCodeSurvives`, `PlainTextUnchanged`, `SchemeOnly` and the collision lemmas |
| Compressor.CompressContent | app.py:96-140 | the imperative compressor computes `Compress`, and blank input is returned as it is |
| Compressor.CodeBlockSurvives | app.py:96-140 | a fenced block whose placeholder the markup passes left standing between sealed neighbours, and which holds no placeholder text, is in the output unchanged |
| Compressor.InlineCodeSurvives | app.py:96-140 | the same for an inline span |
| Compressor.PlaceholderFenceKept | app.py:96-140 | a fence whose content is a placeholder holds placeholder text, is taken out whole, and still comes out unchanged |
| Compressor.PlainTextUnchanged | app.py:96-140 | text with no backtick, no `<`, no `[image]` and no `http(s)://` is returned unchanged |
| Compressor.SchemeOnly | app.py:96-140 | text with no backtick, `<`, `[` or `>`, whose scheme pass leaves none of them, is compressed to what the scheme pass alone makes of it |
| Compressor.CodeFreeNotIdempotent | app.py:128 | `hthttp://tp://`, which holds no code, compresses to `http://`, and `http://` compresses to the empty text |
| Compressor.PhTextUntouched | app.py:116-131 | text made only of placeholder characters passes through protection and every markup pass unchanged |
| Compressor.CollisionProtected | app.py:116 | protecting two fences followed by `CODE_BLOCK_0__` leaves the two placeholders and that text |
| Compressor.ReplaceBothEnds | app.py:135 | replacing in `p + x + p` replaces both copies when no occurrence starts in `x` |
| Compressor.CollisionRestored | app.py:134-135 | restoring that text fills both copies of the first placeholder and breaks the second |
| Compressor.FirstPlaceholders | app.py:108 | the first two fenced placeholders are `__CODE_BLOCK_0__` and `__CODE_BLOCK_1__` |
| Compressor.PlaceholderCollision | app.py:134-135 | an input with no placeholder text and two fenced blocks can compress to a text that has lost its second block |
| Compressor.CollisionRecompressed | app.py:96-140 | compressing that output again turns `b0 + "__CODE_BLOCK_1" + b0` into `b0 + b0 + "CODE_BLOCK_1__"` |
| Compressor.CompressNotIdempotent | app.py:96-140 | for that input, compressing the compressed text changes it again |
| Compressor.InlineSwallowsFence | app.py:116-117 | a fenced block between two single backticks on one line is taken out, then its placeholder is swallowed by an inline span; the output is that span, with the placeholder in it and without the block |
| Placeholders.PhShape | app.py:108-113 | a placeholder has at least 16 characters, all from `_`, `A`-`Z` and digits, starts with two underscores and with its family prefix |
| Placeholders.PhPrefixUnique | app.py:108-113 | a placeholder that begins another placeholder is the same placeholder |
| Placeholders.PhInside | app.py:108-113 | a placeholder found inside another one is that one, at its start |
| Placeholders.PhWindow | app.py:108-113 | between sealed neighbours, the only placeholder occurrence overlapping a placeholder is that placeholder itself |
| Placeholders.SealedWindow | app.py:108-113 | no placeholder occurrence overlaps a sealed stretch of text |
| Replacing.ReplaceAbsent | app.py:135 | `str.replace` leaves text without an occurrence alone |
| Replacing.ReplaceSplit | app.py:135 | when no occurrence runs across the boundary, replacing in `a + t` is replacing in each part |
| Replacing.ReplaceKeep | app.py:135 | a stretch that no occurrence starts in or runs into is copied |
| Replacing.ReplaceHit | app.py:135 | an occurrence that nothing from the left runs into is replaced |
| Replacing.Replace | app.py:135 | definition of `str.replace` as a left-to-right scan without overlaps; its meaning is given by `ReplaceAbsent`, `ReplaceSplit`, `ReplaceKeep` and `ReplaceHit` |
| Passes.UpToGt | app.py:121 | a greedy run of non-`>` characters stops at the first `>` or at the end |
| Passes.AltSearch | app.py:120-121 | a found match is non-empty and inside the text; its meaning is given by `AltSearchSkip`, `AltSearchNone` and `AltSearchFrom` |
| Passes.DivImageAt | app.py:120 | a match is non-empty and inside the text; where it starts and ends is given by `DivHead` and `DivAltPieces` |
| Passes.ImageAltAt | app.py:121 | a match is non-empty and inside the text; its meaning is given by `ImageAltAtPieces`, `ImageAltMatch` and `ImageAltNone` |
| Passes.ImageBareAt | app.py:122 | a match is non-empty and inside the text; its meaning is given by `ImageBareRewrite` and `BracketKept` |
| Passes.ImageRunAt | app.py:125 | a match is non-empty and inside the text; its meaning is given by `ImageRunMatches`, `ImagesCollapse` and `LoneImageKept` |
| Passes.UrlSchemeAt | app.py:128 | a match is non-empty and inside the text; its meaning is given by `SchemeRemoved` |
| Passes.TagAt | app.py:131 | a match is non-empty and inside the text; its meaning is given by `TagRemoved`, `NoGtKept` and `TagStripLeavesNoTag` |
| Passes.MatchAt | app.py:120-131 | a match of any pass at the head of a text is non-empty and inside the text, so every scan makes progress |
| Passes.Sub | app.py:120-131 | definition of `re.sub` as a leftmost, non-overlapping scan; its meaning is given by `SubKeep`, `SubNoMatch` and `SubHead` |
| Passes.Markup | app.py:119-131 | definition: the six passes in the program's order; its meaning is given by `MarkupPlain` and `PhTextUntouched` |
| Passes.AltTag | app.py:121 | a found attribute starts with `alt="` and its value runs to the first `"`; the tag's end is the first `>` after that quote |
| Passes.AltEnd | app.py:120-121 | the end found for an attribute lies after it, and the captured value holds no `"` |
| Passes.DivImageStart | app.py:120 | the image start found after a `div` head is an `<img` |
| Passes.SubKeep | app.py:120-131 | where no match starts in the first `k` characters, a rewrite pass keeps them |
| Passes.SubNoMatch | app.py:120-131 | a pass with no match anywhere changes nothing |
| Passes.SubHead | app.py:120-131 | a match at the head is replaced and the scan resumes after it |
| Passes.AltSearchSkip | app.py:121 | the backtracking search skips positions where no `alt="` starts |
| Passes.AltSearchNone | app.py:121 | with no `alt="` in range the search fails |
| Passes.NoLaterAlt | app.py:121 | no `alt="` after the one found starts before its own `>` |
| Passes.AltSearchFrom | app.py:121 | the greedy search backs off to the last `alt="` before the tag's end |
| Passes.AltEndAt | app.py:121 | the attribute value ends at the first `"` and the tag at the next `>` |
| Passes.AltEndDiv | app.py:120 | inside a `div` the match ends after the nearest `</div>` |
| Passes.AltEndDivAt | app.py:120 | the search inside a `div` yields the alt text in brackets, ending after `</div>` |
| Passes.DivHead | app.py:120 | after `<div`, up to its `>` and whitespace, the image search starts at the `<img` |
| Passes.DivAltPieces | app.py:120 | a `div` wrapping an image with an alt text matches up to the nearest `</div>` and is replaced by the alt text in brackets |
| Passes.ImageAltAtPieces | app.py:121 | an `<img` tag whose last `alt="` before its `>` has a quoted value matches the whole tag, replaced by the value in brackets |
| Passes.ImageAltMatch | app.py:121 | `<img a alt="x" b>` matches whole and becomes `[x]` |
| Passes.AltImageFixed | app.py:121 | where the fixed pieces of such a tag lie |
| Passes.AltImageFree | app.py:121 | the attribute stretches hold no `>` or `"` |
| Passes.AltImageNoAlt | app.py:121 | no further `alt="` before the tag's end |
| Passes.ImageAltRewrite | app.py:121 | the pass rewrites `<img a alt="x" b>` to `[x]` and goes on after it |
| Passes.ImageAltNone | app.py:121 | an image tag without `alt="` before its `>` does not match |
| Passes.ImageAltSkips | app.py:121 | an image tag without an alt text is kept by the alt pass |
| Passes.ImageBareRewrite | app.py:122 | any image tag becomes `[image]` |
| Passes.BracketKept | app.py:122 | an alt text in brackets without `<img` is kept by the bare-image pass |
| Passes.ImageWithAlt | app.py:121-122 | after both image passes, an image with an alt text is `[x]` |
| Passes.ImageWithoutAlt | app.py:121-122 | after both image passes, an image without one is `[image]` |
| Passes.Run | app.py:125 | the greedy run of `[image]` tokens stops where no further token follows the whitespace |
| Passes.RunShape | app.py:125 | the run covers its tokens, each followed only by whitespace |
| Passes.ImageRunMatches | app.py:125 | a run matches exactly when a second `[image]` follows the first after whitespace |
| Passes.ImagesCollapse | app.py:125 | two or more `[image]` tokens separated only by whitespace become one `[images]` |
| Passes.LoneImageKept | app.py:125 | a lone `[image]` is kept |
| Passes.NoRunWithoutBracket | app.py:125 | no run starts at a character other than `[` |
| Passes.SchemeRemoved | app.py:128 | `http://` or `https://`, with a following `www.`, is removed |
| Passes.TagRemoved | app.py:131 | a tag `<a>` with non-empty `a` free of `>` is removed |
| Passes.NoGtKept | app.py:131 | text without `>` is kept by the tag pass |
| Passes.TagStripLeavesNoTag | app.py:131 | after the tag pass no tag is left |
| Passes.TagStripIdempotent | app.py:131 | running the tag pass twice is running it once |
| Passes.NoAngleNoMatch | app.py:120-131 | the `<`-headed passes match nothing at a character other than `<` |
| Passes.MarkupPlain | app.py:119-131 | text with no `<`, `[image]` or `http(s)://` goes through all six passes unchanged |
| Export.Rendered | app.py:180-184 | each entry is rendered in place: `"\n# " + group + "\n"`, `"\n## " + title + "\n"`, or the content |
| Export.Join | app.py:202 | the joined text has the entries' total length plus one newline between neighbours, starts with the first entry and ends with the last |
| Export.JoinAppend | app.py:202 | joining two non-empty lists is the first join, one newline, then the second join |
| Export.SelectedMembers | app.py:157-159 | a page is among the selected ones exactly when it is listed and its URL is selected |
| Export.TasksStep | app.py:157-165 | one more group adds its selected URLs to the tasks |
| Export.TasksCover | app.py:157-165 | every selected page of every group has its URL among the tasks |
| Export.UrlResults | app.py:171 | the map's keys are the task URLs |
| Export.UrlResultsLastWins | app.py:171 | a URL listed twice keeps the result of its last task |
| Export.ResultsCover | app.py:157-171 | every selected page has a result in the map |
| Export.AddTasks | app.py:158-165 | the inner task loop appends one group's selected URLs |
| Export.CollectTasks | app.py:157-165 | the task loop collects the selected URLs in navigation order |
| Export.ZipResults | app.py:171 | the map is built from the tasks and results |
| Export.FetchedResults | app.py:164-171 | when each gathered result is its task's fetch, every URL in the map holds the fetch of that URL, and every failure carries one of the three error strings |
| Export.AddPage | app.py:184-200 | one page's entries and errors are its part of the specification |
| Export.AddGroup | app.py:174-200 | one group's entries and errors are its part of the specification |
| Export.ExportSelectedPages | app.py:142-202 | the imperative export returns exactly `Export` |
| Export.Export | app.py:148-150 | a failed navigation gives no document and exactly its error |
| Export.UnselectedParts | app.py:176-177 | a group none of whose pages is selected contributes nothing |
| Export.GroupPartsStep | app.py:176-181 | the heading of a group is added once, before its first selected page |
| Export.PageProjections | app.py:184-200 | a page gives its title heading once, its content (compressed when asked) only when non-empty, no group heading, and its error |
| Export.PagesProjection | app.py:176-200 | page titles and bodies come out in the order of the selected pages |
| Export.PagesNoGroupNames | app.py:176-200 | the pages of a group emit no group heading |
| Export.PagesErrors | app.py:186-195 | the errors are those of the selected pages, in order |
| Export.NoneSelected | app.py:176-177 | without a selected page no page is selected |
| Export.GroupProjection | app.py:173-200 | a group emits its heading exactly once when one of its pages is selected, then its pages' titles, bodies and errors in order |
| Export.AssemblePages | app.py:173-200 | titles, bodies and errors of the whole document follow the selected pages in navigation order |
| Export.AssembleGroups | app.py:173-181 | the group headings are those of the groups with a selected page, in order |
| Export.ExportContents | app.py:142-202 | after a successful navigation, the document is the joined rendering of entries whose group headings, page titles and bodies, and whose errors, are the reference lists; all of them depend on the fetches only through the URL-to-result map |
| Export.ErrorMessages | app.py:186-195 | every error names a page title followed by one of the three fetch error strings |
| Export.Shown | app.py:197-200 | definition: the content, compressed when asked; its meaning is given by `PageProjections` |
| Export.PageParts | app.py:184-200 | definition: one selected page's heading, then its content if there is some, or its error; its meaning is given by `PageProjections` and `AddPage` |
| Export.PagesParts | app.py:176-200 | definition: the parts of a group's selected pages, in order; its meaning is given by `PagesProjection`, `PagesNoGroupNames` and `PagesErrors` |
| Export.GroupParts | app.py:173-200 | definition: nothing for a group without a selected page, otherwise its heading and its pages' parts; its meaning is given by `GroupProjection`, `GroupPartsStep` and `UnselectedParts` |
| Export.Assemble | app.py:173-200 | definition: the parts of every group, in navigation order; its meaning is given by `AssemblePages`, `AssembleGroups` and `ExportContents` |

## Left out

- HTTP and concurrency are not modelled. `requests`, `aiohttp`, the
  ten-second timeouts and `asyncio.gather` are not part of this model. A
  response is a value, and the list of gathered results is a parameter of
  the export.
- HTML parsing is not modelled. BeautifulSoup is not part of this model. The
  sidebar is a value of type `Navigation.Sidebar`, and `locate` stands for
  finding it in the page.
- `get_text(strip=True)`: link and heading texts are taken as given, already
  stripped.
- URL parsing is not modelled. `urlparse(...).netloc` and
  `urljoin(base, href)` for hrefs that are not root-relative are the
  parameters `netloc` and `join`.
- For the Flask routes, templates, `flash` and the secret key, only the scheme
  prefix of `scan` is modelled (`Urls.EnsureScheme`). Stripping the form field
  and the empty-URL check are UI plumbing.
- `url_to_info`, which the export fills but never reads, is not modelled.
- The `isinstance(result, Exception)` branch is the result `Raised`. Since
  `fetch_markdown_content_async` catches every exception, this branch is
  reachable only through exceptions outside it.
- Passes.DivImageAt: the `div`-wrapped image pass is specified through
  `DivHead` and `DivAltPieces`, which state where a match starts and ends.
  There is no single rewrite lemma over a constructed text, as there is for
  the other passes.
