/** The export of selected pages: the pages the user picked are fetched
    (the concurrent gather is abstracted into one result per fetch task),
    and the combined document is assembled in navigation order, with one
    heading per group that has a selected page and one per page. */
module Export {
  import opened Wrappers
  import opened Text
  import opened Fetch
  import opened Navigation
  import opened Compressor

  /** What the gather returns for one task: the fetch's own outcome, or
      an exception it let through. */
  datatype TaskResult = Returned(outcome: Outcome) | Raised

  /** One entry of the combined document. */
  datatype Part = GroupHead(name: string) | PageHead(title: string) | Body(text: string)

  function Render(p: Part): string {
    match p
    case GroupHead(name) => "\n# " + name + "\n"
    case PageHead(title) => "\n## " + title + "\n"
    case Body(text) => text
  }

  function Rendered(ps: seq<Part>): (r: seq<string>)
    ensures |r| == |ps| && forall i | 0 <= i < |ps| :: r[i] == Render(ps[i])
    decreases |ps|
  {
    if |ps| == 0 then [] else Rendered(ps[..|ps| - 1]) + [Render(ps[|ps| - 1])]
  }

  lemma RenderedAppend(a: seq<Part>, b: seq<Part>)
    ensures Rendered(a + b) == Rendered(a) + Rendered(b)
  {
    var l, r := Rendered(a + b), Rendered(a) + Rendered(b);
    assert |l| == |r|;
    forall i | 0 <= i < |l| ensures l[i] == r[i] {
      if i < |a| {
        assert (a + b)[i] == a[i];
      } else {
        assert (a + b)[i] == b[i - |a|];
      }
    }
  }

  function TotalLength(ss: seq<string>): nat
    decreases |ss|
  {
    if |ss| == 0 then 0 else TotalLength(ss[..|ss| - 1]) + |ss[|ss| - 1]|
  }

  /** Python's `'\n'.join(ss)`: the entries with one newline between
      neighbours. */
  function Join(ss: seq<string>): (r: string)
    ensures |r| == TotalLength(ss) + (if |ss| == 0 then 0 else |ss| - 1)
    ensures |ss| > 0 ==> StartsWith(r, ss[0]) && EndsWith(r, ss[|ss| - 1])
    decreases |ss|
  {
    if |ss| == 0 then ""
    else if |ss| == 1 then ss[0]
    else
      var r := Join(ss[..|ss| - 1]) + "\n" + ss[|ss| - 1];
      assert ss[..|ss| - 1][0] == ss[0];
      assert r[..|ss[0]|] == Join(ss[..|ss| - 1])[..|ss[0]|];
      r
  }

  /** Joining two non-empty lists is joining their joins: the entries
      appear in order with exactly one newline between neighbours. */
  lemma {:induction false} JoinAppend(a: seq<string>, b: seq<string>)
    requires |a| > 0 && |b| > 0
    ensures Join(a + b) == Join(a) + "\n" + Join(b)
    decreases |b|
  {
    var n := |b| - 1;
    assert (a + b)[..|a + b| - 1] == a + b[..n];
    assert (a + b)[|a + b| - 1] == b[n];
    if n > 0 {
      JoinAppend(a, b[..n]);
    } else {
      assert a + b[..n] == a;
    }
  }

  /** The selected pages of a list, in order. */
  function SelectedOf(ps: seq<NavPage>, sel: set<string>): seq<NavPage>
    decreases |ps|
  {
    if |ps| == 0 then []
    else SelectedOf(ps[..|ps| - 1], sel) + (if ps[|ps| - 1].url in sel then [ps[|ps| - 1]] else [])
  }

  /** Exactly the selected pages of the list are kept. */
  lemma {:induction false} SelectedMembers(ps: seq<NavPage>, sel: set<string>)
    ensures forall p | p in SelectedOf(ps, sel) :: p in ps && p.url in sel
    ensures forall p | p in ps && p.url in sel :: p in SelectedOf(ps, sel)
    decreases |ps|
  {
    if |ps| > 0 {
      var n := |ps| - 1;
      SelectedMembers(ps[..n], sel);
      assert ps == ps[..n] + [ps[n]];
    }
  }

  function UrlsOf(ps: seq<NavPage>): (r: seq<string>)
    ensures |r| == |ps| && forall i | 0 <= i < |ps| :: r[i] == ps[i].url
    decreases |ps|
  {
    if |ps| == 0 then [] else UrlsOf(ps[..|ps| - 1]) + [ps[|ps| - 1].url]
  }

  lemma SelectedAppend(a: seq<NavPage>, b: seq<NavPage>, sel: set<string>)
    ensures SelectedOf(a + b, sel) == SelectedOf(a, sel) + SelectedOf(b, sel)
    decreases |b|
  {
    if |b| == 0 {
      assert a + b == a;
    } else {
      var n := |b| - 1;
      assert (a + b)[..|a + b| - 1] == a + b[..n];
      SelectedAppend(a, b[..n], sel);
    }
  }

  lemma UrlsAppend(a: seq<NavPage>, b: seq<NavPage>)
    ensures UrlsOf(a + b) == UrlsOf(a) + UrlsOf(b)
  {
    var l, r := UrlsOf(a + b), UrlsOf(a) + UrlsOf(b);
    forall i | 0 <= i < |l| ensures l[i] == r[i] {
      if i < |a| {
        assert (a + b)[i] == a[i];
      } else {
        assert (a + b)[i] == b[i - |a|];
      }
    }
  }

  /** One more page of a list adds its URL to the selected URLs when it
      is selected. */
  lemma SelectedUrlsStep(tasks: seq<string>, ps: seq<NavPage>, j: nat, sel: set<string>)
    requires j < |ps|
    ensures tasks + UrlsOf(SelectedOf(ps[..j + 1], sel)) ==
            tasks + UrlsOf(SelectedOf(ps[..j], sel)) + (if ps[j].url in sel then [ps[j].url] else [])
  {
    assert ps[..j + 1][..j] == ps[..j];
    var front := SelectedOf(ps[..j], sel);
    if ps[j].url in sel {
      UrlsAppend(front, [ps[j]]);
      assert tasks + (UrlsOf(front) + [ps[j].url]) == tasks + UrlsOf(front) + [ps[j].url];
    } else {
      assert SelectedOf(ps[..j + 1], sel) == front;
    }
  }

  /** The selected pages of a navigation structure, group by group. */
  function SelectedPages(gs: seq<NavGroup>, sel: set<string>): seq<NavPage> {
    SelectedOf(AllPages(gs), sel)
  }

  /** The fetch tasks: the URL of every selected page, in navigation
      order, once per time the page is listed. */
  function Tasks(gs: seq<NavGroup>, sel: set<string>): seq<string> {
    UrlsOf(SelectedPages(gs, sel))
  }

  lemma TasksStep(gs: seq<NavGroup>, g: NavGroup, sel: set<string>)
    ensures Tasks(gs + [g], sel) == Tasks(gs, sel) + UrlsOf(SelectedOf(g.pages, sel))
  {
    assert (gs + [g])[..|gs|] == gs;
    assert AllPages(gs + [g]) == AllPages(gs) + g.pages;
    SelectedAppend(AllPages(gs), g.pages, sel);
    UrlsAppend(SelectedOf(AllPages(gs), sel), SelectedOf(g.pages, sel));
  }

  lemma {:induction false} InAllPages(gs: seq<NavGroup>, g: NavGroup, p: NavPage)
    requires g in gs && p in g.pages
    ensures p in AllPages(gs)
    decreases |gs|
  {
    var n := |gs| - 1;
    if gs[n] != g {
      assert g in gs[..n];
      InAllPages(gs[..n], g, p);
    }
  }

  /** Every selected page of the structure has a fetch task. */
  lemma TasksCover(gs: seq<NavGroup>, sel: set<string>)
    ensures forall g, p | g in gs && p in g.pages && p.url in sel :: p.url in Tasks(gs, sel)
  {
    forall g, p | g in gs && p in g.pages && p.url in sel ensures p.url in Tasks(gs, sel) {
      InAllPages(gs, g, p);
      SelectedMembers(AllPages(gs), sel);
      var ps := SelectedPages(gs, sel);
      var i :| 0 <= i < |ps| && ps[i] == p;
      assert Tasks(gs, sel)[i] == p.url;
    }
  }

  /** Python's `dict(zip(urls, results))`: a URL listed twice keeps the
      result of its last task. */
  function UrlResults(urls: seq<string>, results: seq<TaskResult>): (m: map<string, TaskResult>)
    requires |urls| == |results|
    ensures m.Keys == set u | u in urls
    decreases |urls|
  {
    if |urls| == 0 then map[]
    else
      var n := |urls| - 1;
      UrlResults(urls[..n], results[..n])[urls[n] := results[n]]
  }

  /** The gather returns the results in task order, so when each result
      is its task's fetch, every URL maps to the fetch of that URL, and
      every failure carries one of the exporter's three messages. */
  lemma {:induction false} FetchedResults(get: string -> Response, urls: seq<string>, results: seq<TaskResult>)
    requires |urls| == |results|
    requires forall i | 0 <= i < |urls| :: results[i] == Returned(FetchPage(get, urls[i]))
    ensures forall u | u in UrlResults(urls, results) :: UrlResults(urls, results)[u] == Returned(FetchPage(get, u))
    ensures forall u | u in UrlResults(urls, results) ::
              UrlResults(urls, results)[u].outcome.Content? ||
              UrlResults(urls, results)[u].outcome.error in {NotExist, RateLimited, CantAccess}
    decreases |urls|
  {
    if |urls| > 0 {
      var n := |urls| - 1;
      FetchedResults(get, urls[..n], results[..n]);
    }
  }

  /** The result kept for a URL is that of its last task. */
  lemma {:induction false} UrlResultsLastWins(urls: seq<string>, results: seq<TaskResult>, u: string)
    returns (j: nat)
    requires |urls| == |results| && u in urls
    ensures j < |urls| && urls[j] == u && UrlResults(urls, results)[u] == results[j]
    ensures forall k | j < k < |urls| :: urls[k] != u
    decreases |urls|
  {
    var n := |urls| - 1;
    if urls[n] == u {
      j := n;
    } else {
      assert u in urls[..n];
      j := UrlResultsLastWins(urls[..n], results[..n], u);
    }
  }

  /** Every selected page of the list has a result. */
  predicate Covered(ps: seq<NavPage>, sel: set<string>, m: map<string, TaskResult>) {
    forall p | p in ps && p.url in sel :: p.url in m
  }

  predicate AnySelected(ps: seq<NavPage>, sel: set<string>) {
    exists i | 0 <= i < |ps| :: ps[i].url in sel
  }

  /** The text kept for a page's content: compressed when asked. */
  function Shown(text: string, compress: bool): string {
    if compress then Compress(text) else text
  }

  /** The entries and errors one selected page contributes: its heading,
      then its content when there is some, or an error naming it. */
  function PageParts(p: NavPage, m: map<string, TaskResult>, compress: bool): (seq<Part>, seq<string>)
    requires p.url in m
  {
    match m[p.url]
    case Raised => ([PageHead(p.title)], [p.title + ": " + CantAccess])
    case Returned(Failed(e)) => ([PageHead(p.title)], if e != "" then [p.title + ": " + e] else [])
    case Returned(Content(t)) =>
      ([PageHead(p.title)] + (if t != "" then [Body(Shown(t, compress))] else []), [])
  }

  function PagesParts(ps: seq<NavPage>, sel: set<string>, m: map<string, TaskResult>, compress: bool)
    : (seq<Part>, seq<string>)
    requires Covered(ps, sel, m)
    decreases |ps|
  {
    if |ps| == 0 then ([], [])
    else
      var n := |ps| - 1;
      var front := PagesParts(ps[..n], sel, m, compress);
      if ps[n].url in sel then
        var pp := PageParts(ps[n], m, compress);
        (front.0 + pp.0, front.1 + pp.1)
      else front
  }

  lemma CoveredPrefix(ps: seq<NavPage>, j: nat, sel: set<string>, m: map<string, TaskResult>)
    requires j <= |ps| && Covered(ps, sel, m)
    ensures Covered(ps[..j], sel, m)
  {
    forall p | p in ps[..j] && p.url in sel ensures p.url in m {
      var i :| 0 <= i < j && ps[..j][i] == p;
      assert ps[i] == p;
    }
  }

  /** One more page of a list adds its entries when it is selected. */
  lemma PagesPartsStep(ps: seq<NavPage>, j: nat, sel: set<string>, m: map<string, TaskResult>, compress: bool)
    requires j < |ps| && Covered(ps, sel, m)
    ensures Covered(ps[..j], sel, m) && Covered(ps[..j + 1], sel, m)
    ensures var front := PagesParts(ps[..j], sel, m, compress);
            PagesParts(ps[..j + 1], sel, m, compress) ==
              if ps[j].url in sel then
                (front.0 + PageParts(ps[j], m, compress).0, front.1 + PageParts(ps[j], m, compress).1)
              else front
  {
    CoveredPrefix(ps, j, sel, m);
    CoveredPrefix(ps, j + 1, sel, m);
    assert ps[..j + 1][..j] == ps[..j];
  }

  lemma AnySelectedStep(ps: seq<NavPage>, j: nat, sel: set<string>)
    requires j < |ps|
    ensures AnySelected(ps[..j + 1], sel) <==> AnySelected(ps[..j], sel) || ps[j].url in sel
  {
    if AnySelected(ps[..j + 1], sel) {
      var i :| 0 <= i < j + 1 && ps[..j + 1][i].url in sel;
      if i < j {
        assert ps[..j][i] == ps[i];
      }
    }
    if AnySelected(ps[..j], sel) {
      var i :| 0 <= i < j && ps[..j][i].url in sel;
      assert ps[..j + 1][i] == ps[i];
    }
    assert ps[..j + 1][j] == ps[j];
  }

  /** A group contributes nothing unless one of its pages is selected;
      then its heading comes first, followed by its pages' entries. */
  function GroupParts(g: NavGroup, sel: set<string>, m: map<string, TaskResult>, compress: bool)
    : (seq<Part>, seq<string>)
    requires Covered(g.pages, sel, m)
  {
    if AnySelected(g.pages, sel) then
      var pp := PagesParts(g.pages, sel, m, compress);
      ([GroupHead(g.name)] + pp.0, pp.1)
    else ([], [])
  }

  /** A list of pages none of which is selected contributes nothing. */
  lemma {:induction false} UnselectedParts(ps: seq<NavPage>, sel: set<string>, m: map<string, TaskResult>, compress: bool)
    requires Covered(ps, sel, m) && !AnySelected(ps, sel)
    ensures PagesParts(ps, sel, m, compress) == ([], [])
    decreases |ps|
  {
    if |ps| > 0 {
      var n := |ps| - 1;
      CoveredPrefix(ps, n, sel, m);
      assert !AnySelected(ps[..n], sel) by {
        forall i | 0 <= i < n ensures ps[..n][i].url !in sel {
          assert ps[..n][i] == ps[i];
        }
      }
      UnselectedParts(ps[..n], sel, m, compress);
    }
  }

  /** One more page of a group: a selected page adds its entries, preceded
      by the group's heading when it is the first selected one. */
  lemma GroupPartsStep(g: NavGroup, j: nat, sel: set<string>, m: map<string, TaskResult>, compress: bool)
    requires j < |g.pages| && Covered(g.pages, sel, m)
    ensures Covered(g.pages[..j], sel, m) && Covered(g.pages[..j + 1], sel, m)
    ensures var front := GroupParts(NavGroup(g.name, g.pages[..j]), sel, m, compress);
            GroupParts(NavGroup(g.name, g.pages[..j + 1]), sel, m, compress) ==
              if g.pages[j].url in sel then
                var pp := PageParts(g.pages[j], m, compress);
                ((if AnySelected(g.pages[..j], sel) then front.0 else [GroupHead(g.name)]) + pp.0, front.1 + pp.1)
              else front
  {
    PagesPartsStep(g.pages, j, sel, m, compress);
    AnySelectedStep(g.pages, j, sel);
    var head := [GroupHead(g.name)];
    var before := PagesParts(g.pages[..j], sel, m, compress);
    if g.pages[j].url in sel {
      var pp := PageParts(g.pages[j], m, compress);
      if AnySelected(g.pages[..j], sel) {
        assert head + (before.0 + pp.0) == head + before.0 + pp.0;
      } else {
        UnselectedParts(g.pages[..j], sel, m, compress);
        assert before.0 + pp.0 == pp.0;
      }
    }
  }

  predicate AllCovered(gs: seq<NavGroup>, sel: set<string>, m: map<string, TaskResult>) {
    forall g | g in gs :: Covered(g.pages, sel, m)
  }

  function Assemble(gs: seq<NavGroup>, sel: set<string>, m: map<string, TaskResult>, compress: bool)
    : (seq<Part>, seq<string>)
    requires AllCovered(gs, sel, m)
    decreases |gs|
  {
    if |gs| == 0 then ([], [])
    else
      var n := |gs| - 1;
      var front := Assemble(gs[..n], sel, m, compress);
      var gp := GroupParts(gs[n], sel, m, compress);
      (front.0 + gp.0, front.1 + gp.1)
  }

  lemma ResultsCover(gs: seq<NavGroup>, sel: set<string>, results: seq<TaskResult>)
    requires |results| == |Tasks(gs, sel)|
    ensures AllCovered(gs, sel, UrlResults(Tasks(gs, sel), results))
  {
    TasksCover(gs, sel);
  }

  /** The export: a failed navigation gives no document and that one
      error; otherwise the joined document and the per-page errors. */
  function Export(nav: Result<seq<NavGroup>>, sel: set<string>, results: seq<TaskResult>, compress: bool)
    : (r: (Option<string>, seq<string>))
    requires nav.Ok? ==> |results| == |Tasks(nav.value, sel)|
    ensures nav.Err? <==> r.0.None?
    ensures nav.Err? ==> r.1 == [nav.error]
  {
    if nav.Err? then (None, [nav.error])
    else
      var m := UrlResults(Tasks(nav.value, sel), results);
      ResultsCover(nav.value, sel, results);
      var a := Assemble(nav.value, sel, m, compress);
      (Some(Join(Rendered(a.0))), a.1)
  }

  /** The inner task loop: one group's selected URLs appended. */
  method AddTasks(tasks: seq<string>, group: NavGroup, selected: set<string>) returns (tasks': seq<string>)
    ensures tasks' == tasks + UrlsOf(SelectedOf(group.pages, selected))
  {
    tasks' := tasks;
    for pj := 0 to |group.pages|
      invariant tasks' == tasks + UrlsOf(SelectedOf(group.pages[..pj], selected))
    {
      SelectedUrlsStep(tasks, group.pages, pj, selected);
      if group.pages[pj].url in selected {
        tasks' := tasks' + [group.pages[pj].url];
      }
    }
    assert group.pages[..|group.pages|] == group.pages;
  }

  /** The task-collecting loop: every selected page's URL, group by
      group. */
  method CollectTasks(navStructure: seq<NavGroup>, selected: set<string>) returns (tasks: seq<string>)
    ensures tasks == Tasks(navStructure, selected)
  {
    tasks := [];
    for gi := 0 to |navStructure|
      invariant tasks == Tasks(navStructure[..gi], selected)
    {
      var group := navStructure[gi];
      tasks := AddTasks(tasks, group, selected);
      assert navStructure[..gi + 1] == navStructure[..gi] + [group];
      TasksStep(navStructure[..gi], group, selected);
    }
    assert navStructure[..|navStructure|] == navStructure;
  }

  /** `dict(zip(tasks, results))` built one pair at a time. */
  method ZipResults(tasks: seq<string>, results: seq<TaskResult>) returns (urlResults: map<string, TaskResult>)
    requires |tasks| == |results|
    ensures urlResults == UrlResults(tasks, results)
  {
    urlResults := map[];
    for k := 0 to |tasks|
      invariant urlResults == UrlResults(tasks[..k], results[..k])
    {
      assert tasks[..k + 1][..k] == tasks[..k] && results[..k + 1][..k] == results[..k];
      urlResults := urlResults[tasks[k] := results[k]];
    }
    assert tasks[..|tasks|] == tasks && results[..|results|] == results;
  }

  /** One page of the assembly loop: the rendered entries and the errors
      it appends. */
  method AddPage(page: NavPage, urlResults: map<string, TaskResult>, compressLinks: bool)
    returns (entries: seq<string>, errs: seq<string>)
    requires page.url in urlResults
    ensures entries == Rendered(PageParts(page, urlResults, compressLinks).0)
    ensures errs == PageParts(page, urlResults, compressLinks).1
  {
    entries := ["\n## " + page.title + "\n"];
    errs := [];
    var result := urlResults[page.url];
    if result.Raised? {
      errs := [page.title + ": " + CantAccess];
      return;
    }
    var outcome := result.outcome;
    if outcome.Failed? && outcome.error != "" {
      errs := [page.title + ": " + outcome.error];
      return;
    }
    if outcome.Content? && outcome.text != "" {
      var text := outcome.text;
      if compressLinks {
        text := CompressContent(text);
      }
      entries := entries + [text];
    }
  }

  /** The assembly loop over one group's pages, with the flag that puts
      the group heading before its first selected page. */
  method AddGroup(group: NavGroup, selected: set<string>, urlResults: map<string, TaskResult>, compressLinks: bool)
    returns (entries: seq<string>, errs: seq<string>)
    requires Covered(group.pages, selected, urlResults)
    ensures entries == Rendered(GroupParts(group, selected, urlResults, compressLinks).0)
    ensures errs == GroupParts(group, selected, urlResults, compressLinks).1
  {
    entries, errs := [], [];
    var groupAdded := false;
    for pj := 0 to |group.pages|
      invariant Covered(group.pages[..pj], selected, urlResults)
      invariant groupAdded <==> AnySelected(group.pages[..pj], selected)
      invariant entries == Rendered(GroupParts(NavGroup(group.name, group.pages[..pj]), selected, urlResults, compressLinks).0)
      invariant errs == GroupParts(NavGroup(group.name, group.pages[..pj]), selected, urlResults, compressLinks).1
    {
      GroupPartsStep(group, pj, selected, urlResults, compressLinks);
      AnySelectedStep(group.pages, pj, selected);
      var page := group.pages[pj];
      if page.url in selected {
        ghost var front := GroupParts(NavGroup(group.name, group.pages[..pj]), selected, urlResults, compressLinks).0;
        ghost var head := if groupAdded then front else [GroupHead(group.name)];
        if !groupAdded {
          entries := entries + ["\n# " + group.name + "\n"];
          groupAdded := true;
        }
        assert entries == Rendered(head);
        var more, moreErrs := AddPage(page, urlResults, compressLinks);
        RenderedAppend(head, PageParts(page, urlResults, compressLinks).0);
        entries := entries + more;
        errs := errs + moreErrs;
      }
    }
    assert group.pages[..|group.pages|] == group.pages;
  }

  /** The export as the program runs it: the task loop, the dictionary of
      results, and the assembly loop over groups. */
  method ExportSelectedPages(nav: Result<seq<NavGroup>>, selected: set<string>, results: seq<TaskResult>,
                             compressLinks: bool)
    returns (content: Option<string>, errors: seq<string>)
    requires nav.Ok? ==> |results| == |Tasks(nav.value, selected)|
    ensures (content, errors) == Export(nav, selected, results, compressLinks)
  {
    if nav.Err? {
      return None, [nav.error];
    }
    var navStructure := nav.value;
    var tasks := CollectTasks(navStructure, selected);
    var urlResults := ZipResults(tasks, results);
    ResultsCover(navStructure, selected, results);
    var combined: seq<string> := [];
    errors := [];
    for gi := 0 to |navStructure|
      invariant combined == Rendered(Assemble(navStructure[..gi], selected, urlResults, compressLinks).0)
      invariant errors == Assemble(navStructure[..gi], selected, urlResults, compressLinks).1
    {
      assert navStructure[..gi + 1][..gi] == navStructure[..gi];
      var entries, errs := AddGroup(navStructure[gi], selected, urlResults, compressLinks);
      RenderedAppend(Assemble(navStructure[..gi], selected, urlResults, compressLinks).0,
                     GroupParts(navStructure[gi], selected, urlResults, compressLinks).0);
      combined := combined + entries;
      errors := errors + errs;
    }
    assert navStructure[..|navStructure|] == navStructure;
    content := Some(Join(combined));
  }

  /** Which entries a projection of the document picks. */
  datatype Entries = PageTitles | GroupNames | Bodies

  function Pick(k: Entries, p: Part): seq<string> {
    match k
    case PageTitles => if p.PageHead? then [p.title] else []
    case GroupNames => if p.GroupHead? then [p.name] else []
    case Bodies => if p.Body? then [p.text] else []
  }

  function PickFn(k: Entries): Part -> seq<string> {
    p => Pick(k, p)
  }

  /** The strings a projection picks out of the entries, in order. */
  function Project(parts: seq<Part>, k: Entries): seq<string>
    decreases |parts|
  {
    if |parts| == 0 then [] else Project(parts[..|parts| - 1], k) + Pick(k, parts[|parts| - 1])
  }

  lemma {:induction false} ProjectFlat(s: seq<Part>, k: Entries)
    ensures Project(s, k) == Flat(s, PickFn(k))
    decreases |s|
  {
    if |s| > 0 {
      ProjectFlat(s[..|s| - 1], k);
    }
  }

  lemma ProjectAppend(a: seq<Part>, b: seq<Part>, k: Entries)
    ensures Project(a + b, k) == Project(a, k) + Project(b, k)
  {
    ProjectFlat(a + b, k);
    ProjectFlat(a, k);
    ProjectFlat(b, k);
    FlatAppend(a, b, PickFn(k));
  }

  lemma ProjectSingle(a: Part, k: Entries)
    ensures Project([a], k) == Pick(k, a)
  {
    assert [a][..0] == [];
  }

  /** Reference definitions, page by page: the title heading, the content
      kept (compressed when asked) and the error reported. */
  datatype PageView =
    | Titles
    | Contents(m: map<string, TaskResult>, compress: bool)
    | Errors(m: map<string, TaskResult>)

  function View(v: PageView, p: NavPage): seq<string> {
    match v
    case Titles => [p.title]
    case Contents(m, compress) =>
      if p.url in m && m[p.url].Returned? && m[p.url].outcome.Content? && m[p.url].outcome.text != ""
      then [Shown(m[p.url].outcome.text, compress)]
      else []
    case Errors(m) =>
      if p.url !in m then []
      else if m[p.url].Raised? then [p.title + ": " + CantAccess]
      else if m[p.url].outcome.Failed? && m[p.url].outcome.error != "" then [p.title + ": " + m[p.url].outcome.error]
      else []
  }

  function ViewFn(v: PageView): NavPage -> seq<string> {
    p => View(v, p)
  }

  /** The strings a view gives for each page of a list, in order. */
  function Over(ps: seq<NavPage>, v: PageView): seq<string>
    decreases |ps|
  {
    if |ps| == 0 then [] else Over(ps[..|ps| - 1], v) + View(v, ps[|ps| - 1])
  }

  lemma {:induction false} OverFlat(s: seq<NavPage>, v: PageView)
    ensures Over(s, v) == Flat(s, ViewFn(v))
    decreases |s|
  {
    if |s| > 0 {
      OverFlat(s[..|s| - 1], v);
    }
  }

  lemma OverAppend(a: seq<NavPage>, b: seq<NavPage>, v: PageView)
    ensures Over(a + b, v) == Over(a, v) + Over(b, v)
  {
    OverFlat(a + b, v);
    OverFlat(a, v);
    OverFlat(b, v);
    FlatAppend(a, b, ViewFn(v));
  }

  lemma OverSingle(p: NavPage, v: PageView)
    ensures Over([p], v) == View(v, p)
  {
    assert [p][..0] == [];
  }

  /** What one page contributes, through each projection: its title once,
      its content when it has some, no group heading, and its error. */
  lemma PageProjections(p: NavPage, m: map<string, TaskResult>, compress: bool)
    requires p.url in m
    ensures Project(PageParts(p, m, compress).0, PageTitles) == View(Titles, p)
    ensures Project(PageParts(p, m, compress).0, Bodies) == View(Contents(m, compress), p)
    ensures Project(PageParts(p, m, compress).0, GroupNames) == []
    ensures PageParts(p, m, compress).1 == View(Errors(m), p)
  {
    var head := PageHead(p.title);
    var parts := PageParts(p, m, compress).0;
    ProjectSingle(head, PageTitles);
    ProjectSingle(head, Bodies);
    ProjectSingle(head, GroupNames);
    if |parts| == 2 {
      var body := parts[1];
      assert parts == [head] + [body];
      ProjectAppend([head], [body], PageTitles);
      ProjectAppend([head], [body], Bodies);
      ProjectAppend([head], [body], GroupNames);
      ProjectSingle(body, PageTitles);
      ProjectSingle(body, Bodies);
      ProjectSingle(body, GroupNames);
    } else {
      assert parts == [head];
    }
  }

  /** The view that matches a projection of the document, page by page. */
  function ViewOf(k: Entries, m: map<string, TaskResult>, compress: bool): PageView
    requires k != GroupNames
  {
    if k == PageTitles then Titles else Contents(m, compress)
  }

  /** The entries of the selected pages of a list, through a projection
      other than group headings, are the matching views of those pages,
      in order. */
  lemma {:induction false} PagesProjection(ps: seq<NavPage>, sel: set<string>, m: map<string, TaskResult>,
                                           compress: bool, k: Entries)
    requires Covered(ps, sel, m) && k != GroupNames
    ensures Project(PagesParts(ps, sel, m, compress).0, k) == Over(SelectedOf(ps, sel), ViewOf(k, m, compress))
    decreases |ps|
  {
    if |ps| > 0 {
      var n := |ps| - 1;
      PagesPartsStep(ps, n, sel, m, compress);
      assert ps[..n + 1] == ps;
      PagesProjection(ps[..n], sel, m, compress, k);
      if ps[n].url in sel {
        var front, pp := PagesParts(ps[..n], sel, m, compress), PageParts(ps[n], m, compress);
        assert SelectedOf(ps, sel) == SelectedOf(ps[..n], sel) + [ps[n]];
        PageProjections(ps[n], m, compress);
        ProjectAppend(front.0, pp.0, k);
        OverAppend(SelectedOf(ps[..n], sel), [ps[n]], ViewOf(k, m, compress));
        OverSingle(ps[n], ViewOf(k, m, compress));
      } else {
        assert SelectedOf(ps, sel) == SelectedOf(ps[..n], sel) + [];
        assert SelectedOf(ps, sel) == SelectedOf(ps[..n], sel);
        assert PagesParts(ps, sel, m, compress) == PagesParts(ps[..n], sel, m, compress);
      }
    }
  }

  /** Pages contribute no group heading. */
  lemma {:induction false} PagesNoGroupNames(ps: seq<NavPage>, sel: set<string>, m: map<string, TaskResult>,
                                             compress: bool)
    requires Covered(ps, sel, m)
    ensures Project(PagesParts(ps, sel, m, compress).0, GroupNames) == []
    decreases |ps|
  {
    if |ps| > 0 {
      var n := |ps| - 1;
      PagesPartsStep(ps, n, sel, m, compress);
      assert ps[..n + 1] == ps;
      PagesNoGroupNames(ps[..n], sel, m, compress);
      if ps[n].url in sel {
        var front, pp := PagesParts(ps[..n], sel, m, compress), PageParts(ps[n], m, compress);
        PageProjections(ps[n], m, compress);
        ProjectAppend(front.0, pp.0, GroupNames);
      }
    }
  }

  /** The errors of the selected pages of a list are their error views, in
      order. */
  lemma {:induction false} PagesErrors(ps: seq<NavPage>, sel: set<string>, m: map<string, TaskResult>, compress: bool)
    requires Covered(ps, sel, m)
    ensures PagesParts(ps, sel, m, compress).1 == Over(SelectedOf(ps, sel), Errors(m))
    decreases |ps|
  {
    if |ps| > 0 {
      var n := |ps| - 1;
      PagesPartsStep(ps, n, sel, m, compress);
      assert ps[..n + 1] == ps;
      PagesErrors(ps[..n], sel, m, compress);
      if ps[n].url in sel {
        assert SelectedOf(ps, sel) == SelectedOf(ps[..n], sel) + [ps[n]];
        PageProjections(ps[n], m, compress);
        OverAppend(SelectedOf(ps[..n], sel), [ps[n]], Errors(m));
        OverSingle(ps[n], Errors(m));
      } else {
        assert SelectedOf(ps, sel) == SelectedOf(ps[..n], sel) + [];
        assert SelectedOf(ps, sel) == SelectedOf(ps[..n], sel);
        assert PagesParts(ps, sel, m, compress) == PagesParts(ps[..n], sel, m, compress);
      }
    }
  }

  lemma {:induction false} NoneSelected(ps: seq<NavPage>, sel: set<string>)
    requires !AnySelected(ps, sel)
    ensures SelectedOf(ps, sel) == []
    decreases |ps|
  {
    if |ps| > 0 {
      var n := |ps| - 1;
      assert !AnySelected(ps[..n], sel) by {
        forall i | 0 <= i < n ensures ps[..n][i].url !in sel {
          assert ps[..n][i] == ps[i];
        }
      }
      NoneSelected(ps[..n], sel);
    }
  }

  /** The same for one group, whose heading the page projections skip. */
  lemma GroupProjection(gr: NavGroup, sel: set<string>, m: map<string, TaskResult>, compress: bool, k: Entries)
    requires Covered(gr.pages, sel, m) && k != GroupNames
    ensures Project(GroupParts(gr, sel, m, compress).0, k) == Over(SelectedOf(gr.pages, sel), ViewOf(k, m, compress))
    ensures Project(GroupParts(gr, sel, m, compress).0, GroupNames) ==
            if AnySelected(gr.pages, sel) then [gr.name] else []
    ensures GroupParts(gr, sel, m, compress).1 == Over(SelectedOf(gr.pages, sel), Errors(m))
  {
    PagesProjection(gr.pages, sel, m, compress, k);
    PagesNoGroupNames(gr.pages, sel, m, compress);
    PagesErrors(gr.pages, sel, m, compress);
    var pp := PagesParts(gr.pages, sel, m, compress);
    if AnySelected(gr.pages, sel) {
      ProjectAppend([GroupHead(gr.name)], pp.0, k);
      ProjectAppend([GroupHead(gr.name)], pp.0, GroupNames);
      ProjectSingle(GroupHead(gr.name), k);
      ProjectSingle(GroupHead(gr.name), GroupNames);
    } else {
      NoneSelected(gr.pages, sel);
    }
  }

  /** The names of the groups that have a selected page, in order. */
  function SelectedGroupNames(gs: seq<NavGroup>, sel: set<string>): seq<string>
    decreases |gs|
  {
    if |gs| == 0 then []
    else
      var n := |gs| - 1;
      SelectedGroupNames(gs[..n], sel) + (if AnySelected(gs[n].pages, sel) then [gs[n].name] else [])
  }

  lemma SelectedPagesStep(gs: seq<NavGroup>, n: nat, sel: set<string>)
    requires n < |gs|
    ensures SelectedPages(gs[..n + 1], sel) == SelectedPages(gs[..n], sel) + SelectedOf(gs[n].pages, sel)
  {
    assert gs[..n + 1][..n] == gs[..n];
    SelectedAppend(AllPages(gs[..n]), gs[n].pages, sel);
  }

  lemma AssembleStep(gs: seq<NavGroup>, sel: set<string>, m: map<string, TaskResult>, compress: bool)
    requires |gs| > 0 && AllCovered(gs, sel, m)
    ensures AllCovered(gs[..|gs| - 1], sel, m) && Covered(gs[|gs| - 1].pages, sel, m)
    ensures var n := |gs| - 1;
            var front, gp := Assemble(gs[..n], sel, m, compress), GroupParts(gs[n], sel, m, compress);
            Assemble(gs, sel, m, compress) == (front.0 + gp.0, front.1 + gp.1)
  {
    var n := |gs| - 1;
    assert forall g | g in gs[..n] :: g in gs;
    assert gs[n] in gs;
  }

  /** Across the whole structure, the page headings, the bodies and the
      errors are the views of the selected pages, in navigation order. */
  lemma {:induction false} AssemblePages(gs: seq<NavGroup>, sel: set<string>, m: map<string, TaskResult>,
                                         compress: bool, k: Entries)
    requires AllCovered(gs, sel, m) && k != GroupNames
    ensures Project(Assemble(gs, sel, m, compress).0, k) == Over(SelectedPages(gs, sel), ViewOf(k, m, compress))
    ensures Assemble(gs, sel, m, compress).1 == Over(SelectedPages(gs, sel), Errors(m))
    decreases |gs|
  {
    if |gs| > 0 {
      var n := |gs| - 1;
      AssembleStep(gs, sel, m, compress);
      AssemblePages(gs[..n], sel, m, compress, k);
      GroupProjection(gs[n], sel, m, compress, k);
      var front, gp := Assemble(gs[..n], sel, m, compress), GroupParts(gs[n], sel, m, compress);
      ProjectAppend(front.0, gp.0, k);
      SelectedPagesStep(gs, n, sel);
      assert gs[..n + 1] == gs;
      OverAppend(SelectedPages(gs[..n], sel), SelectedOf(gs[n].pages, sel), ViewOf(k, m, compress));
      OverAppend(SelectedPages(gs[..n], sel), SelectedOf(gs[n].pages, sel), Errors(m));
    }
  }

  /** Across the whole structure, the group headings are the names of the
      groups with a selected page, each once, in navigation order. */
  lemma {:induction false} AssembleGroups(gs: seq<NavGroup>, sel: set<string>, m: map<string, TaskResult>,
                                          compress: bool)
    requires AllCovered(gs, sel, m)
    ensures Project(Assemble(gs, sel, m, compress).0, GroupNames) == SelectedGroupNames(gs, sel)
    decreases |gs|
  {
    if |gs| > 0 {
      var n := |gs| - 1;
      AssembleStep(gs, sel, m, compress);
      AssembleGroups(gs[..n], sel, m, compress);
      GroupProjection(gs[n], sel, m, compress, PageTitles);
      var front, gp := Assemble(gs[..n], sel, m, compress), GroupParts(gs[n], sel, m, compress);
      ProjectAppend(front.0, gp.0, GroupNames);
    }
  }

  /** The exported document of a navigation structure, read entry by
      entry: one heading per group with a selected page, one heading per
      selected page in navigation order, the content of each page that
      has some (compressed when asked) and the error of each that failed,
      each looked up under the result of the page's last fetch task. */
  lemma ExportContents(gs: seq<NavGroup>, sel: set<string>, results: seq<TaskResult>, compress: bool)
    returns (parts: seq<Part>, m: map<string, TaskResult>)
    requires |results| == |Tasks(gs, sel)|
    ensures m == UrlResults(Tasks(gs, sel), results)
    ensures Export(Ok(gs), sel, results, compress) == (Some(Join(Rendered(parts))), Over(SelectedPages(gs, sel), Errors(m)))
    ensures Project(parts, GroupNames) == SelectedGroupNames(gs, sel)
    ensures Project(parts, PageTitles) == Over(SelectedPages(gs, sel), Titles)
    ensures Project(parts, Bodies) == Over(SelectedPages(gs, sel), Contents(m, compress))
  {
    m := UrlResults(Tasks(gs, sel), results);
    ResultsCover(gs, sel, results);
    parts := Assemble(gs, sel, m, compress).0;
    AssemblePages(gs, sel, m, compress, PageTitles);
    AssemblePages(gs, sel, m, compress, Bodies);
    AssembleGroups(gs, sel, m, compress);
  }

  /** When every result is a fetch outcome or an exception, every error
      names a page of the list and gives one of the exporter's three
      messages. */
  lemma {:induction false} ErrorMessages(ps: seq<NavPage>, m: map<string, TaskResult>)
    requires forall u | u in m :: m[u].Raised? || m[u].outcome.Content? ||
                                  m[u].outcome.error in {NotExist, RateLimited, CantAccess}
    ensures forall e | e in Over(ps, Errors(m)) ::
              exists p | p in ps :: e in {p.title + ": " + NotExist, p.title + ": " + RateLimited, p.title + ": " + CantAccess}
    decreases |ps|
  {
    if |ps| > 0 {
      var n := |ps| - 1;
      ErrorMessages(ps[..n], m);
      forall e | e in Over(ps, Errors(m))
        ensures exists p | p in ps :: e in {p.title + ": " + NotExist, p.title + ": " + RateLimited, p.title + ": " + CantAccess}
      {
        if e in Over(ps[..n], Errors(m)) {
          var p :| p in ps[..n] && e in {p.title + ": " + NotExist, p.title + ": " + RateLimited, p.title + ": " + CantAccess};
          assert p in ps;
        } else {
          assert e in View(Errors(m), ps[n]);
          assert ps[n] in ps;
        }
      }
    }
  }
}
