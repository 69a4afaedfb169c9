/** Navigation extraction: the documentation site's sidebar, reduced to
    the parts the exporter reads, becomes an ordered list of groups of
    pages with absolute URLs. */
module Navigation {
  import opened Wrappers
  import opened Text
  import opened Urls
  import opened Fetch

  /** A link inside a group's list: its text and its `href`, if it has one. */
  datatype Anchor = Anchor(text: string, href: Option<string>)

  /** A sidebar group header: the text of its `h5` heading, if it has one,
      and the links of the list that follows it, if a list follows. */
  datatype GroupHeader = GroupHeader(title: Option<string>, links: Option<seq<Anchor>>)

  type Sidebar = seq<GroupHeader>

  datatype NavPage = NavPage(title: string, url: string, path: string)

  datatype NavGroup = NavGroup(name: string, pages: seq<NavPage>)

  /** The exporter's fixed configuration: the base URL without trailing
      slashes and the host part of the URL it was given. */
  datatype Exporter = Exporter(baseUrl: string, domain: string)

  /** Building an exporter; `netloc` stands for the URL parser's host part. */
  function NewExporter(url: string, netloc: string -> string): (e: Exporter)
    ensures StartsWith(url, e.baseUrl)
    ensures |e.baseUrl| == 0 || e.baseUrl[|e.baseUrl| - 1] != '/'
    ensures forall i | |e.baseUrl| <= i < |url| :: url[i] == '/'
    ensures e.domain == netloc(url)
  {
    Exporter(StripTrailingSlashes(url), netloc(url))
  }

  /** A root-relative `href` is joined to the domain under `https`; any
      other is resolved against the base URL by `join` (the URL library's
      relative-reference resolution, not modelled). */
  function ResolveHref(e: Exporter, href: string, join: (string, string) -> string): string {
    if StartsWith(href, "/") then "https://" + e.domain + href else join(e.baseUrl, href)
  }

  /** The pages of one list: one per link that has an `href`, in order. */
  function PagesOf(e: Exporter, links: seq<Anchor>, join: (string, string) -> string): seq<NavPage>
    decreases |links|
  {
    if |links| == 0 then []
    else
      var a := links[|links| - 1];
      PagesOf(e, links[..|links| - 1], join) +
        (if a.href.Some? then [NavPage(a.text, ResolveHref(e, a.href.value, join), a.href.value)] else [])
  }

  /** What one header contributes: nothing without a title or without
      pages, otherwise one group. */
  function GroupOf(e: Exporter, h: GroupHeader, join: (string, string) -> string): seq<NavGroup> {
    if h.title.None? then []
    else
      var pages := if h.links.Some? then PagesOf(e, h.links.value, join) else [];
      if |pages| == 0 then [] else [NavGroup(h.title.value, pages)]
  }

  function GroupsOf(e: Exporter, hs: Sidebar, join: (string, string) -> string): (gs: seq<NavGroup>)
    ensures forall i | 0 <= i < |gs| :: |gs[i].pages| > 0
    decreases |hs|
  {
    if |hs| == 0 then [] else GroupsOf(e, hs[..|hs| - 1], join) + GroupOf(e, hs[|hs| - 1], join)
  }

  /** The inner loop over one header's links: every link with an `href`
      becomes a page. */
  method HeaderPages(e: Exporter, links: seq<Anchor>, join: (string, string) -> string)
    returns (groupPages: seq<NavPage>)
    ensures groupPages == PagesOf(e, links, join)
  {
    groupPages := [];
    for j := 0 to |links|
      invariant groupPages == PagesOf(e, links[..j], join)
    {
      assert links[..j + 1][..j] == links[..j];
      var link := links[j];
      if link.href.Some? {
        groupPages := groupPages + [NavPage(link.text, ResolveHref(e, link.href.value, join), link.href.value)];
      }
    }
    assert links[..|links|] == links;
  }

  /** The synchronous client raises for 4xx and 5xx statuses. */
  predicate BaseReachable(r: Response) {
    r.Response? && !(400 <= r.status < 600)
  }

  /** The navigation structure for a response to the base-page request;
      `locate` stands for the HTML parser finding the sidebar. */
  function Navigation(e: Exporter, r: Response, locate: string -> Option<Sidebar>,
                      join: (string, string) -> string): (res: Result<seq<NavGroup>>)
    ensures res == Err(CantAccess) <==> !BaseReachable(r)
    ensures res == Err(NotExist) <==> BaseReachable(r) && locate(r.body).None?
    ensures res.Err? ==> res.error in {CantAccess, NotExist}
    ensures res.Ok? <==> BaseReachable(r) && locate(r.body).Some?
    ensures res.Ok? ==> forall g | g in res.value :: |g.pages| > 0
  {
    if !BaseReachable(r) then Err(CantAccess)
    else match locate(r.body)
      case None => Err(NotExist)
      case Some(sidebar) => Ok(GroupsOf(e, sidebar, join))
  }

  /** The imperative extraction: a loop over the headers appending the
      non-empty groups, each built by the inner loop `HeaderPages`. */
  method GetNavigationStructure(e: Exporter, r: Response, locate: string -> Option<Sidebar>,
                                join: (string, string) -> string)
    returns (res: Result<seq<NavGroup>>)
    ensures res == Navigation(e, r, locate, join)
  {
    if !BaseReachable(r) {
      return Err(CantAccess);
    }
    var found := locate(r.body);
    if found.None? {
      return Err(NotExist);
    }
    var sidebar := found.value;
    var pages: seq<NavGroup> := [];
    for i := 0 to |sidebar|
      invariant pages == GroupsOf(e, sidebar[..i], join)
    {
      assert sidebar[..i + 1][..i] == sidebar[..i];
      assert GroupsOf(e, sidebar[..i + 1], join) == pages + GroupOf(e, sidebar[i], join);
      var group := sidebar[i];
      if group.title.None? {
        continue;
      }
      var groupPages: seq<NavPage> := [];
      if group.links.Some? {
        groupPages := HeaderPages(e, group.links.value, join);
      }
      if |groupPages| > 0 {
        pages := pages + [NavGroup(group.title.value, groupPages)];
      }
    }
    assert sidebar[..|sidebar|] == sidebar;
    return Ok(pages);
  }

  /** Every page of an extracted group has the URL its `href` resolves
      to; a root-relative `href` gives `https://` + domain + `href`. */
  lemma {:induction false} PageUrlsResolved(e: Exporter, hs: Sidebar, join: (string, string) -> string)
    ensures forall g, p | g in GroupsOf(e, hs, join) && p in g.pages ::
              p.url == ResolveHref(e, p.path, join) &&
              (StartsWith(p.path, "/") ==> p.url == "https://" + e.domain + p.path)
    decreases |hs|
  {
    if |hs| > 0 {
      PageUrlsResolved(e, hs[..|hs| - 1], join);
      var h := hs[|hs| - 1];
      if h.title.Some? && h.links.Some? {
        PagesResolved(e, h.links.value, join);
      }
    }
  }

  lemma {:induction false} PagesResolved(e: Exporter, links: seq<Anchor>, join: (string, string) -> string)
    ensures forall p | p in PagesOf(e, links, join) :: p.url == ResolveHref(e, p.path, join)
    decreases |links|
  {
    if |links| > 0 {
      PagesResolved(e, links[..|links| - 1], join);
    }
  }

  /** The pages of a list correspond one to one, in order, to its links
      that have an `href`: `idx` lists those links' positions. */
  lemma {:induction false} PagesOrigin(e: Exporter, links: seq<Anchor>, join: (string, string) -> string)
    returns (idx: seq<nat>)
    ensures |idx| == |PagesOf(e, links, join)|
    ensures forall i, j | 0 <= i < j < |idx| :: idx[i] < idx[j]
    ensures forall i | 0 <= i < |idx| :: idx[i] < |links| && links[idx[i]].href.Some?
    ensures forall i | 0 <= i < |idx| ::
              PagesOf(e, links, join)[i] ==
                NavPage(links[idx[i]].text, ResolveHref(e, links[idx[i]].href.value, join), links[idx[i]].href.value)
    ensures forall k | 0 <= k < |links| && links[k].href.Some? :: k in idx
    decreases |links|
  {
    if |links| == 0 {
      idx := [];
    } else {
      var n := |links| - 1;
      var front := PagesOrigin(e, links[..n], join);
      if links[n].href.Some? {
        idx := front + [n];
      } else {
        idx := front;
      }
    }
  }

  /** Header `k` is the origin of group `g`. */
  predicate OriginOf(e: Exporter, hs: Sidebar, join: (string, string) -> string, k: nat, g: NavGroup) {
    k < |hs| && hs[k].title == Some(g.name) && hs[k].links.Some? && g.pages == PagesOf(e, hs[k].links.value, join)
  }

  /** Header `k` contributes no group. */
  predicate Skipped(e: Exporter, hs: Sidebar, join: (string, string) -> string, k: nat)
    requires k < |hs|
  {
    hs[k].title.None? || hs[k].links.None? || PagesOf(e, hs[k].links.value, join) == []
  }

  lemma OriginOrderStep(front: seq<nat>, n: nat, idx: seq<nat>)
    requires forall i, j | 0 <= i < j < |front| :: front[i] < front[j]
    requires forall i | 0 <= i < |front| :: front[i] < n
    requires idx == front + [n] || idx == front
    ensures forall i, j | 0 <= i < j < |idx| :: idx[i] < idx[j]
  {
  }

  lemma OriginMatchStep(e: Exporter, hs: Sidebar, join: (string, string) -> string, front: seq<nat>, idx: seq<nat>)
    requires |hs| > 0
    requires var fgs := GroupsOf(e, hs[..|hs| - 1], join);
             |front| == |fgs| && forall i | 0 <= i < |front| :: OriginOf(e, hs[..|hs| - 1], join, front[i], fgs[i])
    requires idx == if GroupOf(e, hs[|hs| - 1], join) != [] then front + [|hs| - 1] else front
    ensures var gs := GroupsOf(e, hs, join);
            |idx| == |gs| && forall i | 0 <= i < |idx| :: OriginOf(e, hs, join, idx[i], gs[i])
  {
    var n := |hs| - 1;
    var gs, fgs := GroupsOf(e, hs, join), GroupsOf(e, hs[..n], join);
    assert gs == fgs + GroupOf(e, hs[n], join);
    forall i | 0 <= i < |front| ensures OriginOf(e, hs, join, idx[i], gs[i]) {
      assert idx[i] == front[i] && gs[i] == fgs[i];
      assert OriginOf(e, hs[..n], join, front[i], fgs[i]);
      assert hs[..n][front[i]] == hs[front[i]];
    }
    if GroupOf(e, hs[n], join) != [] {
      assert idx[|front|] == n && gs[|front|] == GroupOf(e, hs[n], join)[0];
    }
  }

  lemma OriginSkipStep(e: Exporter, hs: Sidebar, join: (string, string) -> string, front: seq<nat>, idx: seq<nat>)
    requires |hs| > 0
    requires forall k | 0 <= k < |hs| - 1 && k !in front :: Skipped(e, hs[..|hs| - 1], join, k)
    requires idx == if GroupOf(e, hs[|hs| - 1], join) != [] then front + [|hs| - 1] else front
    ensures forall k | 0 <= k < |hs| && k !in idx :: Skipped(e, hs, join, k)
  {
    var n := |hs| - 1;
    forall k | 0 <= k < |hs| && k !in idx ensures Skipped(e, hs, join, k) {
      if k < n {
        assert k !in front;
        assert Skipped(e, hs[..n], join, k);
        assert hs[..n][k] == hs[k];
      }
    }
  }

  /** The groups correspond, in sidebar order, to the headers that have a
      title and at least one page; every other header contributes
      nothing. */
  lemma {:induction false} GroupsOrigin(e: Exporter, hs: Sidebar, join: (string, string) -> string)
    returns (idx: seq<nat>)
    ensures |idx| == |GroupsOf(e, hs, join)|
    ensures forall i, j | 0 <= i < j < |idx| :: idx[i] < idx[j]
    ensures forall i | 0 <= i < |idx| :: OriginOf(e, hs, join, idx[i], GroupsOf(e, hs, join)[i])
    ensures forall k | 0 <= k < |hs| && k !in idx :: Skipped(e, hs, join, k)
    decreases |hs|
  {
    if |hs| == 0 {
      idx := [];
    } else {
      var n := |hs| - 1;
      var front := GroupsOrigin(e, hs[..n], join);
      idx := if GroupOf(e, hs[n], join) != [] then front + [n] else front;
      OriginOrderStep(front, n, idx);
      OriginMatchStep(e, hs, join, front, idx);
      OriginSkipStep(e, hs, join, front, idx);
    }
  }

  function AllPages(gs: seq<NavGroup>): seq<NavPage> {
    if |gs| == 0 then [] else AllPages(gs[..|gs| - 1]) + gs[|gs| - 1].pages
  }

  /** The pages of every titled header, empty groups included. */
  function TitledPages(e: Exporter, hs: Sidebar, join: (string, string) -> string): seq<NavPage>
    decreases |hs|
  {
    if |hs| == 0 then []
    else
      var h := hs[|hs| - 1];
      TitledPages(e, hs[..|hs| - 1], join) +
        (if h.title.Some? && h.links.Some? then PagesOf(e, h.links.value, join) else [])
  }

  /** Dropping empty groups loses no page: the pages of the result, read
      group by group, are the pages of all titled headers in sidebar order. */
  lemma {:induction false} GroupsKeepEveryPage(e: Exporter, hs: Sidebar, join: (string, string) -> string)
    ensures AllPages(GroupsOf(e, hs, join)) == TitledPages(e, hs, join)
    decreases |hs|
  {
    if |hs| > 0 {
      var n := |hs| - 1;
      GroupsKeepEveryPage(e, hs[..n], join);
      var front := GroupsOf(e, hs[..n], join);
      var last := GroupOf(e, hs[n], join);
      AllPagesAppend(front, last);
    }
  }

  lemma {:induction false} AllPagesAppend(a: seq<NavGroup>, b: seq<NavGroup>)
    ensures AllPages(a + b) == AllPages(a) + AllPages(b)
    decreases |b|
  {
    if |b| == 0 {
      assert a + b == a;
    } else {
      var n := |b| - 1;
      assert (a + b)[..|a + b| - 1] == a + b[..n];
      AllPagesAppend(a, b[..n]);
    }
  }
}
