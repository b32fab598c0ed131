/** The crawl (`PresidentialActionsScraper`, scrape.py:12-111): read the page
    count off the listing root, visit every listing page, find the article
    URLs on each and keep the articles that have both a title and content.

    The network and the HTML parser are inputs. `fetch` returns the body of
    a URL, with `""` standing for any failed request; `parse` returns what
    the parser reports about a body. The spec functions below describe the
    crawl in terms of them, and the methods of `Scraper` perform it with the
    loops of the source and are proved to produce the same values. */
module Crawl {
  import opened Wrappers
  import opened Text
  import opened Pagination
  import opened Links
  import opened Article
  import opened Seqs

  /** What the HTML parser reports about a page: the `href` of every anchor
      (`""` for an anchor without one), the text of the first <h1> if there
      is one, and the text of every <p>, all in document order. */
  datatype ParsedPage = ParsedPage(hrefs: seq<string>, h1: Option<string>, paragraphs: seq<string>)

  /** The world the scraper talks to. */
  datatype Web = Web(fetch: string -> string, parse: string -> ParsedPage)

  /** A collected action: its title and its content. */
  type Action = (string, string)

  /** The listing root used when no other base URL is given. */
  const DefaultBaseUrl := "https://www.whitehouse.gov/presidential-actions/"

  /** An extracted pair is kept only when both halves are non-empty. */
  predicate Kept(a: Action) {
    a.0 != "" && a.1 != ""
  }

  /** The anchors of the listing root; a failed fetch leaves an empty
      document, which has none. */
  function RootHrefs(web: Web, base: string): seq<string> {
    var body := web.fetch(base);
    if body == "" then [] else web.parse(body).hrefs
  }

  /** `get_action_content` for one article URL. */
  function ActionContent(web: Web, url: string): Action {
    var body := web.fetch(url);
    var doc := web.parse(body);
    Extract(url, body, doc.h1, doc.paragraphs)
  }

  /** The kept articles among `urls`, in order. */
  function ActionsOf(web: Web, urls: seq<string>): (actions: seq<Action>)
    decreases |urls|
    ensures forall a :: a in actions ==> Kept(a)
  {
    if urls == [] then []
    else
      var a := ActionContent(web, urls[|urls| - 1]);
      ActionsOf(web, urls[..|urls| - 1]) + (if Kept(a) then [a] else [])
  }

  /** `collect_page_actions`: nothing for a page that cannot be fetched,
      otherwise the kept articles among the detail URLs found on it. */
  function PageActions(web: Web, pageUrl: string): (actions: seq<Action>)
    ensures forall a :: a in actions ==> Kept(a)
  {
    var body := web.fetch(pageUrl);
    if body == "" then [] else ActionsOf(web, FindDetailUrls(body))
  }

  /** The actions of the listing pages `pageUrls`, page after page. */
  function AllActionsOf(web: Web, pageUrls: seq<string>): (actions: seq<Action>)
    decreases |pageUrls|
    ensures forall a :: a in actions ==> Kept(a)
  {
    if pageUrls == [] then []
    else AllActionsOf(web, pageUrls[..|pageUrls| - 1]) + PageActions(web, pageUrls[|pageUrls| - 1])
  }

  /** `collect_all_actions`: the actions of every listing page up to the
      page count read off the root. */
  function AllActions(web: Web, base: string): seq<Action> {
    AllActionsOf(web, PageUrls(base, TotalPages(RootHrefs(web, base))))
  }

  // ---------------------------------------------------------------------
  // Properties of the crawl
  // ---------------------------------------------------------------------

  /** An action is collected from a list of URLs exactly when it is the
      non-empty extraction of one of them. */
  lemma {:induction false} ActionsOfExactly(web: Web, urls: seq<string>)
    ensures forall a :: a in ActionsOf(web, urls)
                        <==> Kept(a) && exists u :: u in urls && ActionContent(web, u) == a
    decreases |urls|
  {
    if urls != [] {
      var init := urls[..|urls| - 1];
      ActionsOfExactly(web, init);
      assert forall u :: u in urls <==> u in init || u == urls[|urls| - 1];
    }
  }

  /** Collecting two runs of URLs gives the two results one after the other. */
  lemma {:induction false} ActionsOfAppend(web: Web, u: seq<string>, v: seq<string>)
    ensures ActionsOf(web, u + v) == ActionsOf(web, u) + ActionsOf(web, v)
    decreases |v|
  {
    if v == [] {
      assert u + v == u;
    } else {
      var init, last := v[..|v| - 1], v[|v| - 1];
      var a := ActionContent(web, last);
      assert ActionsOf(web, u + v) == ActionsOf(web, u + init) + (if Kept(a) then [a] else []) by {
        assert (u + v)[..|u + v| - 1] == u + init;
        assert (u + v)[|u + v| - 1] == last;
      }
      ActionsOfAppend(web, u, init);
    }
  }

  /** One more URL extends the result by its extraction, if kept. */
  lemma ActionsOfPrefix(web: Web, urls: seq<string>, i: nat)
    requires i < |urls|
    ensures var a := ActionContent(web, urls[i]);
            ActionsOf(web, urls[..i + 1]) == ActionsOf(web, urls[..i]) + (if Kept(a) then [a] else [])
  {
    assert urls[..i + 1][..i] == urls[..i];
  }

  /** An article whose extraction is not kept (its fetch failed, or it has
      no title or no content) leaves the result as if its URL had not been
      on the page. */
  lemma DroppedArticleIsSkipped(web: Web, urls: seq<string>, k: nat)
    requires k < |urls| && !Kept(ActionContent(web, urls[k]))
    ensures ActionsOf(web, urls) == ActionsOf(web, urls[..k] + urls[k + 1..])
  {
    var before, after := urls[..k], urls[k + 1..];
    assert urls == (before + [urls[k]]) + after;
    ActionsOfAppend(web, before + [urls[k]], after);
    ActionsOfAppend(web, before, [urls[k]]);
    assert ActionsOf(web, [urls[k]]) == [] by {
      assert [urls[k]][..0] == [];
    }
    assert ActionsOf(web, before) + [] == ActionsOf(web, before);
    ActionsOfAppend(web, before, after);
  }

  /** An article URL that cannot be fetched is never kept. */
  lemma FailedArticleNotKept(web: Web, url: string)
    requires web.fetch(url) == ""
    ensures ActionContent(web, url) == ("", "") && !Kept(ActionContent(web, url))
  {
  }

  /** Crawling two runs of listing pages gives the two results one after the
      other: the overall result is in page order. */
  lemma {:induction false} AllActionsOfAppend(web: Web, p: seq<string>, q: seq<string>)
    ensures AllActionsOf(web, p + q) == AllActionsOf(web, p) + AllActionsOf(web, q)
    decreases |q|
  {
    if q == [] {
      assert p + q == p;
      assert AllActionsOf(web, q) == [];
    } else {
      var init, last := q[..|q| - 1], q[|q| - 1];
      assert AllActionsOf(web, p + q) == AllActionsOf(web, p + init) + PageActions(web, last) by {
        assert (p + q)[..|p + q| - 1] == p + init;
        assert (p + q)[|p + q| - 1] == last;
      }
      var x, y, z := AllActionsOf(web, p), AllActionsOf(web, init), PageActions(web, last);
      assert AllActionsOf(web, q) == y + z;
      AllActionsOfAppend(web, p, init);
      assert AllActionsOf(web, p + q) == (x + y) + z;
      AppendAssoc(x, y, z);
    }
  }

  /** One more listing page extends the result by that page's actions. */
  lemma AllActionsOfPrefix(web: Web, pageUrls: seq<string>, i: nat)
    requires i < |pageUrls|
    ensures AllActionsOf(web, pageUrls[..i + 1]) == AllActionsOf(web, pageUrls[..i]) + PageActions(web, pageUrls[i])
  {
    assert pageUrls[..i + 1][..i] == pageUrls[..i];
  }

  /** The crawl is the concatenation of the per-page results, in page order. */
  lemma {:induction false} AllActionsOfIsConcat(web: Web, pageUrls: seq<string>, k: nat)
    requires k < |pageUrls|
    ensures AllActionsOf(web, pageUrls)
            == AllActionsOf(web, pageUrls[..k]) + PageActions(web, pageUrls[k]) + AllActionsOf(web, pageUrls[k + 1..])
  {
    assert pageUrls == pageUrls[..k] + [pageUrls[k]] + pageUrls[k + 1..];
    AllActionsOfAppend(web, pageUrls[..k] + [pageUrls[k]], pageUrls[k + 1..]);
    AllActionsOfAppend(web, pageUrls[..k], [pageUrls[k]]);
    assert [pageUrls[k]][..0] == [];
  }

  /** A listing page that cannot be fetched contributes nothing. */
  lemma FailedPageContributesNothing(web: Web, pageUrls: seq<string>, k: nat)
    requires k < |pageUrls| && web.fetch(pageUrls[k]) == ""
    ensures AllActionsOf(web, pageUrls) == AllActionsOf(web, pageUrls[..k] + pageUrls[k + 1..])
  {
    var before, after := pageUrls[..k], pageUrls[k + 1..];
    AllActionsOfIsConcat(web, pageUrls, k);
    AllActionsOfAppend(web, before, after);
    DropEmptyMiddle(AllActionsOf(web, before), PageActions(web, pageUrls[k]), AllActionsOf(web, after));
  }

  /** When the listing root itself cannot be fetched, the page count falls
      back to 1, the only page visited is the root, and nothing is
      collected. */
  lemma RootFailureCollectsNothing(web: Web, base: string)
    requires web.fetch(base) == ""
    ensures PageUrls(base, TotalPages(RootHrefs(web, base))) == [base]
    ensures AllActions(web, base) == []
  {
    assert PageNumbers([]) == [];
    assert PageUrls(base, 1)[0] == PageUrl(base, 1);
    var pages := PageUrls(base, TotalPages(RootHrefs(web, base)));
    assert pages == [base];
    assert pages[..0] == [];
    assert AllActionsOf(web, pages) == AllActionsOf(web, []) + PageActions(web, base);
  }

  /** Every action the crawl returns is the extraction of a detail URL found
      on one of the listing pages it visited, and has a title and content. */
  lemma {:induction false} AllActionsOfOrigin(web: Web, pageUrls: seq<string>, a: Action)
    requires a in AllActionsOf(web, pageUrls)
    ensures Kept(a)
    ensures exists p, u :: p in pageUrls && u in FindDetailUrls(web.fetch(p)) && ActionContent(web, u) == a
    decreases |pageUrls|
  {
    var init := pageUrls[..|pageUrls| - 1];
    var last := pageUrls[|pageUrls| - 1];
    if a in AllActionsOf(web, init) {
      AllActionsOfOrigin(web, init, a);
      var p, u :| p in init && u in FindDetailUrls(web.fetch(p)) && ActionContent(web, u) == a;
      assert p in pageUrls;
    } else {
      assert a in PageActions(web, last);
      ActionsOfExactly(web, FindDetailUrls(web.fetch(last)));
    }
  }

  /** The default listing root ends with the listing path, so the page URLs
      generated from it read back as the page numbers they name. */
  lemma DefaultBaseUrlIsListing()
    ensures EndsWithListingPath(DefaultBaseUrl)
  {
    assert DefaultBaseUrl[|DefaultBaseUrl| - |ListingPath|..] == ListingPath;
  }

  // ---------------------------------------------------------------------
  // The scraper
  // ---------------------------------------------------------------------

  /** `PresidentialActionsScraper`: a base URL and the world it reads. */
  class Scraper {
    const baseUrl: string
    const web: Web

    constructor(baseUrl: string, web: Web)
      ensures this.baseUrl == baseUrl && this.web == web
    {
      this.baseUrl := baseUrl;
      this.web := web;
    }

    /** `get_total_pages`: collect the page number of every pagination
        anchor of the root, then take the largest, or 1 when there is
        none. */
    method GetTotalPages() returns (total: nat)
      ensures total == TotalPages(RootHrefs(web, baseUrl))
    {
      var body := web.fetch(baseUrl);
      var hrefs := if body == "" then [] else web.parse(body).hrefs;
      var pageNumbers: seq<nat> := [];
      var i := 0;
      while i < |hrefs|
        invariant 0 <= i <= |hrefs|
        invariant pageNumbers == PageNumbers(hrefs[..i])
      {
        var href := hrefs[i];
        PageNumbersPrefix(hrefs, i);
        if Contains(href, PaginationMarker) {
          var pageNum := ParseDecimal(RStrip(LastPiece(href, PageSegment), IsSlash));
          if pageNum.Some? {
            pageNumbers := pageNumbers + [pageNum.value];
          }
        }
        i := i + 1;
      }
      assert hrefs[..i] == hrefs;
      if pageNumbers != [] {
        total := Max(pageNumbers);
      } else {
        total := 1;
      }
    }

    /** `get_action_content`: the sentinel `("", "")` when the article
        cannot be fetched, otherwise its title and content. */
    method GetActionContent(url: string) returns (title: string, content: string)
      ensures (title, content) == ActionContent(web, url)
    {
      var body := web.fetch(url);
      if body == "" {
        return "", "";
      }
      var doc := web.parse(body);
      title := match doc.h1 case Some(text) => Strip(text) case None => TitleFromUrl(url);
      content := Content(doc.paragraphs);
    }

    /** `collect_page_actions`: fetch the listing page, find its detail URLs
        and keep every article with both a title and content. */
    method CollectPageActions(pageUrl: string) returns (actions: seq<Action>)
      ensures actions == PageActions(web, pageUrl)
      ensures forall a :: a in actions ==> Kept(a)
    {
      var body := web.fetch(pageUrl);
      if body == "" {
        return [];
      }
      var actionUrls := FindDetailUrls(body);
      actions := [];
      var i := 0;
      while i < |actionUrls|
        invariant 0 <= i <= |actionUrls|
        invariant actions == ActionsOf(web, actionUrls[..i])
      {
        var title, content := GetActionContent(actionUrls[i]);
        ActionsOfPrefix(web, actionUrls, i);
        if title != "" && content != "" {
          actions := actions + [(title, content)];
        }
        i := i + 1;
      }
      assert actionUrls[..i] == actionUrls;
    }

    /** `collect_all_actions`: read the page count, then extend the result
        with the actions of each listing page in turn. */
    method CollectAllActions() returns (allActions: seq<Action>)
      ensures allActions == AllActions(web, baseUrl)
      ensures forall a :: a in allActions ==> Kept(a)
    {
      var totalPages := GetTotalPages();
      var pageUrls := PageUrls(baseUrl, totalPages);
      allActions := [];
      var i := 0;
      while i < |pageUrls|
        invariant 0 <= i <= |pageUrls|
        invariant allActions == AllActionsOf(web, pageUrls[..i])
      {
        var actions := CollectPageActions(pageUrls[i]);
        AllActionsOfPrefix(web, pageUrls, i);
        allActions := allActions + actions;
        i := i + 1;
      }
      assert pageUrls[..i] == pageUrls;
    }
  }
}
