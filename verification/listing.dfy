/**
 * The blog listing page: it reads the `page` query parameter, derives the
 * offsets of the twelve posts it asks the content store for, the page count
 * from the number of published posts, and decides which sections it shows.
 * The offsets are modelled as integers only; what the store returns for them
 * is outside this model.
 */
module BlogListing {
  import opened Wrappers
  import Decimal
  import Pagination

  /** Posts on one listing page. */
  const PostsPerPage: int := 12

  /** Where the listing lives; the pager links are built on it. */
  const BasePath: string := "/blog"

  /** The `page` query parameter as the request carries it. */
  datatype PageParam = Absent | Given(raw: string)

  /** The offsets sent with the page query, `start` and `end = start + 12`. */
  datatype Offsets = Offsets(start: int, end: int)

  /** The main section: the empty-state message, or the post grid with an optional pager. */
  datatype Body = EmptyState | PostGrid(postCount: nat, pager: Option<Pagination.Pager>)

  /** What the listing shows besides the fixed title. */
  datatype View = View(featured: bool, latestHeading: bool, body: Body)

  /**
   * The requested page: a missing or empty parameter means page 1, anything
   * else goes through `parseInt(raw, 10)`; `None` is its `NaN`.
   */
  function RequestedPage(param: PageParam): (page: Option<int>)
    ensures param.Absent? || param == Given("") ==> page == Some(1)
  {
    Decimal.ParseIntRoundTrip(1);
    assert Decimal.IntToString(1) == "1";
    Decimal.ParseInt(if param.Absent? || param.raw == "" then "1" else param.raw)
  }

  /**
   * The `page` parameter a link written by the pager under `basePath`
   * carries: the text after `?page=`, or none for the bare base path.
   */
  function PageParamOf(basePath: string, href: string): PageParam {
    var prefix := basePath + "?page=";
    if |href| > |prefix| && href[..|prefix|] == prefix then Given(href[|prefix|..]) else Absent
  }

  /** Offsets of one page: consecutive pages are twelve apart and never overlap. */
  function PageOffsets(page: int): (o: Offsets)
    ensures page == 1 ==> o.start == 0
    ensures o.end - o.start == PostsPerPage
    ensures page >= 1 <==> o.start >= 0
  {
    var start := (page - 1) * PostsPerPage;
    Offsets(start, start + PostsPerPage)
  }

  /** The page whose offsets begin at `start`: the inverse of `PageOffsets`. */
  function PageAt(start: int): int {
    start / PostsPerPage + 1
  }

  /** `ceil(totalPosts / 12)`: zero pages for no posts, else just enough pages to hold them all. */
  function TotalPages(totalPosts: nat): (n: nat)
    ensures n == 0 <==> totalPosts == 0
    ensures totalPosts > 0 ==> (n - 1) * PostsPerPage < totalPosts <= n * PostsPerPage
  {
    (totalPosts + PostsPerPage - 1) / PostsPerPage
  }

  /**
   * The sections of the listing for the parsed page, the published-post
   * count, and the lengths of the fetched page and of the featured list.
   */
  function Listing(page: int, totalPosts: nat, postCount: nat, featuredCount: nat): (v: View)
    ensures v.featured ==> v.latestHeading
    ensures v.body.PostGrid? ==> v.body.postCount == postCount > 0
  {
    var totalPages := TotalPages(totalPosts);
    View(
      page == 1 && featuredCount > 0,
      page == 1,
      if postCount == 0 then EmptyState
      else PostGrid(postCount,
                    if totalPages > 1 then Pagination.Render(page, totalPages, BasePath) else None))
  }

  // ---------------------------------------------------------------------------
  // Properties

  /** The offsets of consecutive pages meet: each page ends where the next begins. */
  lemma OffsetsTile(page: int)
    ensures PageOffsets(page).end == PageOffsets(page + 1).start
  {
  }

  /** Every page is recovered from its start offset. */
  lemma PageAtInvertsOffsets(page: int)
    ensures PageAt(PageOffsets(page).start) == page
  {
    var start := (page - 1) * PostsPerPage;
    assert start / PostsPerPage == page - 1;
  }

  /** `TotalPages` is the only page count whose pages hold the posts without an empty page. */
  lemma TotalPagesUnique(totalPosts: nat, k: nat)
    requires totalPosts > 0
    requires (k - 1) * PostsPerPage < totalPosts <= k * PostsPerPage
    ensures k == TotalPages(totalPosts)
  {
  }

  /**
   * Pages 1 to `TotalPages` start inside the post count, and every later page
   * starts at or past it.
   */
  lemma PagesWithinCount(totalPosts: nat, page: int)
    requires page >= 1
    ensures page <= TotalPages(totalPosts) <==> PageOffsets(page).start < totalPosts
  {
    var n := TotalPages(totalPosts);
    if page <= n {
      assert (page - 1) * PostsPerPage <= (n - 1) * PostsPerPage;
    } else {
      assert n * PostsPerPage <= (page - 1) * PostsPerPage;
    }
  }

  /** A missing or empty parameter opens page 1. */
  lemma DefaultPage()
    ensures RequestedPage(Absent) == Some(1)
    ensures RequestedPage(Given("")) == Some(1)
  {
  }

  /** Every link the pager writes opens the page it was written for. */
  lemma PageHrefRoundTrip(basePath: string, n: int)
    ensures RequestedPage(PageParamOf(basePath, Pagination.PageHref(basePath, n))) == Some(n)
  {
    var prefix := basePath + "?page=";
    var href := Pagination.PageHref(basePath, n);
    if n != 1 {
      var digits := Decimal.IntToString(n);
      assert href == prefix + digits;
      assert href[..|prefix|] == prefix && href[|prefix|..] == digits;
      Decimal.ParseIntRoundTrip(n);
    }
  }

  /** The featured section and the "Latest Posts" heading appear on the first page only. */
  lemma FirstPageSections(page: int, totalPosts: nat, postCount: nat, featuredCount: nat)
    ensures var v := Listing(page, totalPosts, postCount, featuredCount);
      && (v.featured <==> page == 1 && featuredCount > 0)
      && (v.latestHeading <==> page == 1)
  {
  }

  /**
   * The pager is drawn exactly when the fetched page has posts and there are
   * more posts than fit on one page; an empty page shows the empty state.
   * Where drawn it is what the pager component renders for the page count,
   * so the listing's own `totalPages > 1` guard agrees with the component's
   * early return.
   */
  lemma PagerShown(page: int, totalPosts: nat, postCount: nat, featuredCount: nat)
    ensures var v := Listing(page, totalPosts, postCount, featuredCount);
      && (v.body.EmptyState? <==> postCount == 0)
      && (v.body.PostGrid? ==> (v.body.pager.Some? <==> totalPosts > PostsPerPage))
      && (v.body.PostGrid? ==> v.body.pager == Pagination.Render(page, TotalPages(totalPosts), BasePath))
  {
  }

  /**
   * Previous appears exactly after the first page and opens the page before;
   * Next appears exactly before the last page and opens the page after.
   */
  lemma PreviousAndNext(current: int, total: int, basePath: string)
    requires total >= 2
    ensures var p := Pagination.Render(current, total, basePath);
      && p.Some?
      && (p.value.previous.Some? <==> current > 1)
      && (p.value.previous.Some? ==> RequestedPage(PageParamOf(basePath, p.value.previous.value)) == Some(current - 1))
      && (p.value.next.Some? <==> current < total)
      && (p.value.next.Some? ==> RequestedPage(PageParamOf(basePath, p.value.next.value)) == Some(current + 1))
  {
    PageHrefRoundTrip(basePath, current - 1);
    PageHrefRoundTrip(basePath, current + 1);
  }

  /** For any parsed page, even one out of range, every page link of the pager opens its own page, itself in range. */
  lemma TokenLinksInRange(current: int, total: int, basePath: string)
    requires total >= 2
    ensures var ts := Pagination.Tokens(current, total);
      forall i :: 0 <= i < |ts| && ts[i].PageLink? ==>
        && 1 <= ts[i].page <= total
        && RequestedPage(PageParamOf(basePath, Pagination.Href(basePath, ts[i]))) == Some(ts[i].page)
  {
    var ts := Pagination.Tokens(current, total);
    Pagination.TokensShape(current, total);
    Pagination.TokensPages(current, total);
    forall i | 0 <= i < |ts| && ts[i].PageLink?
      ensures 1 <= ts[i].page <= total
      ensures RequestedPage(PageParamOf(basePath, Pagination.Href(basePath, ts[i]))) == Some(ts[i].page)
    {
      assert ts[i].page in Pagination.Pages(ts) by {
        PagesListLinks(ts, i);
      }
      PageHrefRoundTrip(basePath, ts[i].page);
    }
  }

  lemma {:induction false} PagesListLinks(ts: seq<Pagination.Token>, i: int)
    requires 0 <= i < |ts| && ts[i].PageLink?
    ensures ts[i].page in Pagination.Pages(ts)
    decreases i
  {
    if i > 0 {
      PagesListLinks(ts[1..], i - 1);
    }
  }
}
