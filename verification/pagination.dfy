/**
 * The blog pager: from the current page and the page count it draws a window
 * of at most five page links around the current page, the first and last
 * pages outside it, an ellipsis for each gap, and Previous/Next links.
 */
module Pagination {
  import opened Wrappers
  import Decimal

  /** Number of consecutive page links in the window. */
  const MaxVisible: int := 5

  /**
   * One entry of the pager's page row: a link to a page, highlighted when it is
   * the current page, or an ellipsis marking skipped pages. A link points at
   * `Href(basePath, t)`.
   */
  datatype Token = PageLink(page: int, active: bool) | Ellipsis

  /** The run of consecutive pages shown, from `first` to `last` inclusive. */
  datatype Window = Window(first: int, last: int)

  /** What the pager renders: optional Previous and Next targets around the tokens. */
  datatype Pager = Pager(previous: Option<string>, tokens: seq<Token>, next: Option<string>)

  function Min(a: int, b: int): int { if a <= b then a else b }

  function Max(a: int, b: int): int { if a >= b then a else b }

  /** `x` pulled into the interval `[lo, hi]`. */
  function Clamp(x: int, lo: int, hi: int): (r: int)
    requires lo <= hi
    ensures lo <= r <= hi
    ensures lo <= x <= hi ==> r == x
  {
    if x < lo then lo else if x > hi then hi else x
  }

  /** The link for `page`: page 1 is the bare base path, any other page adds a `page` query parameter. */
  function PageHref(basePath: string, page: int): (href: string)
    ensures page == 1 <==> href == basePath
    ensures page != 1 ==>
      && |href| > |basePath| + 6
      && href[..|basePath| + 6] == basePath + "?page="
      && Decimal.ParseInt(href[|basePath| + 6..]) == Some(page)
  {
    Decimal.ParseIntRoundTrip(page);
    if page == 1 then basePath else basePath + "?page=" + Decimal.IntToString(page)
  }

  /**
   * The page window. It starts two pages before the current page, is cut at
   * the last page, and is shifted down when that cut made it short.
   * Whatever the current page, for at least one page the window lies in
   * `[1, total]`, holds `min(total, 5)` pages, and starts where the current
   * page minus two is clamped into the range of possible window starts.
   */
  function ComputeWindow(current: int, total: int): (w: Window)
    ensures total >= 1 ==> 1 <= w.first <= w.last <= total
    ensures total >= 1 ==> w.last - w.first + 1 == Min(total, MaxVisible)
    ensures total >= 1 ==> w.first == Clamp(current - MaxVisible / 2, 1, Max(1, total - MaxVisible + 1))
    ensures 1 <= current <= total ==> w.first <= current <= w.last
  {
    var startPage := Max(1, current - MaxVisible / 2);
    var endPage := Min(total, startPage + MaxVisible - 1);
    if endPage - startPage < MaxVisible - 1 then
      Window(Max(1, endPage - MaxVisible + 1), endPage)
    else
      Window(startPage, endPage)
  }

  /** The href a page link points at, under `basePath`. */
  function Href(basePath: string, t: Token): string
    requires t.PageLink?
  {
    PageHref(basePath, t.page)
  }

  /** The link token for `page`, active exactly when it is the current page. */
  function Link(page: int, current: int): Token {
    PageLink(page, page == current)
  }

  /** Links to the pages `lo` to `hi` inclusive, in order. */
  function PageRun(lo: int, hi: int, current: int): (r: seq<Token>)
    ensures |r| == if lo <= hi then hi - lo + 1 else 0
    ensures forall i :: 0 <= i < |r| ==> r[i] == Link(lo + i, current)
    decreases hi - lo
  {
    if lo > hi then [] else [Link(lo, current)] + PageRun(lo + 1, hi, current)
  }

  /** The tokens before the window: page 1, then an ellipsis if pages are skipped. */
  function Leading(w: Window, current: int): seq<Token> {
    if w.first > 1 then
      [Link(1, current)] + (if w.first > 2 then [Ellipsis] else [])
    else []
  }

  /** The tokens after the window: an ellipsis if pages are skipped, then the last page. */
  function Trailing(w: Window, total: int, current: int): seq<Token> {
    if w.last < total then
      (if w.last < total - 1 then [Ellipsis] else []) + [Link(total, current)]
    else []
  }

  /** The page-number row of the pager. */
  function Tokens(current: int, total: int): (ts: seq<Token>)
    ensures total >= 1 ==> 0 < |ts| <= MaxVisible + 4
  {
    var w := ComputeWindow(current, total);
    Leading(w, current) + PageRun(w.first, w.last, current)
    + Trailing(w, total, current)
  }

  /** The whole pager; `None` when there is at most one page and nothing is drawn. */
  function Render(current: int, total: int, basePath: string): (r: Option<Pager>)
    ensures r.None? <==> total <= 1
  {
    if total <= 1 then None
    else
      Some(Pager(
        if current > 1 then Some(PageHref(basePath, current - 1)) else None,
        Tokens(current, total),
        if current < total then Some(PageHref(basePath, current + 1)) else None))
  }

  // ---------------------------------------------------------------------------
  // The shape of the token row

  /** The page numbers of the links in `ts`, in order. */
  function Pages(ts: seq<Token>): seq<int> {
    if ts == [] then [] else (if ts[0].PageLink? then [ts[0].page] else []) + Pages(ts[1..])
  }

  /**
   * A pager row: it starts and ends with a link, two neighbouring links are
   * consecutive pages, and an ellipsis sits between two links exactly when
   * pages between them are skipped.
   */
  predicate WellFormed(ts: seq<Token>) {
    && |ts| > 0 && ts[0].PageLink? && ts[|ts| - 1].PageLink?
    && (forall i :: 0 <= i < |ts| - 1 ==> StepAt(ts, i))
    && (forall i :: 0 < i < |ts| - 1 ==> GapAt(ts, i))
  }

  /** Two neighbouring links at `i` and `i + 1` are consecutive pages. */
  predicate StepAt(ts: seq<Token>, i: int)
    requires 0 <= i < |ts| - 1
  {
    ts[i].PageLink? && ts[i + 1].PageLink? ==> ts[i + 1].page == ts[i].page + 1
  }

  /** An ellipsis at `i` stands between two links that skip at least one page. */
  predicate GapAt(ts: seq<Token>, i: int)
    requires 0 < i < |ts| - 1
  {
    ts[i].Ellipsis? ==> ts[i - 1].PageLink? && ts[i + 1].PageLink? && ts[i + 1].page > ts[i - 1].page + 1
  }

  /** Every link is active exactly on the current page. */
  predicate Labelled(ts: seq<Token>, current: int) {
    forall i :: 0 <= i < |ts| && ts[i].PageLink? ==> ts[i] == Link(ts[i].page, current)
  }

  /** Links appear in strictly increasing page order. */
  predicate Ordered(ts: seq<Token>) {
    forall i, j :: 0 <= i < j < |ts| && ts[i].PageLink? && ts[j].PageLink? ==> ts[i].page < ts[j].page
  }

  /** Two pager rows put together, with an ellipsis between them when pages are skipped. */
  function Join(a: seq<Token>, b: seq<Token>): seq<Token>
    requires a != [] && a[|a| - 1].PageLink? && b != [] && b[0].PageLink?
  {
    a + (if b[0].page > a[|a| - 1].page + 1 then [Ellipsis] else []) + b
  }

  lemma {:induction false} PagesAppend(a: seq<Token>, b: seq<Token>)
    ensures Pages(a + b) == Pages(a) + Pages(b)
    decreases |a|
  {
    if a == [] {
      assert a + b == b;
    } else {
      assert (a + b)[0] == a[0];
      assert (a + b)[1..] == a[1..] + b;
      PagesAppend(a[1..], b);
    }
  }

  lemma {:induction false} PagesOfLinks(ts: seq<Token>)
    requires forall i :: 0 <= i < |ts| ==> ts[i].PageLink?
    ensures |Pages(ts)| == |ts|
    ensures forall i :: 0 <= i < |ts| ==> Pages(ts)[i] == ts[i].page
    decreases |ts|
  {
    if ts != [] {
      PagesOfLinks(ts[1..]);
    }
  }

  /** The links of a run are exactly the pages `lo..hi`. */
  lemma PagesOfRun(lo: int, hi: int, current: int, n: int)
    ensures n in Pages(PageRun(lo, hi, current)) <==> lo <= n <= hi
  {
    var r := PageRun(lo, hi, current);
    PagesOfLinks(r);
    if lo <= n <= hi {
      assert Pages(r)[n - lo] == n;
    }
  }

  lemma {:induction false} PagesMember(ts: seq<Token>, n: int) returns (i: nat)
    requires n in Pages(ts)
    ensures i < |ts| && ts[i].PageLink? && ts[i].page == n
    decreases |ts|
  {
    if ts[0].PageLink? && ts[0].page == n {
      i := 0;
    } else {
      var k := PagesMember(ts[1..], n);
      i := k + 1;
    }
  }

  lemma RunWellFormed(lo: int, hi: int, current: int)
    requires lo <= hi
    ensures WellFormed(PageRun(lo, hi, current))
    ensures Labelled(PageRun(lo, hi, current), current)
  {
    var r := PageRun(lo, hi, current);
    assert forall i :: 0 <= i < |r| ==> r[i].PageLink? && r[i].page == lo + i;
  }

  /** Two rows whose boundary pages are consecutive join without an ellipsis. */
  lemma JoinAdjacent(a: seq<Token>, b: seq<Token>)
    requires WellFormed(a) && WellFormed(b) && b[0].page == a[|a| - 1].page + 1
    ensures WellFormed(a + b)
  {
    var r := a + b;
    forall i | 0 <= i < |r| - 1
      ensures StepAt(r, i)
    {
      if i < |a| - 1 {
        assert StepAt(a, i);
        assert r[i] == a[i] && r[i + 1] == a[i + 1];
      } else if i == |a| - 1 {
        assert r[i] == a[i] && r[i + 1] == b[0];
      } else {
        assert StepAt(b, i - |a|);
        assert r[i] == b[i - |a|] && r[i + 1] == b[i + 1 - |a|];
      }
    }
    forall i | 0 < i < |r| - 1
      ensures GapAt(r, i)
    {
      if i < |a| - 1 {
        assert GapAt(a, i);
        assert r[i - 1] == a[i - 1] && r[i] == a[i] && r[i + 1] == a[i + 1];
      } else if i == |a| - 1 {
        assert r[i] == a[i];
      } else if i == |a| {
        assert r[i] == b[0];
      } else {
        assert GapAt(b, i - |a|);
        assert r[i - 1] == b[i - 1 - |a|] && r[i] == b[i - |a|] && r[i + 1] == b[i + 1 - |a|];
      }
    }
  }

  /** Two rows with pages skipped between them join with one ellipsis. */
  lemma JoinSkipping(a: seq<Token>, b: seq<Token>)
    requires WellFormed(a) && WellFormed(b) && b[0].page > a[|a| - 1].page + 1
    ensures WellFormed(a + [Ellipsis] + b)
  {
    var r := a + [Ellipsis] + b;
    var m := |a| + 1;
    forall i | 0 <= i < |r| - 1
      ensures StepAt(r, i)
    {
      if i < |a| - 1 {
        assert StepAt(a, i);
        assert r[i] == a[i] && r[i + 1] == a[i + 1];
      } else if i < m {
        assert r[i + 1] == (if i == |a| - 1 then Ellipsis else b[0]);
        assert i == |a| ==> r[i] == Ellipsis;
      } else {
        assert StepAt(b, i - m);
        assert r[i] == b[i - m] && r[i + 1] == b[i + 1 - m];
      }
    }
    forall i | 0 < i < |r| - 1
      ensures GapAt(r, i)
    {
      if i < |a| - 1 {
        assert GapAt(a, i);
        assert r[i - 1] == a[i - 1] && r[i] == a[i] && r[i + 1] == a[i + 1];
      } else if i == |a| - 1 {
        assert r[i] == a[i];
      } else if i == |a| {
        assert r[i - 1] == a[|a| - 1] && r[i + 1] == b[0];
      } else if i == m {
        assert r[i] == b[0];
      } else {
        assert GapAt(b, i - m);
        assert r[i - 1] == b[i - 1 - m] && r[i] == b[i - m] && r[i + 1] == b[i + 1 - m];
      }
    }
  }

  lemma JoinWellFormed(a: seq<Token>, b: seq<Token>)
    requires WellFormed(a) && WellFormed(b) && b[0].page > a[|a| - 1].page
    ensures WellFormed(Join(a, b))
  {
    if b[0].page > a[|a| - 1].page + 1 {
      JoinSkipping(a, b);
    } else {
      JoinAdjacent(a, b);
      assert Join(a, b) == a + b;
    }
  }

  /** Joining adds no page: the ellipsis carries none. */
  lemma JoinPages(a: seq<Token>, b: seq<Token>)
    requires a != [] && a[|a| - 1].PageLink? && b != [] && b[0].PageLink?
    ensures Pages(Join(a, b)) == Pages(a) + Pages(b)
  {
    if b[0].page > a[|a| - 1].page + 1 {
      var x := a + [Ellipsis];
      PagesAppend(a, [Ellipsis]);
      assert Pages([Ellipsis]) == [] by {
        assert [Ellipsis][1..] == [];
      }
      assert Pages(x) == Pages(a) + [];
      assert Pages(a) + [] == Pages(a);
      PagesAppend(x, b);
      assert Join(a, b) == x + b;
    } else {
      assert Join(a, b) == a + b;
      PagesAppend(a, b);
    }
  }

  lemma JoinLabelled(a: seq<Token>, b: seq<Token>, current: int)
    requires a != [] && a[|a| - 1].PageLink? && b != [] && b[0].PageLink?
    requires Labelled(a, current) && Labelled(b, current)
    ensures Labelled(Join(a, b), current)
  {
    var gap: seq<Token> := if b[0].page > a[|a| - 1].page + 1 then [Ellipsis] else [];
    var r := a + gap + b;
    forall i | 0 <= i < |r| && r[i].PageLink?
      ensures r[i] == Link(r[i].page, current)
    {
      if i < |a| {
        assert r[i] == a[i];
      } else if i >= |a| + |gap| {
        assert r[i] == b[i - |a| - |gap|];
      }
    }
  }

  /** In a well-formed row, a link further right always has a larger page number. */
  lemma {:induction false} WellFormedOrderedAt(ts: seq<Token>, i: int, j: int)
    requires WellFormed(ts)
    requires 0 <= i < j < |ts| && ts[i].PageLink? && ts[j].PageLink?
    ensures ts[i].page < ts[j].page
    decreases j
  {
    assert StepAt(ts, j - 1);
    if ts[j - 1].PageLink? {
      if i < j - 1 {
        WellFormedOrderedAt(ts, i, j - 1);
      }
    } else {
      assert 0 < j - 1 && GapAt(ts, j - 1);
      if i < j - 2 {
        WellFormedOrderedAt(ts, i, j - 2);
      }
    }
  }

  lemma WellFormedOrdered(ts: seq<Token>)
    requires WellFormed(ts)
    ensures Ordered(ts)
  {
    forall i, j | 0 <= i < j < |ts| && ts[i].PageLink? && ts[j].PageLink?
      ensures ts[i].page < ts[j].page
    {
      WellFormedOrderedAt(ts, i, j);
    }
  }

  /** No two ellipses are ever next to each other in a well-formed row. */
  lemma WellFormedNoAdjacentEllipses(ts: seq<Token>)
    requires WellFormed(ts)
    ensures forall i, j :: 0 <= i < |ts| && 0 <= j < |ts| && j == i + 1 ==> !(ts[i].Ellipsis? && ts[j].Ellipsis?)
  {
    forall i, j | 0 <= i < |ts| && 0 <= j < |ts| && j == i + 1 && ts[i].Ellipsis?
      ensures ts[j].PageLink?
    {
      assert GapAt(ts, i);
    }
  }

  /** Page 1 and a possible ellipsis in front of the window are the window joined on the left to page 1. */
  lemma LeadingIsJoin(w: Window, mid: seq<Token>, current: int)
    requires w.first >= 1 && mid != [] && mid[0] == Link(w.first, current)
    ensures var left := Leading(w, current) + mid;
      && left == (if w.first > 1 then Join([Link(1, current)], mid) else mid)
      && left[|left| - 1] == mid[|mid| - 1]
  {
    if w.first <= 1 {
      assert Leading(w, current) + mid == mid;
    }
  }

  /** A possible ellipsis and the last page after the window are the row joined on the right to the last page. */
  lemma TrailingIsJoin(w: Window, left: seq<Token>, total: int, current: int)
    requires w.last <= total && left != [] && left[|left| - 1] == Link(w.last, current)
    ensures left + Trailing(w, total, current)
      == (if w.last < total then Join(left, [Link(total, current)]) else left)
  {
    if w.last >= total {
      assert left + Trailing(w, total, current) == left;
    }
  }

  /** A window's row: the window joined on the left to page 1 and on the right to the last page. */
  function JoinedWindow(w: Window, total: int, current: int): seq<Token>
    requires 1 <= w.first <= w.last <= total
  {
    var mid := PageRun(w.first, w.last, current);
    var left := if w.first > 1 then Join([Link(1, current)], mid) else mid;
    if w.last < total then Join(left, [Link(total, current)]) else left
  }

  /** The token row is the window, joined on the left to page 1 and on the right to the last page. */
  function JoinedRow(current: int, total: int): seq<Token>
    requires total >= 2
  {
    JoinedWindow(ComputeWindow(current, total), total, current)
  }

  lemma WindowAsJoins(w: Window, total: int, current: int)
    requires 1 <= w.first <= w.last <= total
    ensures Leading(w, current) + PageRun(w.first, w.last, current) + Trailing(w, total, current)
      == JoinedWindow(w, total, current)
  {
    var mid := PageRun(w.first, w.last, current);
    var lead := Leading(w, current);
    var trail := Trailing(w, total, current);
    RunEnds(w.first, w.last, current);
    LeadingIsJoin(w, mid, current);
    var left := if w.first > 1 then Join([Link(1, current)], mid) else mid;
    assert lead + mid == left;
    TrailingIsJoin(w, left, total, current);
    if w.last < total {
      assert left + trail == Join(left, [Link(total, current)]);
    } else {
      assert left + trail == left;
    }
  }

  lemma TokensAsJoins(current: int, total: int)
    requires total >= 2
    ensures Tokens(current, total) == JoinedRow(current, total)
  {
    WindowAsJoins(ComputeWindow(current, total), total, current);
  }

  lemma RunEnds(lo: int, hi: int, current: int)
    requires lo <= hi
    ensures var r := PageRun(lo, hi, current);
      r != [] && r[0] == Link(lo, current) && r[|r| - 1] == Link(hi, current)
  {
  }

  /** A joined row ends where its right part ends. */
  lemma JoinLast(a: seq<Token>, b: seq<Token>)
    requires a != [] && a[|a| - 1].PageLink? && b != [] && b[0].PageLink?
    ensures var r := Join(a, b); r[|r| - 1] == b[|b| - 1]
  {
    var g: seq<Token> := if b[0].page > a[|a| - 1].page + 1 then [Ellipsis] else [];
    assert Join(a, b) == (a + g) + b;
  }

  lemma JoinLeftShape(join: bool, a: seq<Token>, b: seq<Token>, current: int)
    requires WellFormed(a) && WellFormed(b) && (join ==> b[0].page > a[|a| - 1].page)
    requires Labelled(a, current) && Labelled(b, current)
    ensures var r := if join then Join(a, b) else b;
      && WellFormed(r) && Labelled(r, current) && r[|r| - 1] == b[|b| - 1]
  {
    if join {
      JoinWellFormed(a, b);
      JoinLabelled(a, b, current);
    }
  }

  lemma JoinRightShape(join: bool, a: seq<Token>, b: seq<Token>, current: int)
    requires WellFormed(a) && WellFormed(b) && (join ==> b[0].page > a[|a| - 1].page)
    requires Labelled(a, current) && Labelled(b, current)
    ensures var r := if join then Join(a, b) else a;
      WellFormed(r) && Labelled(r, current)
  {
    if join {
      JoinWellFormed(a, b);
      JoinLabelled(a, b, current);
    }
  }

  lemma SingleRow(page: int, current: int)
    ensures WellFormed([Link(page, current)]) && Labelled([Link(page, current)], current)
  {
  }

  lemma PagesOfLink(page: int, current: int)
    ensures Pages([Link(page, current)]) == [page]
  {
    assert [Link(page, current)][1..] == [];
  }

  lemma RowWellFormed(current: int, total: int)
    requires total >= 2
    ensures WellFormed(JoinedRow(current, total))
    ensures Labelled(JoinedRow(current, total), current)
  {
    var w := ComputeWindow(current, total);
    var mid := PageRun(w.first, w.last, current);
    var one := [Link(1, current)];
    var end := [Link(total, current)];
    RunWellFormed(w.first, w.last, current);
    SingleRow(1, current);
    SingleRow(total, current);
    assert mid[0].page == w.first && mid[|mid| - 1] == Link(w.last, current);
    JoinLeftShape(w.first > 1, one, mid, current);
    var left := if w.first > 1 then Join(one, mid) else mid;
    JoinRightShape(w.last < total, left, end, current);
  }

  lemma JoinLeftPages(join: bool, a: seq<Token>, b: seq<Token>)
    requires a != [] && a[|a| - 1].PageLink? && b != [] && b[0].PageLink?
    ensures Pages(if join then Join(a, b) else b) == (if join then Pages(a) else []) + Pages(b)
  {
    if join {
      JoinPages(a, b);
    } else {
      assert Pages(b) == [] + Pages(b);
    }
  }

  lemma JoinRightPages(join: bool, a: seq<Token>, b: seq<Token>)
    requires a != [] && a[|a| - 1].PageLink? && b != [] && b[0].PageLink?
    ensures Pages(if join then Join(a, b) else a) == Pages(a) + (if join then Pages(b) else [])
  {
    if join {
      JoinPages(a, b);
    } else {
      assert Pages(a) + [] == Pages(a);
    }
  }

  /** The page numbers of the joined row: 1 if left of the window, the window, the last page if right of it. */
  lemma RowPagesSeq(current: int, total: int)
    requires total >= 2
    ensures var w := ComputeWindow(current, total);
      Pages(JoinedRow(current, total))
      == (if w.first > 1 then [1] else []) + Pages(PageRun(w.first, w.last, current))
         + (if w.last < total then [total] else [])
  {
    var w := ComputeWindow(current, total);
    var mid := PageRun(w.first, w.last, current);
    var one := [Link(1, current)];
    var end := [Link(total, current)];
    PagesOfLink(1, current);
    PagesOfLink(total, current);
    var left := if w.first > 1 then Join(one, mid) else mid;
    JoinLeftPages(w.first > 1, one, mid);
    if w.first > 1 {
      JoinLast(one, mid);
    }
    JoinRightPages(w.last < total, left, end);
  }

  lemma RowPages(current: int, total: int, n: int)
    requires total >= 2
    ensures n in Pages(JoinedRow(current, total)) <==>
      (n == 1 || n == total || ComputeWindow(current, total).first <= n <= ComputeWindow(current, total).last)
  {
    var w := ComputeWindow(current, total);
    RowPagesSeq(current, total);
    PagesOfRun(w.first, w.last, current, n);
    assert w.first > 1 || w.first == 1;
    assert w.last < total || w.last == total;
  }

  /**
   * The token row for two or more pages is well formed and ordered, and each
   * link is active exactly on the current page.
   */
  lemma TokensShape(current: int, total: int)
    requires total >= 2
    ensures WellFormed(Tokens(current, total))
    ensures Ordered(Tokens(current, total))
    ensures Labelled(Tokens(current, total), current)
  {
    TokensAsJoins(current, total);
    RowWellFormed(current, total);
    WellFormedOrdered(Tokens(current, total));
  }

  /** The token row lists precisely page 1, the last page and the pages of the window. */
  lemma TokensPages(current: int, total: int)
    requires total >= 2
    ensures forall n :: n in Pages(Tokens(current, total)) <==>
      (n == 1 || n == total || ComputeWindow(current, total).first <= n <= ComputeWindow(current, total).last)
  {
    TokensAsJoins(current, total);
    forall n
      ensures n in Pages(JoinedRow(current, total)) <==>
        (n == 1 || n == total || ComputeWindow(current, total).first <= n <= ComputeWindow(current, total).last)
    {
      RowPages(current, total, n);
    }
  }

  /** At most one link is active, and exactly one when the current page is in range. */
  lemma ActiveLink(current: int, total: int)
    requires total >= 2
    ensures var ts := Tokens(current, total);
      forall i, j :: 0 <= i < |ts| && 0 <= j < |ts| && ts[i].PageLink? && ts[j].PageLink? && ts[i].active && ts[j].active ==> i == j
    ensures var ts := Tokens(current, total);
      1 <= current <= total ==> exists i :: 0 <= i < |ts| && ts[i].PageLink? && ts[i].active
    ensures var ts := Tokens(current, total);
      forall i :: 0 <= i < |ts| && ts[i].PageLink? ==> (ts[i].active <==> ts[i].page == current)
  {
    var ts := Tokens(current, total);
    TokensShape(current, total);
    if 1 <= current <= total {
      TokensPages(current, total);
      assert current in Pages(ts);
      var k := PagesMember(ts, current);
      assert ts[k] == Link(current, current);
    }
  }

  /** The pieces of the row for two or more pages: the window holds at least two links. */
  lemma RowPieces(current: int, total: int)
    requires total >= 2
    ensures var w := ComputeWindow(current, total);
      var mid := PageRun(w.first, w.last, current);
      && Tokens(current, total)
         == Leading(w, current) + mid + Trailing(w, total, current)
      && |mid| >= 2 && mid[1].PageLink? && mid[|mid| - 2].PageLink?
      && mid[0] == Link(w.first, current) && mid[|mid| - 1] == Link(w.last, current)
  {
  }

  lemma FirstTwo(lead: seq<Token>, x: seq<Token>, firstLink: Token)
    requires |x| >= 2 && x[0].PageLink? && x[1].PageLink?
    requires lead == [] || lead == [firstLink] || lead == [firstLink, Ellipsis]
    requires lead == [] ==> x[0] == firstLink
    requires firstLink.PageLink?
    ensures var r := lead + x; r[0] == firstLink && (r[1].Ellipsis? <==> |lead| == 2)
  {
  }

  /** The row starts with page 1, followed by an ellipsis exactly when the window starts after page 2. */
  lemma RowStart(current: int, total: int)
    requires total >= 2
    ensures var ts := Tokens(current, total);
      && |ts| >= 2
      && ts[0] == Link(1, current)
      && (ts[1].Ellipsis? <==> ComputeWindow(current, total).first > 2)
  {
    var w := ComputeWindow(current, total);
    var lead := Leading(w, current);
    var mid := PageRun(w.first, w.last, current);
    var x := mid + Trailing(w, total, current);
    assert Tokens(current, total) == lead + x && |x| >= 2
        && x[1].PageLink? && x[0] == Link(w.first, current) by {
      RowPieces(current, total);
      assert x[0] == mid[0] && x[1] == mid[1];
    }
    assert (lead == [] || lead == [Link(1, current)]
        || lead == [Link(1, current), Ellipsis])
        && (lead == [] ==> w.first == 1)
        && (|lead| == 2 <==> w.first > 2);
    FirstTwo(lead, x, Link(1, current));
  }

  lemma LastTwo(x: seq<Token>, trail: seq<Token>, lastLink: Token)
    requires |x| >= 2 && x[|x| - 2].PageLink? && x[|x| - 1].PageLink?
    requires trail == [] || trail == [lastLink] || trail == [Ellipsis, lastLink]
    requires trail == [] ==> x[|x| - 1] == lastLink
    requires lastLink.PageLink?
    ensures var r := x + trail; r[|r| - 1] == lastLink && (r[|r| - 2].Ellipsis? <==> |trail| == 2)
  {
  }

  /** The row ends with the last page, preceded by an ellipsis exactly when the window ends before the page before last. */
  lemma RowEnd(current: int, total: int)
    requires total >= 2
    ensures var ts := Tokens(current, total);
      && |ts| >= 2
      && ts[|ts| - 1] == Link(total, current)
      && (ts[|ts| - 2].Ellipsis? <==> ComputeWindow(current, total).last < total - 1)
  {
    var w := ComputeWindow(current, total);
    var mid := PageRun(w.first, w.last, current);
    var x := Leading(w, current) + mid;
    var trail := Trailing(w, total, current);
    assert Tokens(current, total) == x + trail && |x| >= 2
        && x[|x| - 2].PageLink? && x[|x| - 1] == Link(w.last, current) by {
      RowPieces(current, total);
      assert x[|x| - 1] == mid[|mid| - 1] && x[|x| - 2] == mid[|mid| - 2];
    }
    assert (trail == [] || trail == [Link(total, current)]
        || trail == [Ellipsis, Link(total, current)])
        && (trail == [] ==> w.last == total)
        && (|trail| == 2 <==> w.last < total - 1);
    LastTwo(x, trail, Link(total, current));
  }

  /** An ellipsis can only be the second token or the second to last. */
  lemma EllipsesNearEnds(current: int, total: int)
    requires total >= 2
    ensures var ts := Tokens(current, total);
      forall i :: 0 <= i < |ts| && ts[i].Ellipsis? ==> i == 1 || i == |ts| - 2
  {
    var w := ComputeWindow(current, total);
    var lead := Leading(w, current);
    var mid := PageRun(w.first, w.last, current);
    var trail := Trailing(w, total, current);
    assert Tokens(current, total) == lead + mid + trail;
    assert forall k :: 0 <= k < |lead| && lead[k].Ellipsis? ==> k == 1;
    assert forall k :: 0 <= k < |mid| ==> mid[k].PageLink?;
    assert forall k :: 0 <= k < |trail| && trail[k].Ellipsis? ==> k == 0 && |trail| == 2;
    EllipsesInPieces(lead, mid, trail);
  }

  lemma EllipsesInPieces(lead: seq<Token>, mid: seq<Token>, trail: seq<Token>)
    requires forall k :: 0 <= k < |lead| && lead[k].Ellipsis? ==> k == 1
    requires forall k :: 0 <= k < |mid| ==> mid[k].PageLink?
    requires forall k :: 0 <= k < |trail| && trail[k].Ellipsis? ==> k == 0 && |trail| == 2
    ensures var ts := lead + mid + trail;
      forall i :: 0 <= i < |ts| && ts[i].Ellipsis? ==> i == 1 || i == |ts| - 2
  {
    var ts := lead + mid + trail;
    forall i | 0 <= i < |ts| && ts[i].Ellipsis?
      ensures i == 1 || i == |ts| - 2
    {
      if i < |lead| {
        assert ts[i] == lead[i];
      } else if i >= |lead| + |mid| {
        assert ts[i] == trail[i - |lead| - |mid|];
      }
    }
  }

  /** Different pages never share an href. */
  lemma PageHrefInjective(basePath: string, a: int, b: int)
    requires PageHref(basePath, a) == PageHref(basePath, b)
    ensures a == b
  {
    var prefix := basePath + "?page=";
    if a != 1 && b != 1 {
      var sa := Decimal.IntToString(a);
      var sb := Decimal.IntToString(b);
      assert prefix + sa == prefix + sb;
      assert sa == (prefix + sa)[|prefix|..];
      assert sb == (prefix + sb)[|prefix|..];
      Decimal.ParseIntRoundTrip(a);
      Decimal.ParseIntRoundTrip(b);
    }
  }

  /** The window of a page among ten, from the window's own contract. */
  lemma WindowOfTen(current: int, first: int)
    requires 1 <= current <= 10 && first == Clamp(current - 2, 1, 6)
    ensures ComputeWindow(current, 10) == Window(first, first + 4)
  {
  }

  /** First page of ten: the window 1..5 with page 1 highlighted, then a gap and the last page. */
  lemma ExampleFirstOfTen()
    ensures Tokens(1, 10)
      == [PageLink(1, true), PageLink(2, false), PageLink(3, false), PageLink(4, false),
          PageLink(5, false), Ellipsis, PageLink(10, false)]
  {
    WindowOfTen(1, 1);
    assert PageRun(1, 5, 1)
      == [PageLink(1, true), PageLink(2, false), PageLink(3, false), PageLink(4, false), PageLink(5, false)];
  }

  /** Page six of ten: page 1, a gap, the window 4..8 with page 6 highlighted, a gap, the last page. */
  lemma ExampleMiddleOfTen()
    ensures Tokens(6, 10)
      == [PageLink(1, false), Ellipsis, PageLink(4, false), PageLink(5, false), PageLink(6, true),
          PageLink(7, false), PageLink(8, false), Ellipsis, PageLink(10, false)]
  {
    WindowOfTen(6, 4);
    assert PageRun(4, 8, 6)
      == [PageLink(4, false), PageLink(5, false), PageLink(6, true), PageLink(7, false), PageLink(8, false)];
  }

  /** Last page of ten: page 1, a gap, then the window shifted down to 6..10 with page 10 highlighted. */
  lemma ExampleLastOfTen()
    ensures Tokens(10, 10)
      == [PageLink(1, false), Ellipsis, PageLink(6, false), PageLink(7, false), PageLink(8, false),
          PageLink(9, false), PageLink(10, true)]
  {
    WindowOfTen(10, 6);
    assert PageRun(6, 10, 10)
      == [PageLink(6, false), PageLink(7, false), PageLink(8, false), PageLink(9, false), PageLink(10, true)];
  }
}
