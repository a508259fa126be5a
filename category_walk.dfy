/** The first half of parse_tululu_category.py: the page-number checks of
    `main` and `parse_category`, which walks the listing pages of one
    category from `start_page` to `end_page` and collects the book links on
    them. A redirect ends the walk; an HTTP or connection error skips the
    page; a page that loads contributes its links in order. */
module CategoryWalk {
  import opened Http
  import opened PyStr
  import ParsedBook

  const ORDER_MESSAGE := "End page number must be greater than start number!"
  const POSITIVE_MESSAGE := "Page numbers must be positive integers!"

  /** `main`'s checks on the page range, in their order: the message of the
      `PageNumberError` raised, or `None` when the range is accepted. */
  function CheckPages(startPage: int, endPage: int): (r: Option<string>)
    ensures r.None? <==> 0 < startPage <= endPage
    ensures startPage > endPage ==> r == Some(ORDER_MESSAGE)
    ensures startPage <= endPage && r.Some? ==> r == Some(POSITIVE_MESSAGE)
  {
    if startPage > endPage then Some(ORDER_MESSAGE)
    else if startPage <= 0 || endPage <= 0 then Some(POSITIVE_MESSAGE)
    else None
  }

  /** The part of every listing URL before the category id. */
  const CATEGORY_ROOT := ParsedBook.SITE_URL + "/l"

  /** The listing page `{SITE_URL}/l{category_id}/{page_index}/`. */
  function CategoryUrl(categoryId: int, pageIndex: int): string {
    CATEGORY_ROOT + (IntToString(categoryId) + "/" + (IntToString(pageIndex) + "/"))
  }

  /** Distinct pages of distinct categories have distinct URLs, so the walk
      never requests the same URL twice. */
  lemma CategoryUrlInjective(c: int, p: int, c': int, p': int)
    requires CategoryUrl(c, p) == CategoryUrl(c', p')
    ensures c == c' && p == p'
  {
    var tail := IntToString(p) + "/";
    var tail' := IntToString(p') + "/";
    CancelPrefix(CATEGORY_ROOT, IntToString(c) + "/" + tail, IntToString(c') + "/" + tail');
    IntToStringChars(c, '/');
    IntToStringChars(c', '/');
    SplitAfterPrefixUnique(IntToString(c), IntToString(c'), "/", tail, tail');
    assert IntToString(p) == tail[..|tail| - 1];
    assert IntToString(p') == tail'[..|tail'| - 1];
    IntToStringInjective(c, c');
    IntToStringInjective(p, p');
  }

  /** The `except` clauses around each page, in source order. */
  const CategoryHandlers: seq<ExceptionClass> := [RedirectDetectedErrorClass, HTTPErrorClass, ConnectionErrorClass]

  /** Every exception a page fetch raises is caught by one of the clauses,
      and a redirect by the first, although it is also an `HTTPError`. */
  lemma CategoryHandlersCatchAll(e: Exception)
    ensures FirstMatch(e, CategoryHandlers).Some?
    ensures FirstMatch(e, CategoryHandlers) == Some(0) <==> e == RedirectDetectedError
  {
    assert IsInstance(e, CategoryHandlers[0]) || IsInstance(e, CategoryHandlers[1]) || IsInstance(e, CategoryHandlers[2]);
  }

  /** What the `try` block for one page leads to. */
  datatype PageResult = PageLinks(links: seq<string>) | StopWalk | SkipPage

  /** Each `href` resolved against the listing page's URL, in order. */
  function ResolveLinks(pageUrl: string, hrefs: seq<string>, urljoin: (string, string) -> string): (r: seq<string>)
    ensures |r| == |hrefs|
  {
    seq(|hrefs|, i requires 0 <= i < |hrefs| => urljoin(pageUrl, hrefs[i]))
  }

  /** The link at each position is that position's `href`, resolved. */
  lemma ResolveLinksAt(pageUrl: string, hrefs: seq<string>, urljoin: (string, string) -> string)
    ensures forall i :: 0 <= i < |hrefs| ==> ResolveLinks(pageUrl, hrefs, urljoin)[i] == urljoin(pageUrl, hrefs[i])
  {
  }

  /** One page: fetch and check it, then take the `href`s that `select`
      finds in its HTML (the `div#content table.d_book a` query); a redirect
      stops the walk and every other exception skips the page, which is what
      the clauses do in their order (`VisitPageFollowsClauses`). */
  function VisitPage(categoryId: int, pageIndex: int, f: Fetch,
                     select: string -> seq<string>, urljoin: (string, string) -> string): PageResult
  {
    match GetChecked(f)
    case Ok(resp) => PageLinks(ResolveLinks(CategoryUrl(categoryId, pageIndex), select(resp.text), urljoin))
    case Raised(e) => if e == RedirectDetectedError then StopWalk else SkipPage
  }

  /** The links collected and the page indices requested. */
  datatype Walk = Walk(links: seq<string>, visited: seq<int>)

  /** The walk from page `pageIndex` to `endPage`; `pages` gives what the
      request for each page delivers. */
  function WalkFrom(categoryId: int, pageIndex: int, endPage: int, pages: int -> Fetch,
                    select: string -> seq<string>, urljoin: (string, string) -> string): Walk
    decreases endPage + 1 - pageIndex
  {
    if pageIndex > endPage then Walk([], [])
    else
      match VisitPage(categoryId, pageIndex, pages(pageIndex), select, urljoin)
      case StopWalk => Walk([], [pageIndex])
      case SkipPage => Join(Walk([], [pageIndex]), WalkFrom(categoryId, pageIndex + 1, endPage, pages, select, urljoin))
      case PageLinks(links) => Join(Walk(links, [pageIndex]), WalkFrom(categoryId, pageIndex + 1, endPage, pages, select, urljoin))
  }

  /** A page's outcome is the one of the `except` clause Python runs: the
      first of `CategoryHandlers` that names a class of the exception, the
      `break` of the redirect clause or the `continue` of the others. */
  lemma VisitPageFollowsClauses(categoryId: int, pageIndex: int, f: Fetch,
                                select: string -> seq<string>, urljoin: (string, string) -> string)
    requires GetChecked(f).Raised?
    ensures var k := FirstMatch(GetChecked(f).exception, CategoryHandlers);
            k.Some? &&
            (VisitPage(categoryId, pageIndex, f, select, urljoin) == StopWalk <==> k == Some(0)) &&
            (VisitPage(categoryId, pageIndex, f, select, urljoin) == SkipPage <==> k != Some(0))
  {
    CategoryHandlersCatchAll(GetChecked(f).exception);
  }

  /** One walk followed by another. */
  function Join(a: Walk, b: Walk): Walk {
    Walk(a.links + b.links, a.visited + b.visited)
  }

  lemma JoinAssociates(a: Walk, b: Walk, c: Walk)
    ensures Join(Join(a, b), c) == Join(a, Join(b, c))
  {
    ConcatAssociates(a.links, b.links, c.links);
    ConcatAssociates(a.visited, b.visited, c.visited);
  }

  /** `range(from, to + 1)`. */
  function Pages(first: int, last: int): (r: seq<int>)
    ensures |r| == (if first <= last then last - first + 1 else 0)
    ensures forall i :: 0 <= i < |r| ==> r[i] == first + i
    decreases last - first
  {
    if first <= last then [first] + Pages(first + 1, last) else []
  }

  /** The walk requests consecutive pages from `start_page` on, each once,
      and never one past `end_page`: what it visits is `start_page..last`
      for some `last <= end_page`. */
  lemma {:induction false} WalkVisitsConsecutivePages(categoryId: int, pageIndex: int, endPage: int, pages: int -> Fetch,
                                                      select: string -> seq<string>, urljoin: (string, string) -> string)
    ensures var w := WalkFrom(categoryId, pageIndex, endPage, pages, select, urljoin);
            w.visited == Pages(pageIndex, pageIndex + |w.visited| - 1) &&
            (pageIndex <= endPage ==> 1 <= |w.visited| <= endPage - pageIndex + 1) &&
            (pageIndex > endPage ==> w.visited == [])
    decreases endPage + 1 - pageIndex
  {
    if pageIndex <= endPage {
      WalkVisitsConsecutivePages(categoryId, pageIndex + 1, endPage, pages, select, urljoin);
      var rest := WalkFrom(categoryId, pageIndex + 1, endPage, pages, select, urljoin);
      var stops := VisitedStep(categoryId, pageIndex, endPage, pages, select, urljoin);
      if !stops {
        var n := |rest.visited|;
        assert Pages(pageIndex, pageIndex + n) == [pageIndex] + Pages(pageIndex + 1, pageIndex + n);
      } else {
        assert [pageIndex] == Pages(pageIndex, pageIndex);
      }
    }
  }

  /** The pages the walk from `pageIndex` requests: `pageIndex`, then, unless
      it redirected (`stops`), those of the walk from the next page. */
  lemma VisitedStep(categoryId: int, pageIndex: int, endPage: int, pages: int -> Fetch,
                    select: string -> seq<string>, urljoin: (string, string) -> string)
    returns (stops: bool)
    requires pageIndex <= endPage
    ensures stops <==> VisitPage(categoryId, pageIndex, pages(pageIndex), select, urljoin) == StopWalk
    ensures WalkFrom(categoryId, pageIndex, endPage, pages, select, urljoin).visited ==
            [pageIndex] + if stops then [] else WalkFrom(categoryId, pageIndex + 1, endPage, pages, select, urljoin).visited
  {
    stops := VisitPage(categoryId, pageIndex, pages(pageIndex), select, urljoin) == StopWalk;
  }

  /** The walk requests no page outside `pageIndex..endPage`. */
  lemma WalkStaysInRange(categoryId: int, pageIndex: int, endPage: int, pages: int -> Fetch,
                         select: string -> seq<string>, urljoin: (string, string) -> string)
    ensures forall p :: p in WalkFrom(categoryId, pageIndex, endPage, pages, select, urljoin).visited ==>
              pageIndex <= p <= endPage
  {
    var w := WalkFrom(categoryId, pageIndex, endPage, pages, select, urljoin);
    WalkVisitsConsecutivePages(categoryId, pageIndex, endPage, pages, select, urljoin);
    PagesInRange(pageIndex, pageIndex + |w.visited| - 1);
  }

  /** `Pages(first, last)` holds only numbers from `first` to `last`. */
  lemma PagesInRange(first: int, last: int)
    ensures forall p :: p in Pages(first, last) ==> first <= p <= last
  {
    var r := Pages(first, last);
    forall p | p in r
      ensures first <= p <= last
    {
      var i :| 0 <= i < |r| && r[i] == p;
    }
  }

  /** Without a redirect, the walk requests exactly the pages
      `start_page..end_page`. */
  lemma {:induction false} WalkWithoutRedirectVisitsAll(categoryId: int, startPage: int, endPage: int, pages: int -> Fetch,
                                                        select: string -> seq<string>, urljoin: (string, string) -> string)
    requires forall p :: startPage <= p <= endPage ==> VisitPage(categoryId, p, pages(p), select, urljoin) != StopWalk
    ensures WalkFrom(categoryId, startPage, endPage, pages, select, urljoin).visited == Pages(startPage, endPage)
    decreases endPage + 1 - startPage
  {
    if startPage <= endPage {
      WalkWithoutRedirectVisitsAll(categoryId, startPage + 1, endPage, pages, select, urljoin);
      assert Pages(startPage, endPage) == [startPage] + Pages(startPage + 1, endPage);
    }
  }

  /** The walk up to `mid` followed by the walk after it is the walk up to
      `endPage`, when no page up to `mid` redirects: the result is the
      concatenation of the pages' link lists in page order. */
  lemma {:induction false} WalkSplits(categoryId: int, pageIndex: int, mid: int, endPage: int, pages: int -> Fetch,
                                      select: string -> seq<string>, urljoin: (string, string) -> string)
    requires pageIndex - 1 <= mid <= endPage
    requires forall p :: pageIndex <= p <= mid ==> VisitPage(categoryId, p, pages(p), select, urljoin) != StopWalk
    ensures WalkFrom(categoryId, pageIndex, endPage, pages, select, urljoin) ==
            Join(WalkFrom(categoryId, pageIndex, mid, pages, select, urljoin),
                 WalkFrom(categoryId, mid + 1, endPage, pages, select, urljoin))
    decreases endPage + 1 - pageIndex
  {
    if pageIndex <= mid {
      WalkSplits(categoryId, pageIndex + 1, mid, endPage, pages, select, urljoin);
      var front := WalkFrom(categoryId, pageIndex + 1, mid, pages, select, urljoin);
      var back := WalkFrom(categoryId, mid + 1, endPage, pages, select, urljoin);
      match VisitPage(categoryId, pageIndex, pages(pageIndex), select, urljoin)
      case SkipPage =>
        JoinAssociates(Walk([], [pageIndex]), front, back);
      case PageLinks(links) =>
        JoinAssociates(Walk(links, [pageIndex]), front, back);
    } else {
      var back := WalkFrom(categoryId, mid + 1, endPage, pages, select, urljoin);
      assert Join(Walk([], []), back) == back;
    }
  }

  /** A redirect on page `k` ends the walk: the links are those of the pages
      before `k`, nothing from `k` or later, and `k` is the last page
      requested. */
  lemma RedirectEndsWalk(categoryId: int, startPage: int, k: int, endPage: int, pages: int -> Fetch,
                         select: string -> seq<string>, urljoin: (string, string) -> string)
    requires startPage <= k <= endPage
    requires VisitPage(categoryId, k, pages(k), select, urljoin) == StopWalk
    requires forall p :: startPage <= p < k ==> VisitPage(categoryId, p, pages(p), select, urljoin) != StopWalk
    ensures var whole := WalkFrom(categoryId, startPage, endPage, pages, select, urljoin);
            whole.links == WalkFrom(categoryId, startPage, k - 1, pages, select, urljoin).links &&
            whole.visited == Pages(startPage, k)
  {
    WalkSplits(categoryId, startPage, k - 1, endPage, pages, select, urljoin);
    WalkWithoutRedirectVisitsAll(categoryId, startPage, k - 1, pages, select, urljoin);
    assert WalkFrom(categoryId, k, endPage, pages, select, urljoin) == Walk([], [k]);
    PagesSnoc(startPage, k - 1);
  }

  /** `range(first, last + 1)` followed by `last + 1`. */
  lemma PagesSnoc(first: int, last: int)
    requires first <= last + 1
    ensures Pages(first, last) + [last + 1] == Pages(first, last + 1)
  {
    assert |Pages(first, last) + [last + 1]| == |Pages(first, last + 1)|;
  }

  /** A page that fails with an HTTP or connection error adds no links and
      is requested once: the walk goes on with the next page. */
  lemma FailedPageIsSkipped(categoryId: int, pageIndex: int, endPage: int, pages: int -> Fetch,
                            select: string -> seq<string>, urljoin: (string, string) -> string)
    requires pageIndex <= endPage
    requires GetChecked(pages(pageIndex)) in {Raised(HTTPError), Raised(ConnectionError)}
    ensures var w := WalkFrom(categoryId, pageIndex, endPage, pages, select, urljoin);
            var rest := WalkFrom(categoryId, pageIndex + 1, endPage, pages, select, urljoin);
            w.links == rest.links && w.visited == [pageIndex] + rest.visited
  {
    var e := GetChecked(pages(pageIndex)).exception;
    CategoryHandlersCatchAll(e);
  }

  /** Every collected link is an `href` from a page that loaded, resolved
      against that page's URL. */
  lemma {:induction false} LinksComeFromLoadedPages(categoryId: int, pageIndex: int, endPage: int, pages: int -> Fetch,
                                                    select: string -> seq<string>, urljoin: (string, string) -> string)
    ensures forall l :: l in WalkFrom(categoryId, pageIndex, endPage, pages, select, urljoin).links ==>
              exists p :: pageIndex <= p <= endPage && GetChecked(pages(p)).Ok? &&
                          exists h :: h in select(GetChecked(pages(p)).value.text) && l == urljoin(CategoryUrl(categoryId, p), h)
    decreases endPage + 1 - pageIndex
  {
    if pageIndex <= endPage {
      LinksComeFromLoadedPages(categoryId, pageIndex + 1, endPage, pages, select, urljoin);
      var w := WalkFrom(categoryId, pageIndex, endPage, pages, select, urljoin);
      var rest := WalkFrom(categoryId, pageIndex + 1, endPage, pages, select, urljoin);
      match VisitPage(categoryId, pageIndex, pages(pageIndex), select, urljoin)
      case StopWalk =>
      case SkipPage =>
      case PageLinks(links) =>
        forall l | l in w.links
          ensures exists p :: pageIndex <= p <= endPage && GetChecked(pages(p)).Ok? &&
                              exists h :: h in select(GetChecked(pages(p)).value.text) && l == urljoin(CategoryUrl(categoryId, p), h)
        {
          if l in links {
            ResolveLinksAt(CategoryUrl(categoryId, pageIndex), select(GetChecked(pages(pageIndex)).value.text), urljoin);
            var i :| 0 <= i < |links| && links[i] == l;
            var hrefs := select(GetChecked(pages(pageIndex)).value.text);
            assert hrefs[i] in hrefs;
          }
        }
    }
  }

  /** Resolving one more `href` appends one more link. */
  lemma ResolveLinksSnoc(pageUrl: string, hrefs: seq<string>, k: nat, urljoin: (string, string) -> string)
    requires k < |hrefs|
    ensures ResolveLinks(pageUrl, hrefs[..k + 1], urljoin) ==
            ResolveLinks(pageUrl, hrefs[..k], urljoin) + [urljoin(pageUrl, hrefs[k])]
  {
    ResolveLinksAt(pageUrl, hrefs[..k + 1], urljoin);
    ResolveLinksAt(pageUrl, hrefs[..k], urljoin);
  }

  /** The `try` block for one page: fetch and check it, then append the
      resolved link of each book entry in order. */
  method ReadPage(categoryId: int, pageIndex: int, f: Fetch,
                  select: string -> seq<string>, urljoin: (string, string) -> string)
    returns (r: PageResult)
    ensures r == VisitPage(categoryId, pageIndex, f, select, urljoin)
  {
    var categoryUrl := CategoryUrl(categoryId, pageIndex);
    var response := GetChecked(f);
    if response.Raised? {
      if response.exception == RedirectDetectedError {
        return StopWalk;
      }
      return SkipPage;
    }
    var hrefs := select(response.value.text);
    var links := [];
    for k := 0 to |hrefs|
      invariant links == ResolveLinks(categoryUrl, hrefs[..k], urljoin)
    {
      ResolveLinksSnoc(categoryUrl, hrefs, k, urljoin);
      links := links + [urljoin(categoryUrl, hrefs[k])];
    }
    assert hrefs[..|hrefs|] == hrefs;
    return PageLinks(links);
  }

  /** One more page of the walk: what follows the pages already walked
      is the outcome of `pageIndex`, then the rest of the walk. */
  lemma WalkStep(done: Walk, categoryId: int, pageIndex: int, endPage: int, pages: int -> Fetch,
                 select: string -> seq<string>, urljoin: (string, string) -> string)
    requires pageIndex <= endPage
    ensures var rest := WalkFrom(categoryId, pageIndex + 1, endPage, pages, select, urljoin);
            var whole := Join(done, WalkFrom(categoryId, pageIndex, endPage, pages, select, urljoin));
            match VisitPage(categoryId, pageIndex, pages(pageIndex), select, urljoin)
            case StopWalk => whole == Join(done, Walk([], [pageIndex]))
            case SkipPage => whole == Join(Join(done, Walk([], [pageIndex])), rest)
            case PageLinks(links) => whole == Join(Join(done, Walk(links, [pageIndex])), rest)
  {
    var rest := WalkFrom(categoryId, pageIndex + 1, endPage, pages, select, urljoin);
    match VisitPage(categoryId, pageIndex, pages(pageIndex), select, urljoin)
    case StopWalk =>
    case SkipPage => JoinAssociates(done, Walk([], [pageIndex]), rest);
    case PageLinks(links) => JoinAssociates(done, Walk(links, [pageIndex]), rest);
  }

  /** `parse_category`: the loop over the pages, appending each loaded
      page's links and stopping at the first redirect. */
  method ParseCategory(categoryId: int, startPage: int, endPage: int, pages: int -> Fetch,
                       select: string -> seq<string>, urljoin: (string, string) -> string)
    returns (bookLinks: seq<string>, visited: seq<int>)
    ensures Walk(bookLinks, visited) == WalkFrom(categoryId, startPage, endPage, pages, select, urljoin)
  {
    bookLinks, visited := [], [];
    var pageIndex := startPage;
    ghost var whole := WalkFrom(categoryId, startPage, endPage, pages, select, urljoin);
    while pageIndex <= endPage
      invariant whole == Join(Walk(bookLinks, visited), WalkFrom(categoryId, pageIndex, endPage, pages, select, urljoin))
      decreases endPage + 1 - pageIndex
    {
      ghost var done := Walk(bookLinks, visited);
      var result := ReadPage(categoryId, pageIndex, pages(pageIndex), select, urljoin);
      WalkStep(done, categoryId, pageIndex, endPage, pages, select, urljoin);
      visited := visited + [pageIndex];
      match result {
        case StopWalk =>
          assert Join(done, Walk([], [pageIndex])) == Walk(bookLinks, visited);
          break;
        case SkipPage =>
          assert Join(done, Walk([], [pageIndex])) == Walk(bookLinks, visited);
        case PageLinks(links) =>
          bookLinks := bookLinks + links;
          assert Join(done, Walk(links, [pageIndex])) == Walk(bookLinks, visited);
      }
      pageIndex := pageIndex + 1;
    }
  }
}
