/** Walking the paginated shelf and selecting the top-rated books. The web
    is a map from URL to the page found there; a URL the map lacks stands for
    a page that cannot be fetched or has no books table, which the program
    does not survive. */
module Pages {
  import opened Wrappers
  import opened Dates
  import opened Shelf
  import opened Seqs

  const BaseUrl: string := "https://www.goodreads.com"
  const FirstPageUrl: string := BaseUrl + "/review/list/18740796-vadym-klymenko?shelf=read"

  /** A fetched shelf page: its table rows, and the `href` of its
      "next page" link when it has one. */
  datatype Page = Page(rows: seq<Row>, nextHref: Option<string>)

  type Site = map<string, Page>

  datatype CrawlError =
    | DateFailed(date: DateError)
    | PageUnavailable(url: string)

  /** `get_next_page`: the base URL joined with the link's `href`, or
      nothing when the page has no link. */
  function GetNextPage(nextHref: Option<string>): (r: Option<string>)
    ensures r.Some? <==> nextHref.Some?
    ensures r.Some? ==> |r.value| == |BaseUrl| + |nextHref.value|
    ensures r.Some? ==> r.value[..|BaseUrl|] == BaseUrl && r.value[|BaseUrl|..] == nextHref.value
  {
    match nextHref
    case None => None
    case Some(href) => Some(BaseUrl + href)
  }

  /** Following "next" links from `url` reaches, within `n` links, a URL
      that fails, a page whose dates do not convert, or a page without a
      link: a page where `parse_books` stops. */
  predicate EndsWithin(site: Site, url: string, n: nat)
    decreases n
  {
    url !in site || PageRecords(site[url].rows).Err? || site[url].nextHref.None? ||
    (n > 0 && EndsWithin(site, GetNextPage(site[url].nextHref).value, n - 1))
  }

  /** Puts `books` in front of a successful result. */
  function Prepend(books: seq<BookReview>, r: Result<seq<BookReview>, CrawlError>): Result<seq<BookReview>, CrawlError>
  {
    match r
    case Err(e) => Err(e)
    case Ok(more) => Ok(books + more)
  }

  /** `parse_books(url)`, as the source recurses: this page's records, then
      those of the pages after it. */
  function Crawl(site: Site, url: string, n: nat): (r: Result<seq<BookReview>, CrawlError>)
    requires EndsWithin(site, url, n)
    ensures r.Ok? ==> url in site && PageRecords(site[url].rows).Ok?
    ensures r.Err? && r.error.PageUnavailable? ==> r.error.url !in site
    decreases n
  {
    if url !in site then Err(PageUnavailable(url))
    else
      match PageRecords(site[url].rows)
      case Err(e) => Err(DateFailed(e))
      case Ok(books) =>
        match GetNextPage(site[url].nextHref)
        case None => Ok(books)
        case Some(next) => Prepend(books, Crawl(site, next, n - 1))
  }

  /** Prepending twice is prepending the concatenation. */
  lemma PrependTwice(a: seq<BookReview>, b: seq<BookReview>, r: Result<seq<BookReview>, CrawlError>)
    ensures Prepend(a, Prepend(b, r)) == Prepend(a + b, r)
  {
    if r.Ok? {
      assert a + (b + r.value) == (a + b) + r.value;
    }
  }

  /** Prepending no books changes nothing. */
  lemma PrependNothing(r: Result<seq<BookReview>, CrawlError>)
    ensures Prepend([], r) == r
  {
    if r.Ok? {
      assert [] + r.value == r.value;
    }
  }

  /** `parse_books` with its recursion turned into a loop that extends one
      list page by page: the result is the one the recursion gives. */
  method ParseBooks(site: Site, seed: string, ghost n: nat) returns (r: Result<seq<BookReview>, CrawlError>)
    requires EndsWithin(site, seed, n)
    ensures r == Crawl(site, seed, n)
  {
    var books: seq<BookReview> := [];
    var url := seed;
    ghost var k := n;
    PrependNothing(Crawl(site, seed, n));
    while true
      invariant EndsWithin(site, url, k)
      invariant Crawl(site, seed, n) == Prepend(books, Crawl(site, url, k))
      decreases k
    {
      if url !in site {
        return Err(PageUnavailable(url));
      }
      var page := site[url];
      var pageBooks := ProcessBookshelfPage(page.rows);
      if pageBooks.Err? {
        return Err(DateFailed(pageBooks.error));
      }
      var next := GetNextPage(page.nextHref);
      if next.None? {
        return Ok(books + pageBooks.value);
      }
      PrependTwice(books, pageBooks.value, Crawl(site, next.value, k - 1));
      books := books + pageBooks.value;
      url := next.value;
      k := k - 1;
    }
  }

  /** Whether `parse_books` goes on from the page at `url` to a next one. */
  predicate Continues(site: Site, url: string)
  {
    Readable(site, url) && site[url].nextHref.Some?
  }

  /** The URLs `parse_books` visits, in order, from `url` on. */
  function ChainUrls(site: Site, url: string, n: nat): (urls: seq<string>)
    requires EndsWithin(site, url, n)
    ensures |urls| >= 1 && urls[0] == url
    decreases n
  {
    if Continues(site, url) then
      [url] + ChainUrls(site, GetNextPage(site[url].nextHref).value, n - 1)
    else [url]
  }

  /** Each URL of the chain after the first is the base URL joined with the
      previous page's link; the last one is missing, fails, or has no link. */
  lemma {:induction false} ChainLinks(site: Site, url: string, n: nat)
    requires EndsWithin(site, url, n)
    ensures var urls := ChainUrls(site, url, n);
      && (forall k :: 0 <= k < |urls| - 1 ==>
            urls[k] in site && Some(urls[k + 1]) == GetNextPage(site[urls[k]].nextHref))
      && !Continues(site, urls[|urls| - 1])
    decreases n
  {
    if Continues(site, url) {
      ChainLinks(site, GetNextPage(site[url].nextHref).value, n - 1);
    }
  }

  /** The page at `url` is present and its rows convert. */
  predicate Readable(site: Site, url: string)
  {
    url in site && PageRecords(site[url].rows).Ok?
  }

  /** Every page of the chain is present and its rows convert. */
  predicate ChainReadable(site: Site, urls: seq<string>)
  {
    forall k :: 0 <= k < |urls| ==> Readable(site, urls[k])
  }

  /** The records of the pages, concatenated in chain order. */
  function Concat(site: Site, urls: seq<string>): seq<BookReview>
    requires ChainReadable(site, urls)
  {
    if urls == [] then []
    else PageRecords(site[urls[0]].rows).value + Concat(site, urls[1..])
  }

  /** A chain can be read exactly when its first page can and the rest of
      it can. */
  lemma ChainReadableCons(site: Site, urls: seq<string>)
    requires urls != []
    ensures ChainReadable(site, urls) <==> Readable(site, urls[0]) && ChainReadable(site, urls[1..])
  {
    var rest := urls[1..];
    assert forall k :: 0 <= k < |rest| ==> rest[k] == urls[k + 1];
    if Readable(site, urls[0]) && ChainReadable(site, rest) {
      forall k | 0 < k < |urls| ensures Readable(site, urls[k]) {
        assert urls[k] == rest[k - 1];
      }
    }
  }

  /** A chain of one page is read as that page. */
  lemma ChainOfOne(site: Site, url: string)
    ensures ChainReadable(site, [url]) <==> Readable(site, url)
    ensures ChainReadable(site, [url]) ==> Concat(site, [url]) == PageRecords(site[url].rows).value
  {
    assert [url][0] == url;
    if ChainReadable(site, [url]) {
      var books := PageRecords(site[url].rows).value;
      assert [url][1..] == [];
      assert Concat(site, [url]) == books + [];
      assert books + [] == books;
    }
  }

  /** When every page of the chain can be read, `parse_books` returns the
      concatenation of the pages' records in chain order; otherwise it
      fails. */
  lemma {:induction false} CrawlConcatenates(site: Site, url: string, n: nat)
    requires EndsWithin(site, url, n)
    ensures ChainReadable(site, ChainUrls(site, url, n)) <==> Crawl(site, url, n).Ok?
    ensures ChainReadable(site, ChainUrls(site, url, n)) ==>
      Crawl(site, url, n) == Ok(Concat(site, ChainUrls(site, url, n)))
    decreases n
  {
    var urls := ChainUrls(site, url, n);
    if Continues(site, url) {
      var next := GetNextPage(site[url].nextHref).value;
      CrawlConcatenates(site, next, n - 1);
      assert urls[1..] == ChainUrls(site, next, n - 1);
      ChainReadableCons(site, urls);
    } else {
      assert urls == [url];
      ChainOfOne(site, url);
    }
  }

  /** How many links may still be followed does not change the result. */
  lemma {:induction false} CrawlFuel(site: Site, url: string, n: nat, m: nat)
    requires EndsWithin(site, url, n) && EndsWithin(site, url, m)
    ensures Crawl(site, url, n) == Crawl(site, url, m)
    decreases n
  {
    if Continues(site, url) {
      CrawlFuel(site, GetNextPage(site[url].nextHref).value, n - 1, m - 1);
    }
  }

  /** `book.rating in [4, 5]`. */
  predicate IsTopRated(b: BookReview)
  {
    b.rating == 4 || b.rating == 5
  }

  /** `list(filter(lambda book: book.rating in [4, 5], books))`. */
  function TopRated(books: seq<BookReview>): (r: seq<BookReview>)
    ensures |r| <= |books|
  {
    Filter(IsTopRated, books)
  }

  /** The top-rated list holds exactly the books rated 4 or 5, each as often
      as in the full list, in the full list's order. */
  lemma TopRatedExact(books: seq<BookReview>)
    ensures forall b :: b in TopRated(books) ==> IsTopRated(b)
    ensures forall b :: multiset(TopRated(books))[b] == if IsTopRated(b) then multiset(books)[b] else 0
    ensures IsSubsequence(TopRated(books), books)
  {
    FilterSatisfies(IsTopRated, books);
    forall b
      ensures multiset(TopRated(books))[b] == if IsTopRated(b) then multiset(books)[b] else 0
    {
      FilterCounts(IsTopRated, books, b);
    }
    FilterIsSubsequence(IsTopRated, books);
  }

  /** The top-rated list of the whole crawl is the pages' top-rated lists
      concatenated in chain order. */
  lemma {:induction false} TopRatedByPage(site: Site, urls: seq<string>)
    requires ChainReadable(site, urls)
    ensures TopRated(Concat(site, urls)) ==
      if urls == [] then []
      else TopRated(PageRecords(site[urls[0]].rows).value) + TopRated(Concat(site, urls[1..]))
  {
    if urls != [] {
      FilterAppend(IsTopRated, PageRecords(site[urls[0]].rows).value, Concat(site, urls[1..]));
    }
  }

  /** What `process` writes: every book read, and the top-rated ones. */
  datatype Output = Output(books: seq<BookReview>, topRated: seq<BookReview>)

  /** `process` without its logging and file writes: crawl from the first
      shelf page and select the top-rated books. */
  method Process(site: Site, ghost n: nat) returns (r: Result<Output, CrawlError>)
    requires EndsWithin(site, FirstPageUrl, n)
    ensures r.Ok? <==> Crawl(site, FirstPageUrl, n).Ok?
    ensures r.Err? ==> r.error == Crawl(site, FirstPageUrl, n).error
    ensures r.Ok? ==> r.value.books == Crawl(site, FirstPageUrl, n).value
    ensures r.Ok? ==> r.value.topRated == TopRated(r.value.books)
  {
    var books := ParseBooks(site, FirstPageUrl, n);
    if books.Err? {
      return Err(books.error);
    }
    var topRated := TopRated(books.value);
    return Ok(Output(books.value, topRated));
  }
}
