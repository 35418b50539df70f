/** The crawl over Project Gutenberg's robot harvest pages: reading one page
    (`get_page_content`) and the `harvest_books` loop that downloads and
    processes every book a page links to.  A catalog page is a list of anchors;
    the catalog server is a function from the address asked for (and whether
    the first request's filter parameters went with it) to a response. */
module Crawl {
  import opened Text
  import opened Harvester
  import opened Query
  import Normalizer

  // ---------------------------------------------------------------------------
  // One catalog page

  /** An `<a>` element: its `href` attribute, if it has one, and its text. */
  datatype Anchor = Anchor(href: Option<string>, text: string)

  datatype PageResponse =
    | PageTimedOut
    | PageFailed
    | PageHttp(status: int, anchors: seq<Anchor>)

  /** `[a['href'] for a in soup.find_all('a', href=True) if a['href'].endswith('.zip')]`. */
  function ZipLinks(anchors: seq<Anchor>): (r: seq<string>)
    ensures forall x :: x in r <==> exists a :: a in anchors && a.href == Some(x) && EndsWith(x, ".zip")
  {
    if |anchors| == 0 then []
    else
      var a := anchors[0];
      var rest := ZipLinks(anchors[1..]);
      assert forall b :: b in anchors <==> b == a || b in anchors[1..];
      if a.href.Some? && EndsWith(a.href.value, ".zip") then [a.href.value] + rest else rest
  }

  /** The links keep the page's order: the links of two runs of anchors are
      the two runs' links one after the other. */
  lemma {:induction false} ZipLinksConcat(a: seq<Anchor>, b: seq<Anchor>)
    ensures ZipLinks(a + b) == ZipLinks(a) + ZipLinks(b)
    decreases |a|
  {
    if |a| > 0 {
      assert (a + b)[0] == a[0];
      assert (a + b)[1..] == a[1..] + b;
      ZipLinksConcat(a[1..], b);
    } else {
      assert a + b == b;
    }
  }

  /** `soup.find('a', string='Next Page')`: the first anchor whose text is
      exactly "Next Page". */
  function NextAnchor(anchors: seq<Anchor>): (r: Option<nat>)
    ensures r.None? <==> forall i :: 0 <= i < |anchors| ==> anchors[i].text != "Next Page"
    ensures r.Some? ==> r.value < |anchors| && anchors[r.value].text == "Next Page"
                        && forall i :: 0 <= i < r.value ==> anchors[i].text != "Next Page"
  {
    if |anchors| == 0 then None
    else if anchors[0].text == "Next Page" then Some(0)
    else
      var r := NextAnchor(anchors[1..]);
      assert forall i :: 1 <= i < |anchors| ==> anchors[i] == anchors[1..][i - 1];
      if r.None? then None else Some(r.value + 1)
  }

  // ---------------------------------------------------------------------------
  // get_page_content

  /** The next-page address of a page: the joined `href` of the first
      "Next Page" anchor, `None` when there is none or it has no `href`. */
  function NextLink(anchors: seq<Anchor>): (r: Option<string>)
    ensures r.Some? <==> NextAnchor(anchors).Some? && anchors[NextAnchor(anchors).value].href.Some?
    ensures r.Some? ==> r.value == UrlJoin(anchors[NextAnchor(anchors).value].href.value)
  {
    match NextAnchor(anchors)
    case None => None
    case Some(i) =>
      match anchors[i].href
      case None => None
      case Some(h) => Some(UrlJoin(h))
  }

  /** A page's book links and next-page address, the filter added to the
      latter by the rule as the harvesters write it; a failed, timed-out or
      non-200 fetch yields neither. */
  function GetPageContent(lang: Lang, resp: PageResponse): (r: (seq<string>, Option<string>))
    ensures !(resp.PageHttp? && resp.status == 200) ==> r.0 == [] && r.1 == None
    ensures resp.PageHttp? && resp.status == 200 ==>
              r.0 == ZipLinks(resp.anchors)
              && (r.1.Some? <==> NextLink(resp.anchors).Some?)
              && (r.1.Some? ==> StartsWith(r.1.value, NextLink(resp.anchors).value))
  {
    if resp.PageHttp? && resp.status == 200 then
      var next := NextLink(resp.anchors);
      (ZipLinks(resp.anchors), if next.Some? then Some(NextUrlAsWritten(lang, next.value)) else None)
    else ([], None)
  }

  /** The next address a page yields is its next link with the filter added
      by the written rule: kept when its query has the filter key, otherwise
      followed by `&filetypes[]=txt&langs[]=<code>`. */
  lemma GetPageContentNext(lang: Lang, resp: PageResponse)
    requires resp.PageHttp? && resp.status == 200 && NextLink(resp.anchors).Some?
    ensures var next := NextLink(resp.anchors).value;
      && (HasQueryKey(next, FilterKey) ==> GetPageContent(lang, resp).1 == Some(next))
      && (!HasQueryKey(next, FilterKey) ==> GetPageContent(lang, resp).1 == Some(next + "&" + FilterQuery(lang)))
  {
  }

  /** A next link that already has a query (and no fragment) leads to an
      address carrying the filter; one without `?` leads to an address that
      does not, as the written rule appends to its path. */
  lemma GetPageContentFiltered(lang: Lang, resp: PageResponse)
    requires resp.PageHttp? && resp.status == 200 && NextLink(resp.anchors).Some?
    requires '#' !in NextLink(resp.anchors).value
    ensures var next := NextLink(resp.anchors).value;
      HasQueryKey(GetPageContent(lang, resp).1.value, FilterKey) <==> '?' in next
  {
    var next := NextLink(resp.anchors).value;
    if '?' in next {
      NextUrlAgrees(lang, next);
    } else {
      NextUrlAsWrittenMissesFilter(lang, next);
    }
  }

  /** The page reading with the intended rule: the next address always carries
      the filter. */
  function GetPageContentCorrected(lang: Lang, resp: PageResponse): (r: (seq<string>, Option<string>))
    ensures r.0 == GetPageContent(lang, resp).0
    ensures r.1.Some? <==> GetPageContent(lang, resp).1.Some?
    ensures r.1.Some? ==> HasQueryKey(r.1.value, FilterKey)
  {
    if resp.PageHttp? && resp.status == 200 then
      var next := NextLink(resp.anchors);
      (ZipLinks(resp.anchors), if next.Some? then Some(NextUrl(lang, next.value)) else None)
    else ([], None)
  }

  // ---------------------------------------------------------------------------
  // harvest_books

  /** Every link's book is recorded as processed or failed. */
  ghost predicate Settled(s: Store, links: seq<string>)
  {
    forall l :: l in links && BookIdOf(l).Some? ==> BookIdOf(l).value in s.processed + s.failed
  }

  lemma SettledGrows(s: Store, t: Store, links: seq<string>)
    requires Settled(s, links) && s.processed <= t.processed && s.failed <= t.failed
    ensures Settled(t, links)
  {
  }

  /** The `download_book` tasks of one page, one after the other: each link's
      book ends up recorded or with an archive in the staging directory. */
  method DownloadAll(s: Store, links: seq<string>, net: Network) returns (after: Store)
    ensures after.processed == s.processed && s.failed <= after.failed
    ensures after.extracted == s.extracted && after.output == s.output
    ensures forall l :: l in links && BookIdOf(l).Some? ==>
              var id := BookIdOf(l).value;
              id in after.processed || id in after.failed || id in after.staging
  {
    after := s;
    var i := 0;
    while i < |links|
      invariant i <= |links|
      invariant after.processed == s.processed && s.failed <= after.failed
      invariant after.extracted == s.extracted && after.output == s.output
      invariant forall j :: 0 <= j < i && BookIdOf(links[j]).Some? ==>
                  var id := BookIdOf(links[j]).value;
                  id in after.processed || id in after.failed || id in after.staging
    {
      var next, d := DownloadBook(after, links[i], net);
      after := next;
      i := i + 1;
    }
  }

  /** `process_book` records the book as processed or failed and never
      forgets a recorded book. */
  lemma ProcessBookRecords(s: Store, id: string, norm: string -> string)
    ensures var r := ProcessBook(s, id, norm);
      && (id in r.processed || id in r.failed)
      && s.processed <= r.processed && s.failed <= r.failed
  {
    if id in s.staging && GoodArchive(s.staging[id]) {
      ProcessArchiveRecords(s, id, s.staging[id].members, norm);
    }
  }

  /** The `process_book` tasks for every archive in the staging directory, in
      an order the model leaves open; the directory ends empty. */
  method ProcessAll(s: Store, norm: string -> string) returns (after: Store)
    ensures after.staging == map[]
    ensures s.processed <= after.processed && s.failed <= after.failed
    ensures forall id :: id in s.staging ==> id in after.processed || id in after.failed
  {
    after := s;
    while after.staging != map[]
      invariant after.staging.Keys <= s.staging.Keys
      invariant s.processed <= after.processed && s.failed <= after.failed
      invariant forall id :: id in s.staging && id !in after.staging ==> id in after.processed || id in after.failed
      decreases |after.staging.Keys|
    {
      var id :| id in after.staging;
      ProcessBookRecords(after, id, norm);
      var next := ProcessBook(after, id, norm);
      assert next.staging.Keys == after.staging.Keys - {id};
      after := next;
    }
  }

  /** One page's work: download every linked book, then process every archive
      in the staging directory. */
  method HandleLinks(s: Store, links: seq<string>, net: Network) returns (after: Store)
    ensures s.processed <= after.processed && s.failed <= after.failed
    ensures after.staging == map[]
    ensures Settled(after, links)
  {
    var downloaded := DownloadAll(s, links, net);
    after := ProcessAll(downloaded, Normalizer.ProcessText);
  }

  datatype Stop = NoLinks | NoNext | OutOfPages

  /** A page's links and next-page address, as `get_page_content` returns them. */
  type Page = (seq<string>, Option<string>)

  /** `harvest_books`, stopped after at most `limit` pages: fetch a page, stop
      when it has no links, otherwise download and process its books, then
      follow the next-page address until there is none.  `visits` are the
      addresses requested and `pages` what each request returned; only the
      first request carries the filter parameters. */
  method Harvest(lang: Lang, catalog: (string, bool) -> PageResponse, net: Network, s0: Store, limit: nat)
    returns (s: Store, visits: seq<string>, pages: seq<Page>, stop: Stop)
    ensures |visits| == |pages| <= limit
    ensures forall i :: 0 <= i < |visits| ==> pages[i] == GetPageContent(lang, catalog(visits[i], i == 0))
    ensures limit > 0 ==> |visits| > 0 && visits[0] == BaseUrl
    ensures forall i :: 0 <= i < |visits| - 1 ==> pages[i].0 != [] && pages[i].1 == Some(visits[i + 1])
    ensures stop == NoLinks ==> |pages| > 0 && pages[|pages| - 1].0 == []
    ensures stop == NoNext ==> |pages| > 0 && pages[|pages| - 1].0 != [] && pages[|pages| - 1].1 == None
    ensures stop == OutOfPages ==> |visits| == limit
    ensures s0.processed <= s.processed && s0.failed <= s.failed
    ensures forall i :: 0 <= i < |pages| ==> Settled(s, pages[i].0)
    ensures (exists i :: 0 <= i < |pages| && pages[i].0 != []) ==> s.staging == map[]
  {
    var read := (u: string, first: bool) => GetPageContent(lang, catalog(u, first));
    s, visits, pages, stop := FollowPages(read, net, s0, limit);
  }

  /** The loop of `harvest_books` over any page reader `read`. */
  method FollowPages(read: (string, bool) -> Page, net: Network, s0: Store, limit: nat)
    returns (s: Store, visits: seq<string>, pages: seq<Page>, stop: Stop)
    ensures |visits| == |pages| <= limit
    ensures forall i :: 0 <= i < |visits| ==> pages[i] == read(visits[i], i == 0)
    ensures limit > 0 ==> |visits| > 0 && visits[0] == BaseUrl
    ensures forall i :: 0 <= i < |visits| - 1 ==> pages[i].0 != [] && pages[i].1 == Some(visits[i + 1])
    ensures stop == NoLinks ==> |pages| > 0 && pages[|pages| - 1].0 == []
    ensures stop == NoNext ==> |pages| > 0 && pages[|pages| - 1].0 != [] && pages[|pages| - 1].1 == None
    ensures stop == OutOfPages ==> |visits| == limit
    ensures s0.processed <= s.processed && s0.failed <= s.failed
    ensures forall i :: 0 <= i < |pages| ==> Settled(s, pages[i].0)
    ensures (exists i :: 0 <= i < |pages| && pages[i].0 != []) ==> s.staging == map[]
  {
    s := s0;
    visits := [];
    pages := [];
    var current := BaseUrl;
    stop := OutOfPages;
    while |visits| < limit
      invariant |visits| == |pages| <= limit
      invariant forall i :: 0 <= i < |visits| ==> pages[i] == read(visits[i], i == 0)
      invariant |visits| == 0 ==> current == BaseUrl
      invariant |visits| > 0 ==> visits[0] == BaseUrl
      invariant forall i :: 0 <= i < |pages| ==>
                  pages[i].0 != [] && pages[i].1 == Some(if i + 1 < |visits| then visits[i + 1] else current)
      invariant s0.processed <= s.processed && s0.failed <= s.failed
      invariant forall i :: 0 <= i < |pages| ==> Settled(s, pages[i].0)
      invariant |visits| > 0 ==> s.staging == map[]
    {
      var page := read(current, |visits| == 0);
      visits := visits + [current];
      pages := pages + [page];
      if page.0 == [] {
        stop := NoLinks;
        return;
      }
      var handled := HandleLinks(s, page.0, net);
      forall i | 0 <= i < |pages| - 1
        ensures Settled(handled, pages[i].0)
      {
        SettledGrows(s, handled, pages[i].0);
      }
      s := handled;
      if page.1.None? {
        stop := NoNext;
        return;
      }
      current := page.1.value;
    }
  }
}
