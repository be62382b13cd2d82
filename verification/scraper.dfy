/**
 The scrape-and-merge pipeline of the bicycle catalogue scraper.

 A page is fetched by URL, its product-name links and price tags are paired by
 position, each title is cut down to the model name that follows the word
 "Велосипед", and the pairs are written into one catalogue map where the last
 write wins. Two drivers walk the pages: a sequential one that stops at the
 first non-200 status or after page 10, and a concurrent one that fetches pages
 1..10 at once and merges each page as its task completes.

 The network is a total function from URL to response; the HTML selectors are
 abstracted to the two attribute lists they yield.
 */
module Scraper {
  import opened Optional
  import opened Strings

  const BaseUrl: string := "https://m-velo.by/velosipedy?cpage=page-"

  /** The word that precedes the model name in a product title. */
  const Marker: string := "Велосипед"

  /** The last page either driver parses. */
  const PageCap: nat := 10

  const StatusOk: int := 200

  /** Model name to raw price text. */
  type Catalogue = map<string, string>

  datatype Record = Record(model: string, price: string)

  /**
   What the two CSS selectors find in one HTML document, in document order:
   the `title` attributes of the product-name links and the `content`
   attributes of the price meta tags.
   */
  datatype Page = Page(titles: seq<string>, prices: seq<string>)

  /** One HTTP exchange: a status and a body, or an exception from the transport. */
  datatype Response = Response(status: int, page: Page) | TransportError

  /** What a driver hands back: the catalogue, or nothing when an exception escaped. */
  datatype Outcome = Completed(data: Catalogue) | Aborted

  /** The URLs requested (in issue order), the pages parsed (in merge order) and the outcome. */
  datatype Run = Run(requested: seq<string>, parsed: seq<nat>, outcome: Outcome)

  // ---------------------------------------------------------------------------
  // URLs
  // ---------------------------------------------------------------------------

  function PageUrl(page: nat): string {
    BaseUrl + NatToString(page)
  }

  lemma BaseUrlHasNoDigits()
    ensures DigitsOf(BaseUrl) == []
  {
    assert forall i :: 0 <= i < |BaseUrl| ==> !IsDigit(BaseUrl[i]);
  }

  /** The base URL holds no digit, so the digits of a page URL spell exactly its page number. */
  lemma PageUrlNumber(page: nat)
    ensures DecimalValue(DigitsOf(PageUrl(page))) == page
  {
    BaseUrlHasNoDigits();
    DigitsOfConcat(BaseUrl, NatToString(page));
    DigitsOfAllDigits(NatToString(page));
    assert DigitsOf(PageUrl(page)) == NatToString(page);
    DecimalValueOfNatToString(page);
  }

  /** Different pages are requested at different URLs. */
  lemma PageUrlInjective(p: nat, q: nat)
    ensures PageUrl(p) == PageUrl(q) <==> p == q
  {
    if PageUrl(p) == PageUrl(q) {
      PageUrlNumber(p);
      PageUrlNumber(q);
    }
  }

  // ---------------------------------------------------------------------------
  // Extraction from one page
  // ---------------------------------------------------------------------------

  /** `title.split("Велосипед")[-1]`. */
  function ModelName(title: string): string {
    SplitLast(title, Marker)
  }

  lemma MarkerIsBorderFree()
    ensures BorderFree(Marker)
  {
    FirstCharUniqueIsBorderFree(Marker);
  }

  /**
   The model name is the text after the last "Велосипед" in the title, and
   the whole title when the word does not occur.
   */
  lemma ModelNameIsAfterLastMarker(title: string)
    ensures ModelName(title) == match LastOccurrence(title, Marker)
                                case None => title
                                case Some(k) => title[k + |Marker|..]
  {
    MarkerIsBorderFree();
    SplitLastIsAfterLastOccurrence(title, Marker);
  }

  /** The boundary cases: no marker keeps the title; a title that ends with the marker gives the empty name. */
  lemma ModelNameBoundaries(title: string)
    ensures !Contains(title, Marker) ==> ModelName(title) == title
    ensures OccursAt(title, Marker, |title| - |Marker|) ==> ModelName(title) == ""
  {
    ModelNameIsAfterLastMarker(title);
    if OccursAt(title, Marker, |title| - |Marker|) {
      var k := LastOccurrence(title, Marker).value;
      assert k == |title| - |Marker|;
    }
  }

  /** Pair the i-th title with the i-th price, dropping the longer list's surplus (Python's `zip`). */
  function PairRecords(titles: seq<string>, prices: seq<string>): seq<Record>
    decreases |titles|
  {
    if |titles| == 0 || |prices| == 0 then []
    else [Record(ModelName(titles[0]), prices[0])] + PairRecords(titles[1..], prices[1..])
  }

  /** Exactly `min(|titles|, |prices|)` records, the i-th built from `titles[i]` and `prices[i]`. */
  lemma {:induction false} PairRecordsSpec(titles: seq<string>, prices: seq<string>)
    ensures var recs := PairRecords(titles, prices);
            && |recs| == (if |titles| < |prices| then |titles| else |prices|)
            && forall i :: 0 <= i < |recs| ==> recs[i] == Record(ModelName(titles[i]), prices[i])
    decreases |titles|
  {
    if |titles| > 0 && |prices| > 0 {
      PairRecordsSpec(titles[1..], prices[1..]);
    }
  }

  /** The models the records write. */
  function Names(recs: seq<Record>): set<string>
    decreases |recs|
  {
    if |recs| == 0 then {} else {recs[0].model} + Names(recs[1..])
  }

  /** A model is among the names exactly when some record writes it. */
  lemma {:induction false} NamesMembership(recs: seq<Record>)
    ensures forall i :: 0 <= i < |recs| ==> recs[i].model in Names(recs)
    ensures forall m :: m in Names(recs) ==> exists i :: 0 <= i < |recs| && recs[i].model == m
    decreases |recs|
  {
    if |recs| > 0 {
      NamesMembership(recs[1..]);
      assert forall i :: 1 <= i < |recs| ==> recs[i] == recs[1..][i - 1];
      forall m | m in Names(recs[1..])
        ensures exists i :: 0 <= i < |recs| && recs[i].model == m
      {
        var i :| 0 <= i < |recs[1..]| && recs[1..][i].model == m;
        assert recs[i + 1].model == m;
      }
    }
  }

  lemma {:induction false} NamesConcat(a: seq<Record>, b: seq<Record>)
    ensures Names(a + b) == Names(a) + Names(b)
    decreases |a|
  {
    if |a| == 0 {
      assert a + b == b;
    } else {
      assert (a + b)[1..] == a[1..] + b;
      NamesConcat(a[1..], b);
    }
  }

  /** No later record writes the same model as record `i`. */
  predicate LastWrite(recs: seq<Record>, i: int)
    requires 0 <= i < |recs|
  {
    forall j :: i < j < |recs| ==> recs[j].model != recs[i].model
  }

  /** Write the records into the catalogue one after another (`data[model] = price`). */
  function Merge(data: Catalogue, recs: seq<Record>): Catalogue
    decreases |recs|
  {
    if |recs| == 0 then data
    else Merge(data[recs[0].model := recs[0].price], recs[1..])
  }

  /**
   The key set grows by exactly the written names, keys not written keep their
   price, and each name ends with the price of its last record.
   */
  lemma {:induction false} MergeSpec(data: Catalogue, recs: seq<Record>)
    ensures Merge(data, recs).Keys == data.Keys + Names(recs)
    ensures forall k :: k in data && k !in Names(recs) ==> Merge(data, recs)[k] == data[k]
    ensures forall i :: 0 <= i < |recs| && LastWrite(recs, i) ==>
              recs[i].model in Merge(data, recs) && Merge(data, recs)[recs[i].model] == recs[i].price
    decreases |recs|
  {
    if |recs| > 0 {
      var data' := data[recs[0].model := recs[0].price];
      MergeSpec(data', recs[1..]);
      NamesMembership(recs[1..]);
      forall i | 0 <= i < |recs| && LastWrite(recs, i)
        ensures recs[i].model in Merge(data, recs) && Merge(data, recs)[recs[i].model] == recs[i].price
      {
        if i == 0 {
          assert recs[0].model !in Names(recs[1..]);
        } else {
          assert LastWrite(recs[1..], i - 1);
        }
      }
    }
  }

  /** Merging `a` and then `b` is merging `a + b`: a later call's writes overwrite an earlier call's. */
  lemma {:induction false} MergeAppend(data: Catalogue, a: seq<Record>, b: seq<Record>)
    ensures Merge(Merge(data, a), b) == Merge(data, a + b)
    decreases |a|
  {
    if |a| == 0 {
      assert a + b == b;
    } else {
      assert (a + b)[1..] == a[1..] + b;
      MergeAppend(data[a[0].model := a[0].price], a[1..], b);
    }
  }

  /** The price a name ends with does not depend on the catalogue merged into, once the records write it. */
  lemma {:induction false} MergeBaseIrrelevant(d1: Catalogue, d2: Catalogue, recs: seq<Record>, m: string)
    requires m in Names(recs)
    ensures m in Merge(d1, recs) && m in Merge(d2, recs) && Merge(d1, recs)[m] == Merge(d2, recs)[m]
    decreases |recs|
  {
    MergeSpec(d1, recs);
    MergeSpec(d2, recs);
    var d1', d2' := d1[recs[0].model := recs[0].price], d2[recs[0].model := recs[0].price];
    if m in Names(recs[1..]) {
      MergeBaseIrrelevant(d1', d2', recs[1..], m);
    } else {
      MergeSpec(d1', recs[1..]);
      MergeSpec(d2', recs[1..]);
    }
  }

  /** `_extract_data_from_html`: pair the page's titles and prices and write them into the catalogue. */
  function ExtractPage(data: Catalogue, page: Page): Catalogue {
    Merge(data, PairRecords(page.titles, page.prices))
  }

  /** The names a page yields. */
  function PageNames(page: Page): set<string> {
    Names(PairRecords(page.titles, page.prices))
  }

  /** The catalogue a page yields on its own. */
  function PageCatalogue(page: Page): Catalogue {
    ExtractPage(map[], page)
  }

  /** How many pairs `zip` makes of a page: the shorter list's length. */
  function PairCount(page: Page): nat {
    if |page.titles| < |page.prices| then |page.titles| else |page.prices|
  }

  /** One extraction adds exactly the names of the page's first `PairCount` titles to the keys. */
  lemma ExtractPageKeys(data: Catalogue, page: Page)
    ensures ExtractPage(data, page).Keys
            == data.Keys + (set i | 0 <= i < PairCount(page) :: ModelName(page.titles[i]))
  {
    var recs := PairRecords(page.titles, page.prices);
    PairRecordsSpec(page.titles, page.prices);
    NamesMembership(recs);
    MergeSpec(data, recs);
    assert Names(recs) == set i | 0 <= i < PairCount(page) :: ModelName(page.titles[i]);
  }

  /** A key the page does not name keeps its price. */
  lemma ExtractPageUntouched(data: Catalogue, page: Page, m: string)
    requires m in data && m !in PageNames(page)
    ensures m in ExtractPage(data, page) && ExtractPage(data, page)[m] == data[m]
  {
    MergeSpec(data, PairRecords(page.titles, page.prices));
  }

  /** A name takes the price paired with the last title that yields it. */
  lemma ExtractPageLastTitleWins(data: Catalogue, page: Page, i: int)
    requires 0 <= i < PairCount(page)
    requires forall j :: i < j < PairCount(page) ==> ModelName(page.titles[j]) != ModelName(page.titles[i])
    ensures ModelName(page.titles[i]) in ExtractPage(data, page)
    ensures ExtractPage(data, page)[ModelName(page.titles[i])] == page.prices[i]
  {
    var recs := PairRecords(page.titles, page.prices);
    PairRecordsSpec(page.titles, page.prices);
    MergeSpec(data, recs);
    assert LastWrite(recs, i);
  }

  // ---------------------------------------------------------------------------
  // Merging several pages
  // ---------------------------------------------------------------------------

  /** The page a URL serves, or no nodes when the transport failed. */
  function PageOf(fetch: string -> Response, p: nat): Page {
    match fetch(PageUrl(p))
    case Response(_, page) => page
    case TransportError => Page([], [])
  }

  function PagesIn(fetch: string -> Response, ps: seq<nat>): (pages: seq<Page>)
    ensures |pages| == |ps|
    ensures forall i :: 0 <= i < |ps| ==> pages[i] == PageOf(fetch, ps[i])
  {
    seq(|ps|, i requires 0 <= i < |ps| => PageOf(fetch, ps[i]))
  }

  /** Extract the pages into the catalogue in the given order. */
  function FoldPages(data: Catalogue, pages: seq<Page>): Catalogue
    decreases |pages|
  {
    if |pages| == 0 then data
    else FoldPages(ExtractPage(data, pages[0]), pages[1..])
  }

  /** All records of the pages, page after page. */
  function Records(pages: seq<Page>): seq<Record>
    decreases |pages|
  {
    if |pages| == 0 then []
    else PairRecords(pages[0].titles, pages[0].prices) + Records(pages[1..])
  }

  /** Extracting page after page is one merge of all their records. */
  lemma {:induction false} FoldPagesIsMerge(data: Catalogue, pages: seq<Page>)
    ensures FoldPages(data, pages) == Merge(data, Records(pages))
    decreases |pages|
  {
    if |pages| > 0 {
      FoldPagesIsMerge(ExtractPage(data, pages[0]), pages[1..]);
      MergeAppend(data, PairRecords(pages[0].titles, pages[0].prices), Records(pages[1..]));
    }
  }

  /** A name occurs among the records exactly when some page yields it. */
  lemma {:induction false} NamesOfRecords(pages: seq<Page>)
    ensures forall m :: m in Names(Records(pages)) <==> exists j :: 0 <= j < |pages| && m in PageNames(pages[j])
    decreases |pages|
  {
    if |pages| > 0 {
      NamesOfRecords(pages[1..]);
      NamesConcat(PairRecords(pages[0].titles, pages[0].prices), Records(pages[1..]));
      forall m | m in Names(Records(pages))
        ensures exists j :: 0 <= j < |pages| && m in PageNames(pages[j])
      {
        if m !in PageNames(pages[0]) {
          var j :| 0 <= j < |pages[1..]| && m in PageNames(pages[1..][j]);
          assert m in PageNames(pages[j + 1]);
        }
      }
      forall m, j | 0 <= j < |pages| && m in PageNames(pages[j])
        ensures m in Names(Records(pages))
      {
        if j > 0 {
          assert m in PageNames(pages[1..][j - 1]);
        }
      }
    }
  }

  /** After extracting several pages, the keys are the old keys plus every name some page yields. */
  lemma FoldPagesKeys(data: Catalogue, pages: seq<Page>)
    ensures forall m :: m in FoldPages(data, pages) <==> m in data || exists j :: 0 <= j < |pages| && m in PageNames(pages[j])
  {
    FoldPagesIsMerge(data, pages);
    NamesOfRecords(pages);
    MergeSpec(data, Records(pages));
  }

  /** A name no page yields keeps its old price. */
  lemma FoldPagesUntouched(data: Catalogue, pages: seq<Page>, m: string)
    requires m in data
    requires forall j :: 0 <= j < |pages| ==> m !in PageNames(pages[j])
    ensures m in FoldPages(data, pages) && FoldPages(data, pages)[m] == data[m]
  {
    FoldPagesIsMerge(data, pages);
    NamesOfRecords(pages);
    MergeSpec(data, Records(pages));
  }

  /** Last page wins: a name takes the price the last page that yields it gives it. */
  lemma {:induction false} FoldPagesLastPageWins(data: Catalogue, pages: seq<Page>, j: int, m: string)
    requires 0 <= j < |pages| && m in PageNames(pages[j])
    requires forall l :: j < l < |pages| ==> m !in PageNames(pages[l])
    ensures m in PageCatalogue(pages[j]) && m in FoldPages(data, pages)
    ensures FoldPages(data, pages)[m] == PageCatalogue(pages[j])[m]
    decreases |pages|
  {
    var d' := ExtractPage(data, pages[0]);
    if j > 0 {
      FoldPagesLastPageWins(d', pages[1..], j - 1, m);
    } else {
      MergeBaseIrrelevant(data, map[], PairRecords(pages[0].titles, pages[0].prices), m);
      FoldPagesUntouched(d', pages[1..], m);
    }
  }

  // ---------------------------------------------------------------------------
  // The sequential driver
  // ---------------------------------------------------------------------------

  /** The response to a page request has status 200. */
  predicate Accepted(fetch: string -> Response, p: nat) {
    fetch(PageUrl(p)).Response? && fetch(PageUrl(p)).status == StatusOk
  }

  /**
   The `while True` loop of the sequential scraper from page `page` on, with
   `data` accumulated so far. The page is requested first; only then is the
   status or the page cap checked, so the page after the cap is requested but
   never parsed. An exception from the transport ends the run with nothing.
   */
  function Crawl(fetch: string -> Response, page: nat, data: Catalogue): (run: Run)
    requires 1 <= page <= PageCap + 1
    ensures |run.requested| == |run.parsed| + 1
    ensures page + |run.parsed| <= PageCap + 1
    ensures forall i :: 0 <= i < |run.parsed| ==> run.parsed[i] == page + i
    decreases PageCap + 1 - page
  {
    var response := fetch(PageUrl(page));
    if response.TransportError? then
      Run([PageUrl(page)], [], Aborted)
    else if response.status != StatusOk || page > PageCap then
      Run([PageUrl(page)], [], Completed(data))
    else
      var rest := Crawl(fetch, page + 1, ExtractPage(data, response.page));
      Run([PageUrl(page)] + rest.requested, [page] + rest.parsed, rest.outcome)
  }

  /** The i-th request of the loop goes to the URL of page `page + i`. */
  lemma {:induction false} CrawlRequests(fetch: string -> Response, page: nat, data: Catalogue)
    requires 1 <= page <= PageCap + 1
    ensures forall i :: 0 <= i < |Crawl(fetch, page, data).requested| ==>
              Crawl(fetch, page, data).requested[i] == PageUrl(page + i)
    decreases PageCap + 1 - page
  {
    var response := fetch(PageUrl(page));
    if response.Response? && response.status == StatusOk && page <= PageCap {
      var data' := ExtractPage(data, response.page);
      CrawlRequests(fetch, page + 1, data');
      var run := Crawl(fetch, page, data);
      var rest := Crawl(fetch, page + 1, data');
      assert run.requested == [PageUrl(page)] + rest.requested;
      forall i | 1 <= i < |run.requested|
        ensures run.requested[i] == PageUrl(page + i)
      {
        assert run.requested[i] == rest.requested[i - 1];
        assert 0 <= i - 1 < |rest.requested|;
        assert rest.requested[i - 1] == PageUrl(page + 1 + (i - 1));
      }
    }
  }

  /** Every parsed page answered 200. */
  lemma {:induction false} CrawlAccepted(fetch: string -> Response, page: nat, data: Catalogue)
    requires 1 <= page <= PageCap + 1
    ensures forall i :: 0 <= i < |Crawl(fetch, page, data).parsed| ==> Accepted(fetch, Crawl(fetch, page, data).parsed[i])
    decreases PageCap + 1 - page
  {
    var response := fetch(PageUrl(page));
    if response.Response? && response.status == StatusOk && page <= PageCap {
      var rest := Crawl(fetch, page + 1, ExtractPage(data, response.page));
      CrawlAccepted(fetch, page + 1, ExtractPage(data, response.page));
      assert Crawl(fetch, page, data).parsed == [page] + rest.parsed;
    }
  }

  /** The page the loop stopped at did not answer 200 or lies past the cap. */
  lemma {:induction false} CrawlStops(fetch: string -> Response, page: nat, data: Catalogue)
    requires 1 <= page <= PageCap + 1
    ensures !Accepted(fetch, page + |Crawl(fetch, page, data).parsed|) || page + |Crawl(fetch, page, data).parsed| > PageCap
    decreases PageCap + 1 - page
  {
    var response := fetch(PageUrl(page));
    if response.Response? && response.status == StatusOk && page <= PageCap {
      CrawlStops(fetch, page + 1, ExtractPage(data, response.page));
    }
  }

  /** The run was aborted exactly when the last request raised. */
  lemma {:induction false} CrawlAborts(fetch: string -> Response, page: nat, data: Catalogue)
    requires 1 <= page <= PageCap + 1
    ensures Crawl(fetch, page, data).outcome.Aborted? <==>
              fetch(PageUrl(page + |Crawl(fetch, page, data).parsed|)).TransportError?
    decreases PageCap + 1 - page
  {
    var response := fetch(PageUrl(page));
    if response.Response? && response.status == StatusOk && page <= PageCap {
      CrawlAborts(fetch, page + 1, ExtractPage(data, response.page));
    }
  }

  /** A completed loop returns the catalogue with the parsed pages extracted in page order. */
  lemma {:induction false} CrawlData(fetch: string -> Response, page: nat, data: Catalogue)
    requires 1 <= page <= PageCap + 1
    ensures var run := Crawl(fetch, page, data);
            run.outcome.Completed? ==> run.outcome.data == FoldPages(data, PagesIn(fetch, run.parsed))
    decreases PageCap + 1 - page
  {
    var response := fetch(PageUrl(page));
    if response.Response? && response.status == StatusOk && page <= PageCap {
      var data' := ExtractPage(data, response.page);
      CrawlData(fetch, page + 1, data');
      var run := Crawl(fetch, page, data);
      var rest := Crawl(fetch, page + 1, data');
      assert PagesIn(fetch, run.parsed)[1..] == PagesIn(fetch, rest.parsed);
    }
  }

  /**
   `SynchronousScraper.scrape_all_pages` on a fresh scraper: pages 1..k are
   parsed in order, where every page up to k answered 200 and page k + 1 did
   not or lies past the cap; at most 11 URLs are requested.
   */
  function ScrapeSequential(fetch: string -> Response): (run: Run)
    ensures |run.parsed| <= PageCap
    ensures |run.requested| == |run.parsed| + 1
    ensures forall i :: 0 <= i < |run.parsed| ==> run.parsed[i] == i + 1
    ensures forall i :: 0 <= i < |run.parsed| ==> Accepted(fetch, run.parsed[i])
    ensures |run.parsed| == PageCap || !Accepted(fetch, |run.parsed| + 1)
    ensures forall i :: 0 <= i < |run.requested| ==> run.requested[i] == PageUrl(i + 1)
    ensures run.outcome.Aborted? <==> fetch(PageUrl(|run.parsed| + 1)).TransportError?
    ensures run.outcome.Completed? ==> run.outcome.data == FoldPages(map[], PagesIn(fetch, run.parsed))
  {
    CrawlRequests(fetch, 1, map[]);
    CrawlAccepted(fetch, 1, map[]);
    CrawlStops(fetch, 1, map[]);
    CrawlAborts(fetch, 1, map[]);
    CrawlData(fetch, 1, map[]);
    Crawl(fetch, 1, map[])
  }

  // ---------------------------------------------------------------------------
  // The concurrent driver
  // ---------------------------------------------------------------------------

  /** The pages 1..10 in task-creation order: each page once, ascending. */
  function PageRange(): (ps: seq<nat>)
    ensures |ps| == PageCap
    ensures forall p :: p in ps <==> 1 <= p <= PageCap
    ensures forall i, j :: 0 <= i < j < |ps| ==> ps[i] < ps[j]
  {
    var ps := seq(PageCap, i requires 0 <= i < PageCap => i + 1);
    CountFromOne(ps);
    ps
  }

  /** A sequence that counts 1, 2, ... holds exactly the numbers 1..its length. */
  lemma CountFromOne(ps: seq<nat>)
    requires forall i :: 0 <= i < |ps| ==> ps[i] == i + 1
    ensures forall p :: p in ps <==> 1 <= p <= |ps|
  {
    forall p | 1 <= p <= |ps|
      ensures p in ps
    {
      assert ps[p - 1] == p;
    }
  }

  /** An order in which the ten page tasks can complete: every page 1..10, each once. */
  predicate IsCompletionOrder(order: seq<nat>) {
    && |order| == PageCap
    && (forall i :: 0 <= i < |order| ==> 1 <= order[i] <= PageCap)
    && (forall p :: 1 <= p <= PageCap ==> p in order)
  }

  /**
   The tasks, taken in completion order: each fetched body is parsed whatever
   its status and written into the shared catalogue; the first transport
   exception escapes `gather` and the run returns nothing.
   */
  function Gather(fetch: string -> Response, order: seq<nat>, data: Catalogue): (run: Run)
    ensures run.requested == []
    ensures |run.parsed| <= |order| && run.parsed == order[..|run.parsed|]
    ensures run.outcome.Aborted? <==> |run.parsed| < |order|
    decreases |order|
  {
    if |order| == 0 then Run([], [], Completed(data))
    else
      var response := fetch(PageUrl(order[0]));
      if response.TransportError? then Run([], [], Aborted)
      else
        var rest := Gather(fetch, order[1..], ExtractPage(data, response.page));
        Run([], [order[0]] + rest.parsed, rest.outcome)
  }

  /** Every task that finished got a response; the task the run died at raised. */
  lemma {:induction false} GatherResponses(fetch: string -> Response, order: seq<nat>, data: Catalogue)
    ensures forall i :: 0 <= i < |Gather(fetch, order, data).parsed| ==> fetch(PageUrl(order[i])).Response?
    ensures Gather(fetch, order, data).outcome.Aborted? ==>
              fetch(PageUrl(order[|Gather(fetch, order, data).parsed|])).TransportError?
    decreases |order|
  {
    if |order| > 0 && fetch(PageUrl(order[0])).Response? {
      var data' := ExtractPage(data, fetch(PageUrl(order[0])).page);
      GatherResponses(fetch, order[1..], data');
      var rest := Gather(fetch, order[1..], data');
      forall i | 1 <= i < |Gather(fetch, order, data).parsed|
        ensures fetch(PageUrl(order[i])).Response?
      {
        assert order[i] == order[1..][i - 1];
      }
    }
  }

  /** A completed gather holds the pages extracted in completion order. */
  lemma {:induction false} GatherData(fetch: string -> Response, order: seq<nat>, data: Catalogue)
    ensures Gather(fetch, order, data).outcome.Completed? ==>
              Gather(fetch, order, data).outcome.data == FoldPages(data, PagesIn(fetch, order))
    decreases |order|
  {
    if |order| > 0 && fetch(PageUrl(order[0])).Response? {
      var data' := ExtractPage(data, fetch(PageUrl(order[0])).page);
      GatherData(fetch, order[1..], data');
      assert PagesIn(fetch, order)[1..] == PagesIn(fetch, order[1..]);
    }
  }

  /**
   `AsynchronousScraper.scrape_all_pages`: all ten page URLs are requested,
   whatever happens to any of them; the run completes exactly when no
   transport fails, with the pages merged in completion order.
   */
  function ScrapeConcurrent(fetch: string -> Response, order: seq<nat>): (run: Run)
    requires IsCompletionOrder(order)
    ensures |run.requested| == PageCap
    ensures forall i :: 0 <= i < PageCap ==> run.requested[i] == PageUrl(i + 1)
    ensures forall i, j :: 0 <= i < j < PageCap ==> run.requested[i] != run.requested[j]
    ensures run.outcome.Completed? <==> forall p :: 1 <= p <= PageCap ==> fetch(PageUrl(p)).Response?
    ensures run.outcome.Completed? ==> run.parsed == order && run.outcome.data == FoldPages(map[], PagesIn(fetch, order))
  {
    var g := Gather(fetch, order, map[]);
    var pages := PageRange();
    var urls := seq(PageCap, i requires 0 <= i < PageCap => PageUrl(pages[i]));
    TaskUrlsDistinct(urls);
    GatherCompletesIff(fetch, order);
    GatherData(fetch, order, map[]);
    Run(urls, g.parsed, g.outcome)
  }

  lemma TaskUrlsDistinct(urls: seq<string>)
    requires |urls| == PageCap && forall i :: 0 <= i < PageCap ==> urls[i] == PageUrl(i + 1)
    ensures forall i, j :: 0 <= i < j < PageCap ==> urls[i] != urls[j]
  {
    forall i, j | 0 <= i < j < PageCap
      ensures urls[i] != urls[j]
    {
      PageUrlInjective(i + 1, j + 1);
    }
  }

  /** Over a completion order, the tasks complete exactly when no page's transport fails. */
  lemma GatherCompletesIff(fetch: string -> Response, order: seq<nat>)
    requires IsCompletionOrder(order)
    ensures Gather(fetch, order, map[]).outcome.Completed? <==> forall p :: 1 <= p <= PageCap ==> fetch(PageUrl(p)).Response?
  {
    var g := Gather(fetch, order, map[]);
    GatherResponses(fetch, order, map[]);
    if g.outcome.Aborted? {
      assert order[|g.parsed|] in order;
    } else {
      forall p | 1 <= p <= PageCap
        ensures fetch(PageUrl(p)).Response?
      {
        assert p in order;
        var i :| 0 <= i < |order| && order[i] == p;
        assert g.parsed[i] == p;
      }
    }
  }

  /** Every name some page 1..10 yields. */
  function AllNames(fetch: string -> Response): set<string> {
    set p: nat, m: string | 1 <= p <= PageCap && m in PageNames(PageOf(fetch, p)) :: m
  }

  /** The concurrent result has the same key set for every completion order: the names of all ten pages. */
  lemma ConcurrentKeys(fetch: string -> Response, order: seq<nat>)
    requires IsCompletionOrder(order)
    requires ScrapeConcurrent(fetch, order).outcome.Completed?
    ensures ScrapeConcurrent(fetch, order).outcome.data.Keys == AllNames(fetch)
  {
    var pages := PagesIn(fetch, order);
    FoldPagesKeys(map[], pages);
    forall m | m in AllNames(fetch)
      ensures exists j :: 0 <= j < |pages| && m in PageNames(pages[j])
    {
      var p :| 1 <= p <= PageCap && m in PageNames(PageOf(fetch, p));
      assert p in order;
      var j :| 0 <= j < |order| && order[j] == p;
      assert m in PageNames(pages[j]);
    }
  }

  /** Extracting pages 1..k in order yields exactly the names of those pages. */
  lemma FoldFirstPagesKeys(fetch: string -> Response, ps: seq<nat>, m: string)
    requires forall i :: 0 <= i < |ps| ==> ps[i] == i + 1
    ensures m in FoldPages(map[], PagesIn(fetch, ps)) <==>
              exists p :: 1 <= p <= |ps| && m in PageNames(PageOf(fetch, p))
  {
    var pages := PagesIn(fetch, ps);
    FoldPagesKeys(map[], pages);
    if m in FoldPages(map[], pages) {
      var j :| 0 <= j < |pages| && m in PageNames(pages[j]);
      assert m in PageNames(PageOf(fetch, j + 1));
    }
    if exists p :: 1 <= p <= |ps| && m in PageNames(PageOf(fetch, p)) {
      var p :| 1 <= p <= |ps| && m in PageNames(PageOf(fetch, p));
      assert m in PageNames(pages[p - 1]);
    }
  }

  /** A completed sequential run holds exactly the names of the pages it parsed, pages 1..k. */
  lemma SequentialKeys(fetch: string -> Response, m: string)
    requires ScrapeSequential(fetch).outcome.Completed?
    ensures m in ScrapeSequential(fetch).outcome.data <==>
              exists p :: 1 <= p <= |ScrapeSequential(fetch).parsed| && m in PageNames(PageOf(fetch, p))
  {
    FoldFirstPagesKeys(fetch, ScrapeSequential(fetch).parsed, m);
  }

  /** A name found on one page only gets that page's price, whatever the completion order. */
  lemma ConcurrentSinglePageName(fetch: string -> Response, order: seq<nat>, p: nat, m: string)
    requires IsCompletionOrder(order)
    requires ScrapeConcurrent(fetch, order).outcome.Completed?
    requires 1 <= p <= PageCap && m in PageNames(PageOf(fetch, p))
    requires forall q :: 1 <= q <= PageCap && q != p ==> m !in PageNames(PageOf(fetch, q))
    ensures m in ScrapeConcurrent(fetch, order).outcome.data
    ensures m in PageCatalogue(PageOf(fetch, p))
    ensures ScrapeConcurrent(fetch, order).outcome.data[m] == PageCatalogue(PageOf(fetch, p))[m]
  {
    var pages := PagesIn(fetch, order);
    assert p in order;
    var j :| 0 <= j < |order| && order[j] == p;
    var l := LastPageWith(pages, m, j);
    assert order[l] == p;
    FoldPagesLastPageWins(map[], pages, l, m);
  }

  /** The index of the last page at or after `j` that yields `m`. */
  function LastPageWith(pages: seq<Page>, m: string, j: int): (l: int)
    requires 0 <= j < |pages| && m in PageNames(pages[j])
    ensures j <= l < |pages| && m in PageNames(pages[l])
    ensures forall i :: l < i < |pages| ==> m !in PageNames(pages[i])
    decreases |pages| - j
  {
    if exists i :: j < i < |pages| && m in PageNames(pages[i]) then
      var i :| j < i < |pages| && m in PageNames(pages[i]);
      LastPageWith(pages, m, i)
    else j
  }

  /** Every price in the concurrent result is the one some page gives that name: one of the candidates, never a blend. */
  lemma ConcurrentPriceFromSomePage(fetch: string -> Response, order: seq<nat>, m: string)
    requires IsCompletionOrder(order)
    requires ScrapeConcurrent(fetch, order).outcome.Completed?
    requires m in ScrapeConcurrent(fetch, order).outcome.data
    ensures exists p :: 1 <= p <= PageCap && m in PageCatalogue(PageOf(fetch, p)) &&
                        ScrapeConcurrent(fetch, order).outcome.data[m] == PageCatalogue(PageOf(fetch, p))[m]
  {
    var pages := PagesIn(fetch, order);
    FoldPagesKeys(map[], pages);
    var j :| 0 <= j < |pages| && m in PageNames(pages[j]);
    var l := LastPageWith(pages, m, j);
    FoldPagesLastPageWins(map[], pages, l, m);
    assert m in PageNames(PageOf(fetch, order[l]));
  }

  /** Pages 1..10 in ascending order are one of the orders in which the tasks can complete. */
  lemma PageRangeIsCompletionOrder()
    ensures IsCompletionOrder(PageRange())
  {
  }

  /** With pages 1..10 answering 200 and page 11 answering at all, the sequential driver parses all ten in order. */
  lemma SequentialParsesAllPages(fetch: string -> Response)
    requires forall p :: 1 <= p <= PageCap ==> Accepted(fetch, p)
    requires fetch(PageUrl(PageCap + 1)).Response?
    ensures ScrapeSequential(fetch).parsed == PageRange()
    ensures |ScrapeSequential(fetch).requested| == PageCap + 1
    ensures ScrapeSequential(fetch).requested[PageCap] == PageUrl(PageCap + 1)
    ensures ScrapeSequential(fetch).outcome == Completed(FoldPages(map[], PagesIn(fetch, PageRange())))
  {
    var sr := ScrapeSequential(fetch);
    var next: nat := |sr.parsed| + 1;
    assert next <= PageCap ==> Accepted(fetch, next);
    assert sr.parsed == PageRange();
  }

  /** When no transport fails, the concurrent run completes with the pages extracted in completion order. */
  lemma ConcurrentCompletes(fetch: string -> Response, order: seq<nat>)
    requires IsCompletionOrder(order)
    requires forall p :: 1 <= p <= PageCap ==> fetch(PageUrl(p)).Response?
    ensures ScrapeConcurrent(fetch, order).outcome == Completed(FoldPages(map[], PagesIn(fetch, order)))
  {
  }

  /**
   When pages 1..10 all answer 200 and page 11 answers at all, the sequential
   driver and the concurrent one completing in page order return the same catalogue.
   */
  lemma StrategiesAgreeInPageOrder(fetch: string -> Response)
    requires forall p :: 1 <= p <= PageCap ==> Accepted(fetch, p)
    requires fetch(PageUrl(PageCap + 1)).Response?
    ensures IsCompletionOrder(PageRange())
    ensures ScrapeSequential(fetch).outcome == ScrapeConcurrent(fetch, PageRange()).outcome
  {
    PageRangeIsCompletionOrder();
    SequentialParsesAllPages(fetch);
    forall p | 1 <= p <= PageCap
      ensures fetch(PageUrl(p)).Response?
    {
      assert Accepted(fetch, p);
    }
    ConcurrentCompletes(fetch, PageRange());
  }

}
