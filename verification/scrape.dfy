/** Fetching a company's two pages and the consolidated-then-standalone fallback
    (Apps.py, `scrape_screener`, `scrape_fy`, `scrape_screener_tables` and their
    `_from_url` helpers). */
module Scrape {
  import opened Wrappers
  import opened Text
  import opened Dict
  import opened Page
  import Ratios
  import YearTable
  import Growth

  /** The two views of a company the site offers. */
  datatype View = Consolidated | Standalone

  const SiteCompanyPrefix: String := "https://www.screener.in/company/"

  /** The URL of a company's page in a view. */
  function Url(symbol: String, view: View): (url: String)
    ensures |url| > |SiteCompanyPrefix| + |symbol|
    ensures url[..|SiteCompanyPrefix|] == SiteCompanyPrefix
    ensures url[|SiteCompanyPrefix|..|SiteCompanyPrefix| + |symbol|] == symbol
    ensures view == Consolidated ==> url[|SiteCompanyPrefix| + |symbol|..] == "/consolidated/"
    ensures view == Standalone ==> url[|SiteCompanyPrefix| + |symbol|..] == "/"
  {
    SiteCompanyPrefix + symbol + (if view == Consolidated then "/consolidated/" else "/")
  }

  /** The two views of one company never share a URL. */
  lemma ViewsHaveDistinctUrls(symbol: String)
    ensures Url(symbol, Consolidated) != Url(symbol, Standalone)
  {
    assert |Url(symbol, Consolidated)| != |Url(symbol, Standalone)|;
  }

  /** What one scraper ended with, and the views it fetched, in order. */
  datatype Run<T> = Run(outcome: Result<T>, fetched: seq<View>)

  /** The fallback the three scrapers share: scrape the consolidated page; when that returns a
      value `retry` rejects, scrape the standalone page and return its outcome instead,
      whatever it is. An exception from the first attempt is not caught. */
  function Fallback<T>(symbol: String, web: Web, scrape: Response -> Result<T>, retry: T -> bool): (run: Run<T>)
    ensures 1 <= |run.fetched| <= 2 && run.fetched[0] == Consolidated
    ensures var first := scrape(web(Url(symbol, Consolidated)));
      |run.fetched| == 2 <==> first.Ok? && retry(first.value)
    ensures |run.fetched| == 1 ==> run.outcome == scrape(web(Url(symbol, Consolidated)))
    ensures |run.fetched| == 2 ==>
      run.fetched[1] == Standalone && run.outcome == scrape(web(Url(symbol, Standalone)))
  {
    var first := scrape(web(Url(symbol, Consolidated)));
    if first.Ok? && retry(first.value) then
      Run(scrape(web(Url(symbol, Standalone))), [Consolidated, Standalone])
    else
      Run(first, [Consolidated])
  }

  // ---------------------------------------------------------------------------------------
  // Current P/E and ROCE

  /** `scrape_data_from_url` (lines 19-66): a non-200 response gives (None, None); otherwise
      the Stock P/E scan, then the ROCE cell. */
  function ScrapeDataFromUrl(response: Response, parse: Parser): (r: Result<(Option<real>, Option<real>)>)
    ensures response.status != 200 ==> r == Ok((None, None))
    ensures response.status == 200 ==>
      (r.Ok? <==> Ratios.ScanStockPe(response.page.ratioItems, parse).Ok?
                  && YearTable.ReadRoce(response.page.ratiosTable, parse).Ok?)
    ensures response.status == 200 && r.Ok? ==>
      && r.value.0 == Ratios.ScanStockPe(response.page.ratioItems, parse).value
      && r.value.1 == YearTable.ReadRoce(response.page.ratiosTable, parse).value
  {
    if response.status != 200 then
      Ok((None, None))
    else
      match Ratios.ScanStockPe(response.page.ratioItems, parse)
      case Raised(e) => Raised(e)
      case Ok(pe) =>
        match YearTable.ReadRoce(response.page.ratiosTable, parse)
        case Raised(e) => Raised(e)
        case Ok(roce) => Ok((pe, roce))
  }

  /** The current P/E and ROCE pair is retried when either half is missing. */
  predicate PairIncomplete(pair: (Option<real>, Option<real>)) {
    pair.0.None? || pair.1.None?
  }

  /** `scrape_screener` (lines 6-17): the standalone page is fetched exactly when the
      consolidated page yields a pair with a missing half, and its pair then replaces both
      halves, even when it is worse. */
  function ScrapeScreener(symbol: String, web: Web, parse: Parser): (run: Run<(Option<real>, Option<real>)>)
    ensures var first := ScrapeDataFromUrl(web(Url(symbol, Consolidated)), parse);
      var again := first.Ok? && (first.value.0.None? || first.value.1.None?);
      && run.fetched == (if again then [Consolidated, Standalone] else [Consolidated])
      && run.outcome == (if again then ScrapeDataFromUrl(web(Url(symbol, Standalone)), parse) else first)
  {
    Fallback(symbol, web, (response: Response) => ScrapeDataFromUrl(response, parse), PairIncomplete)
  }

  // ---------------------------------------------------------------------------------------
  // FY P/E

  /** `scrape_fy_from_url` (lines 92-123): None for a non-200 response, else the FY P/E of
      the page. */
  function ScrapeFyFromUrl(response: Response, parse: Parser): (r: Result<Option<real>>)
    ensures response.status != 200 ==> r == Ok(None)
    ensures response.status == 200 ==> r == YearTable.ReadFyPe(response.page, parse)
  {
    if response.status != 200 then Ok(None) else YearTable.ReadFyPe(response.page, parse)
  }

  /** `scrape_fy` (lines 79-90): the standalone page is fetched only when the consolidated
      page yields None. */
  function ScrapeFy(symbol: String, web: Web, parse: Parser): (run: Run<Option<real>>)
    ensures var first := ScrapeFyFromUrl(web(Url(symbol, Consolidated)), parse);
      var again := first == Ok(None);
      && run.fetched == (if again then [Consolidated, Standalone] else [Consolidated])
      && run.outcome == (if again then ScrapeFyFromUrl(web(Url(symbol, Standalone)), parse) else first)
  {
    Fallback(symbol, web, (response: Response) => ScrapeFyFromUrl(response, parse), (pe: Option<real>) => pe.None?)
  }

  // ---------------------------------------------------------------------------------------
  // Growth tables

  /** `scrape_screener_tables_from_url` (lines 148-164): (None, None) for a non-200
      response, else the two growth maps of the page. */
  function ScrapeTablesFromUrl(response: Response, parse: Parser): (r: Result<(Option<Dict<real>>, Option<Dict<real>>)>)
    ensures response.status != 200 ==> r == Ok((None, None))
    ensures response.status == 200 ==>
      (r.Ok? <==> Growth.TablesReadable(response.page.rangesTables, parse))
    ensures response.status == 200 && r.Ok? ==>
      var maps := Growth.ReadGrowthTables(response.page.rangesTables, parse).value;
      r.value == (Some(maps.0), Some(maps.1))
  {
    if response.status != 200 then
      Ok((None, None))
    else
      match Growth.ReadGrowthTables(response.page.rangesTables, parse)
      case Raised(e) => Raised(e)
      case Ok(maps) => Ok((Some(maps.0), Some(maps.1)))
  }

  /** Python's `not d` for a dict that may be None. */
  predicate Falsy(d: Option<Dict<real>>) {
    d.None? || |d.value| == 0
  }

  predicate EitherFalsy(maps: (Option<Dict<real>>, Option<Dict<real>>)) {
    Falsy(maps.0) || Falsy(maps.1)
  }

  /** `scrape_screener_tables` (lines 135-146): the standalone page is fetched when either
      map from the consolidated page is None or empty, and its pair is returned unchanged. */
  function ScrapeScreenerTables(symbol: String, web: Web, parse: Parser): (run: Run<(Option<Dict<real>>, Option<Dict<real>>)>)
    ensures var first := ScrapeTablesFromUrl(web(Url(symbol, Consolidated)), parse);
      var again := first.Ok? && (Falsy(first.value.0) || Falsy(first.value.1));
      && run.fetched == (if again then [Consolidated, Standalone] else [Consolidated])
      && run.outcome == (if again then ScrapeTablesFromUrl(web(Url(symbol, Standalone)), parse) else first)
  {
    Fallback(symbol, web, (response: Response) => ScrapeTablesFromUrl(response, parse), EitherFalsy)
  }

  // ---------------------------------------------------------------------------------------
  // What the fallback keeps

  /** The retry replaces the consolidated pair wholesale: a consolidated page that yields
      only one of the two figures, followed by a standalone page that answers with an error
      status, ends with neither figure. */
  lemma RetryDiscardsFoundHalf(symbol: String, web: Web, parse: Parser)
    requires ScrapeDataFromUrl(web(Url(symbol, Consolidated)), parse).Ok?
    requires PairIncomplete(ScrapeDataFromUrl(web(Url(symbol, Consolidated)), parse).value)
    requires web(Url(symbol, Standalone)).status != 200
    ensures ScrapeScreener(symbol, web, parse).outcome == Ok((None, None))
    ensures ScrapeScreener(symbol, web, parse).fetched == [Consolidated, Standalone]
  {
  }

  /** The same for the growth tables: a filled sales map is dropped when the profit map of
      the consolidated page is empty and the standalone page fails. */
  lemma TablesRetryDiscardsFoundMap(symbol: String, web: Web, parse: Parser)
    requires ScrapeTablesFromUrl(web(Url(symbol, Consolidated)), parse).Ok?
    requires EitherFalsy(ScrapeTablesFromUrl(web(Url(symbol, Consolidated)), parse).value)
    requires web(Url(symbol, Standalone)).status != 200
    ensures ScrapeScreenerTables(symbol, web, parse).outcome == Ok((None, None))
  {
  }
}
