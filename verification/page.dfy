/** The parts of a company page the scraper reads, with the HTML tree walked away: each field
    holds the text BeautifulSoup's `.text` would return for the element the code looks up. */
module Page {
  import opened Wrappers
  import opened Text

  /** One row of a table: the text of its `th`/`td` cells, in order. */
  type Row = seq<String>

  /** A table: its `tr` rows, in document order. */
  type Table = seq<Row>

  /** An `li` of a `company-ratios` list: the text of its `name` span and of its
      `nowrap value` span, each absent when the span is missing. */
  datatype RatioItem = RatioItem(name: Option<String>, value: Option<String>)

  /** A `ranges-table`: the text of its first `th` (absent when it has none) and the
      `td` texts of each of its `tr` rows, the first row included. */
  datatype RangesTable = RangesTable(header: Option<String>, rows: Table)

  /** A parsed company page.
      - ratioItems: the items of every `company-ratios` list, lists in document order;
      - ratiosTable: the first table of the section with id "ratios", absent when the
        section or its table is missing;
      - marketCap: the text of the first `number` span, absent when there is none;
      - profitLossTable: the first table of the section with id "profit-loss", as above;
      - rangesTables: every `ranges-table`, in document order. */
  datatype Page = Page(
    ratioItems: seq<RatioItem>,
    ratiosTable: Option<Table>,
    marketCap: Option<String>,
    profitLossTable: Option<Table>,
    rangesTables: seq<RangesTable>)

  /** An HTTP response: its status code and the page its body parses to. */
  datatype Response = Response(status: int, page: Page)

  /** Python's `float(text)`: the number the text denotes, or None where `float` raises
      ValueError. The scraper's results are stated for every such parser. */
  type Parser = String -> Option<real>

  /** The web as the scraper sees it: the response to a GET of each URL. */
  type Web = String -> Response
}
