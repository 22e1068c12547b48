# Stock screener core in Dafny

This project models the logic of `Apps.py`, a Streamlit dashboard that scrapes a company's
page on screener.in and values it as a consistent compounder. The model keeps these parts:

- **The fallback rule.** The three scrapers each try the consolidated page first. The
  standalone page is tried under a condition that depends on the scraper, and its result then
  replaces the first one wholesale.
- **The ratio-list scan.** It looks for the "Stock P/E" entry.
- **The year-indexed cell reads.** "ROCE %" is read in the year column of "2019" of the
  ratios table. "Net Profit" is read in the year column of "2022" of the profit-and-loss
  table, and divided into the market capitalisation.
- **The compounded-growth tables.** Each becomes a period-to-percentage map.
- **`calculate_intrinsic_pe`.** It is a discounted sum over a growth schedule, followed by
  a division.
- **The overvaluation branch of `main`.**

Modules follow the program's structure:

| file | module | what it holds |
|---|---|---|
| seqs.dfy | `Seqs` | the last set flag of a sequence of flags, used to find a last matching row |
| wrappers.dfy | `Wrappers` | `Option`, and `Result`, whose `Raised` case names the Python exception a path ends in |
| text.dfy | `Text` | `str.strip` (the full Unicode whitespace set), `str.replace(c, "")`, the substring test `in` |
| dict.dfy | `Dict` | a Python dict as an association list: assignment overwrites in place, new keys go at the end |
| page.dfy | `Page` | the parts of a parsed page the code reads, and a response as status plus page |
| ratios.dfy | `Ratios` | the Stock P/E scan |
| yeartable.dfy | `YearTable` | the year column, the ROCE cell, and the Net Profit cell with the FY P/E division |
| growth.dfy | `Growth` | the growth-table comprehension and the scan over all growth tables |
| scrape.dfy | `Scrape` | the three `*_from_url` readers, the shared fallback, and the three scrapers |
| valuation.dfy | `Valuation` | the growth schedule, the intrinsic P/E, the degree of overvaluation, and the corrected fade |
| dashboard.dfy | `Dashboard` | the slider ranges and the valuation steps of `main` |

Several inputs become parameters:

- **`float()`** is a parameter `parse: String -> Option<real>`. `None` stands for the
  `ValueError` it raises. Every property holds for every parser.
- **The web** is a parameter `web: String -> Response`.
- **Every path that raises in Python** ends in an explicit `Raised(...)` outcome and is not
  excluded by a precondition. These paths are:
  - a missing span or `th`;
  - `rows[0]` of an empty table;
  - a ROCE row too short for the year column;
  - an unbound `net_profit_data`;
  - a second cell that is missing;
  - a division by zero;
  - text `float()` refuses.

Where the program's written description and its code disagree, the model follows the code:

- The year column's index counts the label column (lines 49-51).
- The readers can raise instead of answering "absent".
- The standalone result replaces the first one even when it is worse (lines 14-15).
- The fade schedule runs the wrong way (see Findings).

## Model

| member | source | states |
|---|---|---|
| Text.Strip | Apps.py:35-36 | the result is a slice of the input with only whitespace cut from both ends and no whitespace at its own ends |
| Text.StripUnique | Apps.py:35-36 | that characterisation of `strip` admits one string only, so it defines `Strip` independently |
| Text.StripIdempotent | Apps.py:35-36 | stripping twice is stripping once |
| Text.RemoveAll | Apps.py:59 | `replace(c, "")` leaves no `c` and is the identity when `c` is absent |
| Text.RemoveAllKeepsOthers | Apps.py:59 | `replace(c, "")` keeps every other character with its multiplicity |
| Text.RemoveAllConcat | Apps.py:59 | removal distributes over concatenation |
| Text.Contains | Apps.py:50 | the substring test holds exactly when the needle occurs at some offset |
| Dict.Get | Apps.py:158 | lookup returns a value stored under the key, and None exactly when no entry has the key |
| Dict.Put | Apps.py:158 | after an assignment the key maps to the new value and every other key keeps its lookup |
| Dict.PutKeepsOrder | Apps.py:158 | assignment keeps the key order and appends a new key at the end, as a Python dict does |
| Dict.PutKeepsKeysUnique | Apps.py:158 | assignment never creates a duplicate key |
| Ratios.ScanStockPeFrom | Apps.py:28-38 | the loop raises exactly when some item lacks a name span, or is a Stock P/E item without a value span or with text `float` refuses |
| Ratios.ScanFindsLastStockPe | Apps.py:28-38 | the loop ends with the parsed value of the last item labelled exactly "Stock P/E" with non-blank text, or keeps the starting value when there is none |
| Ratios.ScanStockPe | Apps.py:25-38 | current P/E is None exactly when no item qualifies, and otherwise the parsed value of the last qualifying item; a blank value never overwrites |
| YearTable.YearColumn | Apps.py:47-52 | the index, counting the label column, of the first header containing the year, and None exactly when no header does |
| YearTable.FirstVerdict | Apps.py:55-62 | the row loop with `break` ends with the verdict of the first row it does not pass over, and with None exactly when it passes over all |
| YearTable.FirstDecisiveExists | Apps.py:55-62 | when some row is not passed over, a first such row exists |
| YearTable.RoceLoop | Apps.py:55-62 | the ROCE row loop ends with the cell of the first filled "ROCE %" row; it raises only with ShortRow, exactly when a ROCE row too short for the year column comes before any filled one; it runs out exactly when every ROCE row is blank in the year column |
| YearTable.ReadRoce | Apps.py:41-62 | no table gives None; an empty table raises; no "2019" header gives None; otherwise the first filled "ROCE %" row gives its parsed value, or NotANumber when `float` refuses it; ShortRow exactly when a too-short ROCE row comes first; None exactly when every ROCE row is blank; and every value returned comes from that first filled row |
| YearTable.DivideTexts | Apps.py:120 | the quotient is defined exactly when both texts parse and the profit is non-zero, and a zero profit raises ZeroDivisionError |
| YearTable.NetProfitText | Apps.py:112-117 | the stripped year cell of the first row whose label contains "Net Profit" and that reaches the year column, and None exactly when no row is accepted |
| YearTable.FyFromTexts | Apps.py:119-121 | a blank market cap gives None; a non-blank one with an unbound profit raises UnboundLocalError; a blank profit gives None; otherwise NotANumber exactly when either text, without ',', does not parse, ZeroDivision on a zero profit, and the quotient when both parse |
| YearTable.FyFromTable | Apps.py:104-121 | UnboundLocalError exactly when the market cap is non-blank and no row is accepted; with a non-blank market cap the first accepted row decides: a blank profit gives None, unparseable texts NotANumber, a zero profit ZeroDivision, and otherwise market cap over net profit with every ',' removed; any value returned is that quotient |
| YearTable.ReadFyPe | Apps.py:96-123 | a missing market-cap span raises; no table gives None; an empty table raises; otherwise the table's FY P/E |
| Growth.CollectGrowth | Apps.py:158 | the comprehension raises exactly when a data row has fewer than two cells or a non-blank value `float` refuses |
| Growth.CollectGrowthLastWins | Apps.py:158 | each period gets the value of the last row that fills it, a period no row fills keeps its earlier value, and keys stay unique |
| Growth.LastEntryExists | Apps.py:158 | a period some row fills has a last such row |
| Growth.GrowthMap | Apps.py:158 | the comprehension over the rows after the header raises exactly when a data row is unreadable |
| Growth.GrowthMapHoldsLastEntries | Apps.py:158 | the map holds a period exactly when some data row has a non-blank value for it, holds the last such value, and never repeats a key |
| Growth.ScanRangesTables | Apps.py:154-160 | the table loop raises exactly when some table lacks a `th` or has an unreadable sales or profit table |
| Growth.NoTableKeepsSlot | Apps.py:155-160 | tables of other kinds leave a kind's map as it was |
| Growth.LastTableFillsSlot | Apps.py:155-160 | the last table of a kind fills that kind's map, whatever the tables before it held |
| Growth.LastTableWins | Apps.py:155-160 | each kind's map comes from the last table of that kind, and a kind no table has keeps its starting map |
| Growth.ReadGrowthTables | Apps.py:152-162 | sales and profit maps each come from the last table whose header contains the heading, with "Sales" checked first, and are empty when there is none |
| Scrape.Url | Apps.py:7-8 | both addresses start with the company prefix and the symbol; the consolidated one ends in "/consolidated/" |
| Scrape.ViewsHaveDistinctUrls | Apps.py:7-8 | the two views have different addresses |
| Scrape.Fallback | Apps.py:6-17 | the consolidated page is fetched first and at most the standalone page after it; the standalone page is fetched exactly when the first outcome is a value the scraper rejects; the outcome is the first one when only one page is fetched, and the standalone one otherwise |
| Scrape.ScrapeDataFromUrl | Apps.py:19-66 | a non-200 response gives (None, None); otherwise the Stock P/E scan and the ROCE read, raising when either does |
| Scrape.ScrapeScreener | Apps.py:6-17 | the standalone pair is fetched exactly when the consolidated pair lacks either half, and replaces both halves |
| Scrape.RetryDiscardsFoundHalf | Apps.py:14-15 | a half found on the consolidated page is lost when the standalone page answers non-200 |
| Scrape.ScrapeFyFromUrl | Apps.py:92-94 | a non-200 response gives None, otherwise the page's FY P/E |
| Scrape.ScrapeFy | Apps.py:79-90 | the standalone page is fetched exactly when the consolidated FY P/E is None |
| Scrape.ScrapeTablesFromUrl | Apps.py:148-164 | a non-200 response gives (None, None); otherwise both maps, present, raising exactly when the tables are unreadable |
| Scrape.ScrapeScreenerTables | Apps.py:135-146 | the standalone pair is fetched exactly when either consolidated map is None or empty, and is returned unchanged |
| Scrape.TablesRetryDiscardsFoundMap | Apps.py:143-144 | a filled map from the consolidated page is lost when the standalone page answers non-200 |
| Valuation.GrowthRate | Apps.py:190-194 | the high-growth rate before year hgp, the terminal rate at hgp, then a move back toward the high-growth rate by (i-hgp)/fade of the gap |
| Valuation.Schedule | Apps.py:189-194 | the loop runs hgp + fade years, with the rates just stated |
| Valuation.FadeClimbsBack | Apps.py:193-194 | with a terminal rate below the high-growth rate, the code's fade rates strictly rise year on year |
| Valuation.DiscountSumPositive | Apps.py:195 | with coc above -1 and every rate above -1, the discounted sum is positive |
| Valuation.DiscountSumMonotone | Apps.py:195 | raising any year's rate never lowers the discounted sum |
| Valuation.IntrinsicFromRates | Apps.py:188-197 | ZeroDivisionError exactly when RoCE equals coc, or coc is -1 and the loop runs; otherwise the result times (RoCE - coc) is the discounted sum |
| Valuation.CalculateIntrinsicPe | Apps.py:187-197 | with the code's schedule: ZeroDivisionError exactly when RoCE equals coc, or coc is -1 and the loop runs; 0.0 when `range(hgp + fade)` is empty; otherwise the result times (RoCE - coc) is the discounted sum |
| Valuation.IntrinsicPeSign | Apps.py:195-196 | with a positive coc and rates above -1, the intrinsic P/E is defined when RoCE differs from coc, and it is positive exactly when RoCE is the higher |
| Valuation.IntendedGrowthRate | Apps.py:193-194 | the fade year k (from 1) is k/fade of the way from the high-growth rate to the terminal rate |
| Valuation.IntendedScheduleFades | Apps.py:193-194 | the intended rates never rise, stay between the two rates, and end on the terminal rate |
| Valuation.CodeFadeIsReversed | Apps.py:193-194 | the code's fade is the intended fade in reverse order |
| Valuation.IntendedIntrinsicPe | Apps.py:187-197 | the intrinsic P/E with the intended schedule, with the same error cases and the same 0.0 for an empty loop |
| Valuation.FadeRunsBackwards | Apps.py:193-196 | with hgp 2, fade 2, 15% and 5%: the code's rates are [.15, .15, .05, .10], the intended ones [.15, .15, .10, .05], and the two P/Es are 47065/1331 and 518215/14641 |
| Valuation.Min | Apps.py:241-244 | the smaller of the two multiples |
| Valuation.Overvaluation | Apps.py:240-244 | no degree unless both multiples are truthy; a zero intrinsic P/E raises; otherwise degree + 1 is the smaller multiple over the intrinsic P/E |
| Valuation.OvervaluationSymmetric | Apps.py:241-244 | swapping the two multiples changes nothing |
| Valuation.OvervaluedIffBothAbove | Apps.py:240-244 | against a positive intrinsic P/E the degree is positive exactly when both multiples exceed it |
| Dashboard.Combine | Apps.py:231-244 | an intrinsic-P/E exception ends `main` before any fetch; a scrape exception ends it after the pages fetched so far; a report holds the intrinsic P/E and the degree of the two multiples scraped |
| Dashboard.Main | Apps.py:231-236 | with a failing intrinsic P/E, no page is requested |
| Dashboard.SlidersIntrinsic | Apps.py:204-218 | on the slider positions the intrinsic P/E raises exactly at coc 10 and RoCE 10, and is otherwise non-zero and positive exactly when RoCE exceeds coc |
| Dashboard.InitialIntrinsicPositive | Apps.py:213-218 | the opening position, every slider at its minimum, is on the sliders and gives a defined, positive intrinsic P/E |
| Dashboard.SlidersReachZeroDivision | Apps.py:196 | a reachable slider setting makes `main` raise ZeroDivisionError before fetching anything |
| Dashboard.SlidersDegreeDefined | Apps.py:240-244 | on the sliders, once both scrapes return, a degree is reported exactly when both multiples are truthy |

## Left out

- HTTP transport (`requests.get`) is the parameter `web`. Only the status code and the
  parsed page matter.
- BeautifulSoup's tree search and CSS selectors are replaced by the `Page` record. It
  flattens the ratio items of every `company-ratios` block into one list. A missing
  section and a section without a table both become an absent table, and the code treats
  them alike.
- `float()` is the parameter `parse`. Python floats are modelled as exact reals, with no
  rounding, infinities or NaN. The model therefore does not capture that a NaN value is
  truthy at line 240.
- Streamlit and pandas (lines 68-75, 125-129, 167-183, 200-228, 245-248) are display code:
  titles, `st.write`, the data frames, and the slider widgets beyond their value ranges.
- The module-level calls (lines 69-71, 125, 167) fetch the pages again outside `main`.
  They are not modelled as a sequence. `Dashboard.Combine` keeps only the fetches made by
  `main` itself.
- `main` passes the slider values as whole percentages (8 for 8%) into a formula written
  for fractions (`1 + growth_rate`). The model keeps those units as they are.
- Dashboard.Main: its contract covers only the intrinsic-P/E failure. The rest of its
  behaviour is stated by `Dashboard.Combine`, which it applies to the scrapes.

## Findings

| source | as written | input that shows it | evidently intended | confidence | as-written member | corrected member |
|---|---|---|---|---|---|---|
| Apps.py:193-194 | the fade weight is `(fade - (i - hgp)) / fade`, which is 1 in the first fade year, so that year drops straight to the terminal rate and later years climb back toward the high-growth rate | hgr 0.15, hgp 2, fade 2, tgr 0.05 gives rates [0.15, 0.15, 0.05, 0.10] | a fade from the high-growth rate down to the terminal rate: [0.15, 0.15, 0.10, 0.05] | high; not executed | Valuation.FadeRunsBackwards | Valuation.IntendedScheduleFades |
