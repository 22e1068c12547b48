/** Absence, exceptions and outcomes of the scraper's Python code. */
module Wrappers {

  /** Python's `None` versus a present value. */
  datatype Option<+T> = None | Some(value: T)

  /** The exceptions the scraping and valuation code can raise. Each constructor names the
      Python error and the expression that raises it in Apps.py. */
  datatype Exception =
    | MissingNameSpan      // AttributeError: a ratio item without a `name` span (line 35)
    | MissingValueSpan     // AttributeError: a "Stock P/E" item without a value span (line 36)
    | EmptyTable           // IndexError: `rows[0]` of a table without rows (lines 46, 104)
    | ShortRow             // IndexError: a "ROCE %" row shorter than the year column (line 58)
    | MissingMarketCap     // AttributeError: no `number` span on the page (line 96)
    | UnboundNetProfit     // UnboundLocalError: no row supplied `net_profit_data` (line 119)
    | MissingGrowthHeader  // AttributeError: a growth table without a `th` cell (line 156)
    | ShortGrowthRow       // IndexError: a growth row with fewer than two `td` cells (lines 158, 160)
    | NotANumber           // ValueError: `float()` of non-numeric text
    | ZeroDivision         // ZeroDivisionError: a division by zero (lines 120, 195, 196, 242, 244)

  /** The outcome of a Python call: a returned value or a raised exception. */
  datatype Result<+T> = Ok(value: T) | Raised(error: Exception)
}
