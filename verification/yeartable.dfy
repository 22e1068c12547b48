/** Reading one year's cell of a labelled row from a yearly table (Apps.py, the "ratios"
    section in `scrape_data_from_url` and the "profit-loss" section in `scrape_fy_from_url`). */
module YearTable {
  import opened Wrappers
  import opened Text
  import opened Page

  const RoceLabel: String := "ROCE %"
  const RoceYear: String := "2019"
  const NetProfitLabel: String := "Net Profit"
  const ProfitYear: String := "2022"

  /** The header texts of a row: every cell stripped. */
  function StripCells(row: Row): (headers: seq<String>)
    ensures |headers| == |row|
    ensures forall k | 0 <= k < |row| :: headers[k] == Strip(row[k])
  {
    seq(|row|, k requires 0 <= k < |row| => Strip(row[k]))
  }

  /** The index of the first header that contains `year`, counting the label column. */
  function YearColumn(headers: seq<String>, year: String): (col: Option<nat>)
    ensures col.None? <==> forall k | 0 <= k < |headers| :: !Contains(headers[k], year)
    ensures col.Some? ==> col.value < |headers| && Contains(headers[col.value], year)
    ensures col.Some? ==> forall k | 0 <= k < col.value :: !Contains(headers[k], year)
  {
    if |headers| == 0 then
      None
    else if Contains(headers[0], year) then
      Some(0)
    else
      assert forall k | 1 <= k < |headers| :: headers[1..][k - 1] == headers[k];
      match YearColumn(headers[1..], year)
      case None => None
      case Some(c) => Some(c + 1)
  }

  /** What the row loop does with one row: go on to the next row, stop with a cell text, or
      raise. */
  datatype Verdict = Skip | Take(text: String) | Fail(error: Exception)

  /** Row `i` is the first row the loop does not skip. */
  ghost predicate FirstDecisive(rows: Table, verdict: Row -> Verdict, i: int) {
    && 0 <= i < |rows|
    && !verdict(rows[i]).Skip?
    && forall j | 0 <= j < i :: verdict(rows[j]).Skip?
  }

  /** The outcome the loop ends with when it stops at a row. */
  function Decide(v: Verdict): Result<Option<String>> {
    match v
    case Skip => Ok(None)
    case Take(text) => Ok(Some(text))
    case Fail(e) => Raised(e)
  }

  /** The loop `for row in rows` with a `break` on the first row whose verdict is not Skip:
      the row search both tables share. */
  function FirstVerdict(rows: Table, verdict: Row -> Verdict): (r: Result<Option<String>>)
    ensures r == Ok(None) <==> forall i | 0 <= i < |rows| :: verdict(rows[i]).Skip?
    ensures forall i | FirstDecisive(rows, verdict, i) :: r == Decide(verdict(rows[i]))
  {
    if |rows| == 0 then
      Ok(None)
    else
      var rest := FirstVerdict(rows[1..], verdict);
      assert forall i | 1 <= i < |rows| :: rows[1..][i - 1] == rows[i];
      assert forall i | 1 <= i < |rows| && FirstDecisive(rows, verdict, i) :: FirstDecisive(rows[1..], verdict, i - 1);
      match verdict(rows[0])
      case Skip => rest
      case Take(text) => Ok(Some(text))
      case Fail(e) => Raised(e)
  }

  // ---------------------------------------------------------------------------------------
  // The ROCE cell of the "ratios" table

  /** The first cell of `cells`, stripped, is exactly "ROCE %". */
  predicate IsRoceRow(cells: Row) {
    |cells| > 0 && Strip(cells[0]) == RoceLabel
  }

  /** The cell text of a row at the year column, stripped and with every '%' removed. */
  function RoceCell(cells: Row, col: nat): String
    requires col < |cells|
  {
    RemoveAll(Strip(cells[col]), '%')
  }

  /** The ROCE loop body: a ROCE row too short for the year column raises, a blank one is
      passed over, a filled one ends the loop. */
  function RoceVerdict(col: nat, cells: Row): Verdict {
    if !IsRoceRow(cells) then Skip
    else if col >= |cells| then Fail(ShortRow)
    else if RoceCell(cells, col) == "" then Skip
    else Take(RoceCell(cells, col))
  }

  /** The ROCE loop body for year column `col`, as the function the row loop applies. */
  function RoceVerdictAt(col: nat): Row -> Verdict {
    (cells: Row) => RoceVerdict(col, cells)
  }

  /** Every "ROCE %" row among the first `n` rows reaches the year column with a blank cell. */
  ghost predicate BlankRoceUpTo(rows: Table, col: nat, n: int)
    requires n <= |rows|
  {
    forall j | 0 <= j < n :: IsRoceRow(rows[j]) ==> col < |rows[j]| && RoceCell(rows[j], col) == ""
  }

  /** Row `i` is the first "ROCE %" row whose year cell is filled; every ROCE row before it
      reaches the year column with a blank cell. */
  ghost predicate FirstFilledRoce(rows: Table, col: nat, i: int) {
    && 0 <= i < |rows|
    && IsRoceRow(rows[i]) && col < |rows[i]| && RoceCell(rows[i], col) != ""
    && BlankRoceUpTo(rows, col, i)
  }

  /** Row `i` is the first "ROCE %" row too short to reach the year column; every ROCE row
      before it reaches the year column with a blank cell. */
  ghost predicate FirstShortRoce(rows: Table, col: nat, i: int) {
    && 0 <= i < |rows|
    && IsRoceRow(rows[i]) && col >= |rows[i]|
    && BlankRoceUpTo(rows, col, i)
  }

  /** The ROCE figure of the "ratios" table (lines 41-62). Once the year column is found,
      the first filled "ROCE %" row decides, unless a ROCE row too short for the column comes
      first; the loop runs out with None only when every ROCE row is blank there. */
  function ReadRoce(table: Option<Table>, parse: Parser): (r: Result<Option<real>>)
    ensures table.None? ==> r == Ok(None)
    ensures table == Some([]) ==> r == Raised(EmptyTable)
    ensures table.Some? && |table.value| > 0 && YearColumn(StripCells(table.value[0]), RoceYear).None?
      ==> r == Ok(None)
    ensures table.Some? && |table.value| > 0 && YearColumn(StripCells(table.value[0]), RoceYear).Some? ==>
      var rows := table.value;
      var col := YearColumn(StripCells(rows[0]), RoceYear).value;
      && (forall i | FirstFilledRoce(rows, col, i) ::
            r == (if parse(RoceCell(rows[i], col)).Some? then Ok(parse(RoceCell(rows[i], col))) else Raised(NotANumber)))
      && (r == Raised(ShortRow) <==> exists i :: FirstShortRoce(rows, col, i))
      && (r == Ok(None) <==> BlankRoceUpTo(rows, col, |rows|))
    ensures r.Ok? && r.value.Some? ==>
      && table.Some? && |table.value| > 0
      && var rows := table.value;
         var col := YearColumn(StripCells(rows[0]), RoceYear);
         && col.Some?
         && exists i :: FirstFilledRoce(rows, col.value, i) && parse(RoceCell(rows[i], col.value)) == r.value
  {
    match table
    case None => Ok(None)
    case Some(rows) =>
      if |rows| == 0 then
        Raised(EmptyTable)
      else
        match YearColumn(StripCells(rows[0]), RoceYear)
        case None => Ok(None)
        case Some(col) =>
          RoceLoop(rows, col);
          match FirstVerdict(rows, RoceVerdictAt(col))
          case Raised(e) => Raised(e)
          case Ok(None) => Ok(None)
          case Ok(Some(text)) =>
            match parse(text)
            case None => Raised(NotANumber)
            case Some(x) => Ok(Some(x))
  }

  /** The ROCE row loop: the first filled "ROCE %" row ends it with its cell, a first ROCE
      row too short for the year column is the only way it raises, and it runs out exactly
      when every ROCE row is blank in the year column. */
  lemma RoceLoop(rows: Table, col: nat)
    ensures var loop := FirstVerdict(rows, RoceVerdictAt(col));
      && (forall i | FirstFilledRoce(rows, col, i) :: loop == Ok(Some(RoceCell(rows[i], col))))
      && (loop.Raised? ==> loop == Raised(ShortRow))
      && (loop == Raised(ShortRow) <==> exists i :: FirstShortRoce(rows, col, i))
      && (loop == Ok(None) <==> BlankRoceUpTo(rows, col, |rows|))
      && (loop.Ok? && loop.value.Some? ==>
            exists i :: FirstFilledRoce(rows, col, i) && RoceCell(rows[i], col) == loop.value.value)
  {
    var verdict := RoceVerdictAt(col);
    var loop := FirstVerdict(rows, verdict);
    RoceSkipsUpTo(rows, col, |rows|);
    forall i | FirstFilledRoce(rows, col, i) || FirstShortRoce(rows, col, i)
      ensures FirstDecisive(rows, verdict, i)
    {
      RoceSkipsUpTo(rows, col, i);
      RoceRowVerdict(col, rows[i]);
    }
    if loop != Ok(None) {
      FirstDecisiveExists(rows, verdict);
      var i :| FirstDecisive(rows, verdict, i);
      RoceSkipsUpTo(rows, col, i);
      RoceRowVerdict(col, rows[i]);
      assert FirstFilledRoce(rows, col, i) || FirstShortRoce(rows, col, i);
    }
  }

  /** What the ROCE loop body does with one row. */
  lemma RoceRowVerdict(col: nat, cells: Row)
    ensures var v := RoceVerdictAt(col)(cells);
      && (v.Skip? <==> (IsRoceRow(cells) ==> col < |cells| && RoceCell(cells, col) == ""))
      && (v.Fail? <==> IsRoceRow(cells) && col >= |cells|)
      && (v.Fail? ==> v == Fail(ShortRow))
      && (v.Take? ==> IsRoceRow(cells) && col < |cells| && v.text == RoceCell(cells, col) && v.text != "")
  {
    assert RoceVerdictAt(col)(cells) == RoceVerdict(col, cells);
  }

  /** The loop passes over the first `n` rows exactly when every ROCE row among them is blank
      in the year column. */
  lemma RoceSkipsUpTo(rows: Table, col: nat, n: int)
    requires 0 <= n <= |rows|
    ensures BlankRoceUpTo(rows, col, n) <==> forall j | 0 <= j < n :: RoceVerdictAt(col)(rows[j]).Skip?
  {
    forall j | 0 <= j < n {
      RoceRowVerdict(col, rows[j]);
    }
  }

  /** When some row is not skipped, a first such row exists. */
  lemma {:induction false} FirstDecisiveExists(rows: Table, verdict: Row -> Verdict)
    ensures (exists i | 0 <= i < |rows| :: !verdict(rows[i]).Skip?) ==> exists i :: FirstDecisive(rows, verdict, i)
    decreases |rows|
  {
    if |rows| > 0 && !verdict(rows[0]).Skip? {
      assert FirstDecisive(rows, verdict, 0);
    } else if |rows| > 0 {
      var rest := rows[1..];
      FirstDecisiveExists(rest, verdict);
      assert forall i | 1 <= i < |rows| :: rest[i - 1] == rows[i];
      if i :| 0 <= i < |rows| && !verdict(rows[i]).Skip? {
        assert !verdict(rest[i - 1]).Skip?;
        var k :| FirstDecisive(rest, verdict, k);
        assert FirstDecisive(rows, verdict, k + 1);
      }
    }
  }

  // ---------------------------------------------------------------------------------------
  // The Net Profit cell of the "profit-loss" table and the FY P/E

  /** The stripped first cell of `cells` contains "Net Profit", the year column exists and
      the row reaches it: the only rows the Net Profit loop accepts. */
  predicate NetProfitAccepted(col: Option<nat>, cells: Row) {
    && |cells| > 0
    && Contains(Strip(cells[0]), NetProfitLabel)
    && col.Some?
    && col.value < |cells|
  }

  /** The Net Profit loop body: the first accepted row ends the loop with its stripped cell
      text, blank or not; no row raises. */
  function NetProfitVerdict(col: Option<nat>, cells: Row): Verdict {
    if NetProfitAccepted(col, cells) then Take(Strip(cells[col.value])) else Skip
  }

  /** The Net Profit loop body for year column `col`, as the function the row loop applies. */
  function NetProfitVerdictAt(col: Option<nat>): Row -> Verdict {
    (cells: Row) => NetProfitVerdict(col, cells)
  }

  /** `float(num) / float(den)`. */
  function DivideTexts(num: String, den: String, parse: Parser): (r: Result<Option<real>>)
    ensures r.Ok? <==> parse(num).Some? && parse(den).Some? && parse(den).value != 0.0
    ensures parse(num).Some? && parse(den) == Some(0.0) ==> r == Raised(ZeroDivision)
    ensures r.Ok? ==> r.value.Some? && r.value.value == parse(num).value / parse(den).value
  {
    match parse(num)
    case None => Raised(NotANumber)
    case Some(a) =>
      match parse(den)
      case None => Raised(NotANumber)
      case Some(b) => if b == 0.0 then Raised(ZeroDivision) else Ok(Some(a / b))
  }

  /** Row `i` is the first row the Net Profit loop accepts. */
  ghost predicate FirstNetProfit(rows: Table, col: Option<nat>, i: int) {
    && 0 <= i < |rows|
    && NetProfitAccepted(col, rows[i])
    && forall j | 0 <= j < i :: !NetProfitAccepted(col, rows[j])
  }

  /** The `net_profit_data` the row loop leaves bound (lines 112-117): the stripped year cell
      of the first accepted row, or None when no row is accepted and the name stays unbound. */
  function NetProfitText(rows: Table, col: Option<nat>): (found: Option<String>)
    ensures found.None? <==> forall i | 0 <= i < |rows| :: !NetProfitAccepted(col, rows[i])
    ensures found.Some? ==> exists i :: FirstNetProfit(rows, col, i) && found.value == Strip(rows[i][col.value])
    ensures forall i | FirstNetProfit(rows, col, i) :: found == Some(Strip(rows[i][col.value]))
  {
    var verdict := NetProfitVerdictAt(col);
    FirstDecisiveExists(rows, verdict);
    var r := FirstVerdict(rows, verdict);
    forall i | 0 <= i < |rows| ensures FirstDecisive(rows, verdict, i) <==> FirstNetProfit(rows, col, i) {
      NetProfitSkipsUpTo(rows, col, i);
      NetProfitRowVerdict(col, rows[i]);
    }
    NetProfitSkipsUpTo(rows, col, |rows|);
    if r.Ok? then r.value else None
  }

  /** What the Net Profit loop body does with one row. */
  lemma NetProfitRowVerdict(col: Option<nat>, cells: Row)
    ensures var v := NetProfitVerdictAt(col)(cells);
      && !v.Fail?
      && (v.Skip? <==> !NetProfitAccepted(col, cells))
      && (v.Take? ==> v.text == Strip(cells[col.value]))
  {
    assert NetProfitVerdictAt(col)(cells) == NetProfitVerdict(col, cells);
  }

  /** The loop passes over the first `n` rows exactly when it accepts none of them. */
  lemma NetProfitSkipsUpTo(rows: Table, col: Option<nat>, n: int)
    requires 0 <= n <= |rows|
    ensures (forall j | 0 <= j < n :: !NetProfitAccepted(col, rows[j]))
        <==> forall j | 0 <= j < n :: NetProfitVerdictAt(col)(rows[j]).Skip?
  {
    forall j | 0 <= j < n {
      NetProfitRowVerdict(col, rows[j]);
    }
  }

  /** `x` is the FY P/E for a market-cap text and a Net Profit text: both non-blank, both
      numbers once every ',' is removed, the profit non-zero, and `x` their quotient. */
  ghost predicate IsFyPe(cap: String, profit: String, parse: Parser, x: real) {
    && cap != ""
    && profit != ""
    && parse(RemoveAll(cap, ',')).Some?
    && parse(RemoveAll(profit, ',')).Some?
    && parse(RemoveAll(profit, ',')).value != 0.0
    && x == parse(RemoveAll(cap, ',')).value / parse(RemoveAll(profit, ',')).value
  }

  /** Lines 119-121 on the stripped market-cap text and the `net_profit_data` the loop left,
      None when the name is unbound: a blank market cap gives None without reading the name,
      an unbound name then raises, a blank profit gives None, and otherwise both texts go to
      `float` with every ',' removed and are divided. */
  function FyFromTexts(cap: String, found: Option<String>, parse: Parser): (r: Result<Option<real>>)
    ensures cap == "" ==> r == Ok(None)
    ensures r == Raised(UnboundNetProfit) <==> cap != "" && found.None?
    ensures cap != "" && found == Some("") ==> r == Ok(None)
    ensures cap != "" && found.Some? && found.value != "" ==>
      (r == Raised(NotANumber) <==> parse(RemoveAll(cap, ',')).None? || parse(RemoveAll(found.value, ',')).None?)
    ensures (cap != "" && found.Some? && found.value != "" && parse(RemoveAll(cap, ',')).Some?
             && parse(RemoveAll(found.value, ',')) == Some(0.0)) ==> r == Raised(ZeroDivision)
    ensures found.Some? ==> forall x | IsFyPe(cap, found.value, parse, x) :: r == Ok(Some(x))
    ensures r.Ok? && r.value.Some? ==> found.Some? && IsFyPe(cap, found.value, parse, r.value.value)
  {
    if cap == "" then Ok(None)
    else if found.None? then Raised(UnboundNetProfit)
    else if found.value == "" then Ok(None)
    else DivideTexts(RemoveAll(cap, ','), RemoveAll(found.value, ','), parse)
  }

  /** The FY P/E from a non-blank or blank market-cap text and the rows of the "profit-loss"
      table (lines 102-121): the first row the loop accepts decides. */
  function FyFromTable(cap: String, rows: Table, parse: Parser): (r: Result<Option<real>>)
    requires |rows| > 0
    ensures var col := YearColumn(StripCells(rows[0]), ProfitYear);
      r == Raised(UnboundNetProfit) <==> cap != "" && forall i | 0 <= i < |rows| :: !NetProfitAccepted(col, rows[i])
    ensures var col := YearColumn(StripCells(rows[0]), ProfitYear);
      r.Ok? && r.value.Some? ==> exists i | FirstNetProfit(rows, col, i) :: IsFyPe(cap, Strip(rows[i][col.value]), parse, r.value.value)
    ensures cap == "" ==> r == Ok(None)
    ensures var col := YearColumn(StripCells(rows[0]), ProfitYear);
      forall i | FirstNetProfit(rows, col, i) && cap != "" ::
        var profit := Strip(rows[i][col.value]);
        && (profit == "" ==> r == Ok(None))
        && (profit != "" ==>
              (r == Raised(NotANumber) <==> parse(RemoveAll(cap, ',')).None? || parse(RemoveAll(profit, ',')).None?))
        && (profit != "" && parse(RemoveAll(cap, ',')).Some? && parse(RemoveAll(profit, ',')) == Some(0.0) ==>
              r == Raised(ZeroDivision))
        && (forall x | IsFyPe(cap, profit, parse, x) :: r == Ok(Some(x)))
  {
    var col := YearColumn(StripCells(rows[0]), ProfitYear);
    var found := NetProfitText(rows, col);
    var r := FyFromTexts(cap, found, parse);
    assert r.Ok? && r.value.Some? ==> exists i | FirstNetProfit(rows, col, i) :: IsFyPe(cap, Strip(rows[i][col.value]), parse, r.value.value) by {
      if r.Ok? && r.value.Some? {
        var i :| FirstNetProfit(rows, col, i) && found.value == Strip(rows[i][col.value]);
      }
    }
    r
  }

  /** The FY P/E of a page (lines 95-123): market capitalisation over the Net Profit of the
      first accepted row, both with every ',' removed. A missing market-cap span raises at
      once; a missing section or table gives None; a blank market cap or Net Profit gives
      None; a non-blank market cap with no accepted row raises UnboundLocalError. */
  function ReadFyPe(page: Page, parse: Parser): (r: Result<Option<real>>)
    ensures page.marketCap.None? ==> r == Raised(MissingMarketCap)
    ensures page.marketCap.Some? && page.profitLossTable.None? ==> r == Ok(None)
    ensures page.marketCap.Some? && page.profitLossTable == Some([]) ==> r == Raised(EmptyTable)
    ensures r.Ok? && r.value.Some? ==> page.marketCap.Some? && page.profitLossTable.Some? && |page.profitLossTable.value| > 0
    ensures page.marketCap.Some? && page.profitLossTable.Some? && |page.profitLossTable.value| > 0 ==>
      r == FyFromTable(Strip(page.marketCap.value), page.profitLossTable.value, parse)
  {
    match page.marketCap
    case None => Raised(MissingMarketCap)
    case Some(capText) =>
      match page.profitLossTable
      case None => Ok(None)
      case Some(rows) =>
        if |rows| == 0 then Raised(EmptyTable)
        else FyFromTable(Strip(capText), rows, parse)
  }
}
