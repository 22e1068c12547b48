/** The compounded-growth tables (Apps.py, `scrape_screener_tables_from_url`). */
module Growth {
  import opened Wrappers
  import opened Text
  import opened Dict
  import opened Page
  import Seqs

  const SalesHeading: String := "Compounded Sales Growth"
  const ProfitHeading: String := "Compounded Profit Growth"

  /** The period label and value text of a data row, when its value is not blank: the first
      cell stripped with every ':' removed, the second stripped with every '%' removed. */
  function GrowthEntry(row: Row): Option<(String, String)>
    requires |row| >= 2
  {
    var value := RemoveAll(Strip(row[1]), '%');
    if value == "" then None else Some((RemoveAll(Strip(row[0]), ':'), value))
  }

  /** The comprehension raises nothing on a data row: it has two cells, and a non-blank value
      is a number. */
  predicate RowReadable(row: Row, parse: Parser) {
    |row| >= 2 && (GrowthEntry(row).Some? ==> parse(GrowthEntry(row).value.1).Some?)
  }

  predicate RowsReadable(rows: seq<Row>, parse: Parser) {
    forall i | 0 <= i < |rows| :: RowReadable(rows[i], parse)
  }

  /** `row` holds a value for period `key`. */
  predicate FillsPeriod(row: Row, key: String) {
    |row| >= 2 && GrowthEntry(row).Some? && GrowthEntry(row).value.0 == key
  }

  /** Row `i` is the last row that holds a value for period `key`. */
  ghost predicate IsLastEntryFor(rows: seq<Row>, key: String, i: int) {
    && 0 <= i < |rows|
    && FillsPeriod(rows[i], key)
    && forall j | i < j < |rows| :: !FillsPeriod(rows[j], key)
  }

  /** No row holds a value for period `key`. */
  ghost predicate NoEntryFor(rows: seq<Row>, key: String) {
    forall i | 0 <= i < |rows| :: !FillsPeriod(rows[i], key)
  }

  /** The dict comprehension over the data rows, continuing from the entries in `acc`. */
  function CollectGrowth(rows: seq<Row>, parse: Parser, acc: Dict<real>): (r: Result<Dict<real>>)
    ensures r.Ok? <==> RowsReadable(rows, parse)
    decreases |rows|
  {
    if |rows| == 0 then
      Ok(acc)
    else
      assert RowsReadable(rows, parse) <==> RowReadable(rows[0], parse) && RowsReadable(rows[1..], parse) by {
        assert forall i | 1 <= i < |rows| :: rows[1..][i - 1] == rows[i];
      }
      if |rows[0]| < 2 then
        Raised(ShortGrowthRow)
      else
        match GrowthEntry(rows[0])
        case None => CollectGrowth(rows[1..], parse, acc)
        case Some(entry) =>
          match parse(entry.1)
          case None => Raised(NotANumber)
          case Some(x) => CollectGrowth(rows[1..], parse, Put(acc, entry.0, x))
  }

  /** On readable rows, each period ends up with the value of the last row that holds one
      for it; a period no row fills keeps what `acc` had, and repeated keys never arise. */
  lemma {:induction false} CollectGrowthLastWins(rows: seq<Row>, parse: Parser, acc: Dict<real>, key: String)
    requires RowsReadable(rows, parse)
    ensures NoEntryFor(rows, key) ==> Get(CollectGrowth(rows, parse, acc).value, key) == Get(acc, key)
    ensures forall i | IsLastEntryFor(rows, key, i) ::
      Get(CollectGrowth(rows, parse, acc).value, key) == parse(GrowthEntry(rows[i]).value.1)
    ensures UniqueKeys(acc) ==> UniqueKeys(CollectGrowth(rows, parse, acc).value)
    decreases |rows|
  {
    if |rows| > 0 {
      var rest := rows[1..];
      var next := CollectGrowthStep(rows, parse, acc);
      CollectGrowthLastWins(rest, parse, next, key);
      if GrowthEntry(rows[0]).Some? && UniqueKeys(acc) {
        var entry := GrowthEntry(rows[0]).value;
        PutKeepsKeysUnique(acc, entry.0, parse(entry.1).value);
      }
      forall i | IsLastEntryFor(rows, key, i)
        ensures Get(CollectGrowth(rows, parse, acc).value, key) == parse(GrowthEntry(rows[i]).value.1)
      {
        EntryShifts(rows, key, i);
      }
      if NoEntryFor(rows, key) {
        EntryShifts(rows, key, -1);
      }
    }
  }

  /** One row of the comprehension: `next` holds what the dict holds after row 0. */
  lemma CollectGrowthStep(rows: seq<Row>, parse: Parser, acc: Dict<real>) returns (next: Dict<real>)
    requires RowsReadable(rows, parse) && |rows| > 0
    ensures RowsReadable(rows[1..], parse)
    ensures GrowthEntry(rows[0]).None? ==> next == acc
    ensures GrowthEntry(rows[0]).Some? ==>
      next == Put(acc, GrowthEntry(rows[0]).value.0, parse(GrowthEntry(rows[0]).value.1).value)
    ensures CollectGrowth(rows, parse, acc) == CollectGrowth(rows[1..], parse, next)
  {
    assert forall i | 1 <= i < |rows| :: rows[1..][i - 1] == rows[i];
    assert RowReadable(rows[0], parse);
    next := match GrowthEntry(rows[0])
      case None => acc
      case Some(entry) => Put(acc, entry.0, parse(entry.1).value);
  }

  /** How "last row for `key`" and "no row for `key`" read once row 0 is dropped; `i < 0`
      asks only about the case where no row fills the period. */
  lemma EntryShifts(rows: seq<Row>, key: String, i: int)
    requires |rows| > 0
    ensures IsLastEntryFor(rows, key, i) && i == 0 ==> FillsPeriod(rows[0], key) && NoEntryFor(rows[1..], key)
    ensures IsLastEntryFor(rows, key, i) && i > 0 ==>
      IsLastEntryFor(rows[1..], key, i - 1) && rows[1..][i - 1] == rows[i]
    ensures NoEntryFor(rows, key) ==> !FillsPeriod(rows[0], key) && NoEntryFor(rows[1..], key)
  {
    assert forall j | 1 <= j < |rows| :: rows[1..][j - 1] == rows[j];
  }

  /** Some row holds a value for `key` exactly when a last such row exists. */
  lemma LastEntryExists(rows: seq<Row>, key: String)
    ensures !NoEntryFor(rows, key) ==> exists i :: IsLastEntryFor(rows, key, i)
  {
    if !NoEntryFor(rows, key) {
      var flags := seq(|rows|, j requires 0 <= j < |rows| => FillsPeriod(rows[j], key));
      var k :| 0 <= k < |rows| && FillsPeriod(rows[k], key);
      assert forall j | 0 <= j < |rows| :: flags[j] == FillsPeriod(rows[j], key);
      var i := Seqs.LastSet(flags, k);
      assert IsLastEntryFor(rows, key, i);
    }
  }

  /** The rows after the first, as `rows[1:]`. */
  function DataRows(rows: Table): seq<Row> {
    if |rows| == 0 then [] else rows[1..]
  }

  /** The growth map of one table (line 158 or 160): the comprehension over the data rows,
      starting from an empty dict. */
  function GrowthMap(rows: Table, parse: Parser): (r: Result<Dict<real>>)
    ensures r.Ok? <==> RowsReadable(DataRows(rows), parse)
  {
    CollectGrowth(DataRows(rows), parse, [])
  }

  /** A growth map holds a period exactly when some data row has a non-blank value for it,
      and then the value of the last such row; a blank row never becomes an entry; no period
      appears twice. */
  lemma GrowthMapHoldsLastEntries(rows: Table, parse: Parser)
    requires RowsReadable(DataRows(rows), parse)
    ensures var m := GrowthMap(rows, parse).value;
      && UniqueKeys(m)
      && (forall key :: Get(m, key).None? <==> NoEntryFor(DataRows(rows), key))
      && (forall key, i | IsLastEntryFor(DataRows(rows), key, i) ::
            Get(m, key) == parse(GrowthEntry(DataRows(rows)[i]).value.1))
  {
    var data := DataRows(rows);
    var m := GrowthMap(rows, parse).value;
    forall key ensures Get(m, key).None? <==> NoEntryFor(data, key) {
      CollectGrowthLastWins(data, parse, [], key);
      LastEntryExists(data, key);
    }
    forall key, i | IsLastEntryFor(data, key, i) ensures Get(m, key) == parse(GrowthEntry(data[i]).value.1) {
      CollectGrowthLastWins(data, parse, [], key);
    }
    CollectGrowthLastWins(data, parse, [], []);
  }

  // ---------------------------------------------------------------------------------------
  // The loop over the `ranges-table`s of a page

  /** What a table's stripped header makes of it; "Sales" is checked before "Profit". */
  datatype Kind = SalesTable | ProfitTable | OtherTable

  function KindOf(header: String): Kind {
    if Contains(header, SalesHeading) then SalesTable
    else if Contains(header, ProfitHeading) then ProfitTable
    else OtherTable
  }

  /** `t` has a header and is a table of kind `kind`. */
  predicate HasKind(t: RangesTable, kind: Kind) {
    t.header.Some? && KindOf(Strip(t.header.value)) == kind
  }

  /** The loop body raises nothing on table `t`: it has a header, and when it is a growth
      table its data rows are readable. */
  predicate TableReadable(t: RangesTable, parse: Parser) {
    t.header.Some? && (!HasKind(t, OtherTable) ==> GrowthMap(t.rows, parse).Ok?)
  }

  predicate TablesReadable(tables: seq<RangesTable>, parse: Parser) {
    forall i | 0 <= i < |tables| :: TableReadable(tables[i], parse)
  }

  /** Table `i` is the last table of kind `kind`. */
  ghost predicate IsLastOfKind(tables: seq<RangesTable>, kind: Kind, i: int) {
    && 0 <= i < |tables|
    && HasKind(tables[i], kind)
    && forall j | i < j < |tables| :: !HasKind(tables[j], kind)
  }

  ghost predicate NoneOfKind(tables: seq<RangesTable>, kind: Kind) {
    forall i | 0 <= i < |tables| :: !HasKind(tables[i], kind)
  }

  /** The map a pair (sales, profit) holds for a growth kind. */
  function Slot(maps: (Dict<real>, Dict<real>), kind: Kind): Dict<real>
    requires kind != OtherTable
  {
    if kind == SalesTable then maps.0 else maps.1
  }

  /** The loop over the growth tables (lines 154-160), from the maps `sales` and `profit` the
      loop holds so far: each growth table replaces the map of its kind wholesale. */
  function ScanRangesTables(tables: seq<RangesTable>, parse: Parser, sales: Dict<real>, profit: Dict<real>)
    : (r: Result<(Dict<real>, Dict<real>)>)
    ensures r.Ok? <==> TablesReadable(tables, parse)
    decreases |tables|
  {
    if |tables| == 0 then
      Ok((sales, profit))
    else
      assert TablesReadable(tables, parse) <==> TableReadable(tables[0], parse) && TablesReadable(tables[1..], parse) by {
        assert forall i | 1 <= i < |tables| :: tables[1..][i - 1] == tables[i];
      }
      var t := tables[0];
      match t.header
      case None => Raised(MissingGrowthHeader)
      case Some(header) =>
        match KindOf(Strip(header))
        case SalesTable =>
          (match GrowthMap(t.rows, parse)
           case Raised(e) => Raised(e)
           case Ok(d) => ScanRangesTables(tables[1..], parse, d, profit))
        case ProfitTable =>
          (match GrowthMap(t.rows, parse)
           case Raised(e) => Raised(e)
           case Ok(d) => ScanRangesTables(tables[1..], parse, sales, d))
        case OtherTable => ScanRangesTables(tables[1..], parse, sales, profit)
  }

  /** One step of the loop over a readable table: a growth table replaces the map of its
      kind, any other table leaves both maps as they are. */
  lemma TableStep(tables: seq<RangesTable>, parse: Parser, sales: Dict<real>, profit: Dict<real>)
    returns (next: (Dict<real>, Dict<real>))
    requires |tables| > 0 && TableReadable(tables[0], parse)
    ensures ScanRangesTables(tables, parse, sales, profit) == ScanRangesTables(tables[1..], parse, next.0, next.1)
    ensures HasKind(tables[0], SalesTable) ==> next == (GrowthMap(tables[0].rows, parse).value, profit)
    ensures HasKind(tables[0], ProfitTable) ==> next == (sales, GrowthMap(tables[0].rows, parse).value)
    ensures HasKind(tables[0], OtherTable) ==> next == (sales, profit)
  {
    var t := tables[0];
    next :=
      if HasKind(t, SalesTable) then (GrowthMap(t.rows, parse).value, profit)
      else if HasKind(t, ProfitTable) then (sales, GrowthMap(t.rows, parse).value)
      else (sales, profit);
  }

  /** On readable tables, the map of each growth kind comes from the last table of that kind,
      and stays as it started when there is none. */
  lemma LastTableWins(tables: seq<RangesTable>, parse: Parser, sales: Dict<real>, profit: Dict<real>, kind: Kind)
    requires TablesReadable(tables, parse)
    requires kind != OtherTable
    ensures NoneOfKind(tables, kind) ==>
      Slot(ScanRangesTables(tables, parse, sales, profit).value, kind) == Slot((sales, profit), kind)
    ensures forall i | IsLastOfKind(tables, kind, i) ::
      Slot(ScanRangesTables(tables, parse, sales, profit).value, kind) == GrowthMap(tables[i].rows, parse).value
  {
    if NoneOfKind(tables, kind) {
      NoTableKeepsSlot(tables, parse, sales, profit, kind);
    }
    forall i | IsLastOfKind(tables, kind, i)
      ensures Slot(ScanRangesTables(tables, parse, sales, profit).value, kind) == GrowthMap(tables[i].rows, parse).value
    {
      LastTableFillsSlot(tables, parse, sales, profit, kind, i);
    }
  }

  /** Tables of other kinds leave a kind's map as it was. */
  lemma {:induction false} NoTableKeepsSlot(tables: seq<RangesTable>, parse: Parser, sales: Dict<real>, profit: Dict<real>, kind: Kind)
    requires TablesReadable(tables, parse)
    requires kind != OtherTable && NoneOfKind(tables, kind)
    ensures Slot(ScanRangesTables(tables, parse, sales, profit).value, kind) == Slot((sales, profit), kind)
    decreases |tables|
  {
    if |tables| > 0 {
      var rest := tables[1..];
      assert forall i | 1 <= i < |tables| :: rest[i - 1] == tables[i];
      assert TableReadable(tables[0], parse) && TablesReadable(rest, parse);
      assert NoneOfKind(rest, kind) && !HasKind(tables[0], kind);
      var next := TableStep(tables, parse, sales, profit);
      NoTableKeepsSlot(rest, parse, next.0, next.1, kind);
    }
  }

  /** The last table of a kind fills that kind's map. */
  lemma {:induction false} LastTableFillsSlot(tables: seq<RangesTable>, parse: Parser, sales: Dict<real>, profit: Dict<real>, kind: Kind, i: int)
    requires TablesReadable(tables, parse)
    requires kind != OtherTable && IsLastOfKind(tables, kind, i)
    ensures Slot(ScanRangesTables(tables, parse, sales, profit).value, kind) == GrowthMap(tables[i].rows, parse).value
    decreases |tables|
  {
    if i == 0 {
      OnlyTableFillsSlot(tables, parse, sales, profit, kind);
    } else {
      var rest := tables[1..];
      var next := LaterTableStep(tables, parse, sales, profit, kind, i);
      LastTableFillsSlot(rest, parse, next.0, next.1, kind, i - 1);
    }
  }

  /** Dropping the first table when a later one is the last of `kind`: the loop continues
      from the maps `next` that table 0 leaves. */
  lemma LaterTableStep(tables: seq<RangesTable>, parse: Parser, sales: Dict<real>, profit: Dict<real>, kind: Kind, i: int)
    returns (next: (Dict<real>, Dict<real>))
    requires TablesReadable(tables, parse)
    requires kind != OtherTable && IsLastOfKind(tables, kind, i) && i > 0
    ensures TablesReadable(tables[1..], parse) && IsLastOfKind(tables[1..], kind, i - 1)
    ensures tables[1..][i - 1] == tables[i]
    ensures ScanRangesTables(tables, parse, sales, profit) == ScanRangesTables(tables[1..], parse, next.0, next.1)
  {
    var rest := tables[1..];
    assert forall j | 1 <= j < |tables| :: rest[j - 1] == tables[j];
    next := TableStep(tables, parse, sales, profit);
  }

  /** A first table of a kind that no later table shares fills that kind's map. */
  lemma OnlyTableFillsSlot(tables: seq<RangesTable>, parse: Parser, sales: Dict<real>, profit: Dict<real>, kind: Kind)
    requires TablesReadable(tables, parse)
    requires kind != OtherTable && IsLastOfKind(tables, kind, 0)
    ensures Slot(ScanRangesTables(tables, parse, sales, profit).value, kind) == GrowthMap(tables[0].rows, parse).value
  {
    var rest := tables[1..];
    assert TableReadable(tables[0], parse) && TablesReadable(rest, parse) && NoneOfKind(rest, kind) by {
      assert forall j | 1 <= j < |tables| :: rest[j - 1] == tables[j];
    }
    var next := TableStep(tables, parse, sales, profit);
    NoTableKeepsSlot(rest, parse, next.0, next.1, kind);
  }

  /** The sales and profit growth maps of a page (lines 152-162): each is the growth map of
      the last table of its kind, or empty when the page has none. */
  function ReadGrowthTables(tables: seq<RangesTable>, parse: Parser): (r: Result<(Dict<real>, Dict<real>)>)
    ensures r.Ok? <==> TablesReadable(tables, parse)
    ensures r.Ok? ==> forall kind | kind != OtherTable && NoneOfKind(tables, kind) :: Slot(r.value, kind) == []
    ensures r.Ok? ==> forall kind, i | kind != OtherTable && IsLastOfKind(tables, kind, i) ::
      Slot(r.value, kind) == GrowthMap(tables[i].rows, parse).value
  {
    var r := ScanRangesTables(tables, parse, [], []);
    if r.Ok? then
      forall kind | kind != OtherTable
        ensures NoneOfKind(tables, kind) ==> Slot(r.value, kind) == []
        ensures forall i | IsLastOfKind(tables, kind, i) :: Slot(r.value, kind) == GrowthMap(tables[i].rows, parse).value
      {
        LastTableWins(tables, parse, [], [], kind);
      }
      r
    else
      r
  }
}
