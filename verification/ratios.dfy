/** The "Stock P/E" scan over the company's ratio list (Apps.py, `scrape_data_from_url`). */
module Ratios {
  import opened Wrappers
  import opened Text
  import opened Page
  import Seqs

  const StockPeLabel: String := "Stock P/E"

  /** The stripped value text of an item that reports the Stock P/E with a non-blank value;
      None for every other item. */
  function StockPeText(item: RatioItem): Option<String> {
    if && item.name.Some?
       && Strip(item.name.value) == StockPeLabel
       && item.value.Some?
       && Strip(item.value.value) != ""
    then Some(Strip(item.value.value))
    else None
  }

  /** The loop body raises nothing on `item`: it has a name span, and when that names the
      Stock P/E it has a value span whose non-blank text `float` accepts. */
  predicate ItemReadable(item: RatioItem, parse: Parser) {
    && item.name.Some?
    && (Strip(item.name.value) == StockPeLabel ==>
          && item.value.Some?
          && (Strip(item.value.value) != "" ==> parse(Strip(item.value.value)).Some?))
  }

  predicate ItemsReadable(items: seq<RatioItem>, parse: Parser) {
    forall i | 0 <= i < |items| :: ItemReadable(items[i], parse)
  }

  /** No item reports a non-blank Stock P/E. */
  ghost predicate NoStockPe(items: seq<RatioItem>) {
    forall i | 0 <= i < |items| :: StockPeText(items[i]).None?
  }

  /** Item `i` is the last one that reports a non-blank Stock P/E. */
  ghost predicate IsLastStockPe(items: seq<RatioItem>, i: int) {
    && 0 <= i < |items|
    && StockPeText(items[i]).Some?
    && forall j | i < j < |items| :: StockPeText(items[j]).None?
  }

  /** The loop over the ratio items, starting from the value `current` holds: a later
      Stock P/E overwrites an earlier one, a blank one leaves `current` as it is. */
  function ScanStockPeFrom(items: seq<RatioItem>, parse: Parser, current: Option<real>): (r: Result<Option<real>>)
    ensures r.Ok? <==> ItemsReadable(items, parse)
    decreases |items|
  {
    if |items| == 0 then
      Ok(current)
    else
      var item := items[0];
      assert forall i | 1 <= i < |items| :: items[1..][i - 1] == items[i];
      match item.name
      case None => Raised(MissingNameSpan)
      case Some(name) =>
        if Strip(name) != StockPeLabel then
          ScanStockPeFrom(items[1..], parse, current)
        else
          match item.value
          case None => Raised(MissingValueSpan)
          case Some(value) =>
            var text := Strip(value);
            if text == "" then
              ScanStockPeFrom(items[1..], parse, current)
            else
              match parse(text)
              case None => Raised(NotANumber)
              case Some(x) => ScanStockPeFrom(items[1..], parse, Some(x))
  }

  /** One step of the scan over a readable item: a non-blank Stock P/E replaces `current`. */
  lemma ScanStep(items: seq<RatioItem>, parse: Parser, current: Option<real>)
    requires |items| > 0 && ItemReadable(items[0], parse)
    ensures ScanStockPeFrom(items, parse, current)
         == ScanStockPeFrom(items[1..], parse, if StockPeText(items[0]).Some? then parse(StockPeText(items[0]).value) else current)
  {
  }

  /** Some item reports a non-blank Stock P/E exactly when a last such item exists. */
  lemma LastStockPeExists(items: seq<RatioItem>)
    ensures !NoStockPe(items) ==> exists i :: IsLastStockPe(items, i)
  {
    if !NoStockPe(items) {
      var flags := seq(|items|, j requires 0 <= j < |items| => StockPeText(items[j]).Some?);
      var k :| 0 <= k < |items| && StockPeText(items[k]).Some?;
      assert forall j | 0 <= j < |items| :: flags[j] == StockPeText(items[j]).Some?;
      var i := Seqs.LastSet(flags, k);
      assert IsLastStockPe(items, i);
    }
  }

  /** On items that raise nothing, the scan ends with the value of the last non-blank
      Stock P/E, or with `current` when there is none. */
  lemma {:induction false} ScanFindsLastStockPe(items: seq<RatioItem>, parse: Parser, current: Option<real>)
    requires ItemsReadable(items, parse)
    ensures NoStockPe(items) ==> ScanStockPeFrom(items, parse, current) == Ok(current)
    ensures forall i | IsLastStockPe(items, i) ::
      ScanStockPeFrom(items, parse, current) == Ok(parse(StockPeText(items[i]).value))
    decreases |items|
  {
    if |items| > 0 {
      var rest := items[1..];
      assert forall i | 1 <= i < |items| :: rest[i - 1] == items[i];
      var next := if StockPeText(items[0]).Some? then parse(StockPeText(items[0]).value) else current;
      ScanStep(items, parse, current);
      ScanFindsLastStockPe(rest, parse, next);
      forall i | IsLastStockPe(items, i)
        ensures ScanStockPeFrom(items, parse, current) == Ok(parse(StockPeText(items[i]).value))
      {
        if i == 0 {
          assert NoStockPe(rest);
        } else {
          assert IsLastStockPe(rest, i - 1);
        }
      }
    }
  }

  /** The Stock P/E of a page's ratio list (lines 25-38): the value of the last item whose
      stripped label is exactly "Stock P/E" and whose stripped value is non-blank; None when
      no item qualifies; an exception when an item lacks a span or a value is not a number. */
  function ScanStockPe(items: seq<RatioItem>, parse: Parser): (r: Result<Option<real>>)
    ensures r.Ok? <==> ItemsReadable(items, parse)
    ensures r.Ok? ==> (r.value.None? <==> NoStockPe(items))
    ensures r.Ok? ==> forall i | IsLastStockPe(items, i) :: r.value == parse(StockPeText(items[i]).value)
  {
    if ItemsReadable(items, parse) then
      ScanFindsLastStockPe(items, parse, None);
      LastStockPeExists(items);
      ScanStockPeFrom(items, parse, None)
    else
      ScanStockPeFrom(items, parse, None)
  }
}
