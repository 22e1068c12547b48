/** The valuation part of the dashboard's `main`: slider positions, the intrinsic P/E, the
    two observed multiples and the degree of overvaluation. */
module Dashboard {
  import opened Wrappers
  import opened Text
  import opened Page
  import Scrape
  import Valuation

  /** The six slider positions of `main` (lines 204-218), in the units the sliders show:
      whole percentages and years. The terminal growth rate moves in half-percent steps, so
      it is held as a count of halves. */
  datatype Sliders = Sliders(coc: int, roce: int, hgr: int, hgp: int, fade: int, tgrHalves: int)

  function TerminalRate(s: Sliders): real {
    s.tgrHalves as real / 2.0
  }

  /** The positions each slider can reach: from its minimum to its maximum in its step. */
  predicate OnSliders(s: Sliders) {
    && 8 <= s.coc <= 16
    && 10 <= s.roce <= 100 && s.roce % 10 == 0
    && 8 <= s.hgr <= 20 && s.hgr % 2 == 0
    && 10 <= s.hgp <= 25 && s.hgp % 2 == 0
    && 5 <= s.fade <= 20 && s.fade % 5 == 0
    && 2 <= s.tgrHalves <= 15
  }

  /** Every slider at its minimum, where the page opens. */
  const Initial := Sliders(8, 10, 8, 10, 5, 2)

  /** Line 231: the slider values go to `calculate_intrinsic_pe` as they are. */
  function IntrinsicOf(s: Sliders): Result<real> {
    Valuation.CalculateIntrinsicPe(s.coc as real, s.roce as real, s.hgr as real, s.hgp, s.fade, TerminalRate(s))
  }

  /** What `main` shows: the intrinsic P/E and, when both multiples were found, the degree of
      overvaluation. */
  datatype Report = Report(intrinsic: real, degree: Option<real>)

  /** Lines 229-248, given what each step yields: the intrinsic P/E first, then the current
      P/E from the ratios scrape, then the FY P/E, then the degree of overvaluation. An
      exception at any step ends the run there, and the pages of later steps are never
      requested; `fetched` lists the pages requested, in order. */
  function Combine(intrinsic: Result<real>, screener: Scrape.Run<(Option<real>, Option<real>)>,
                   fy: Scrape.Run<Option<real>>): (run: Scrape.Run<Report>)
    ensures intrinsic.Raised? ==> run == Scrape.Run(Raised(intrinsic.error), [])
    ensures intrinsic.Ok? && screener.outcome.Raised? ==>
      run == Scrape.Run(Raised(screener.outcome.error), screener.fetched)
    ensures intrinsic.Ok? && screener.outcome.Ok? ==> run.fetched == screener.fetched + fy.fetched
    ensures intrinsic.Ok? && screener.outcome.Ok? && fy.outcome.Raised? ==> run.outcome == Raised(fy.outcome.error)
    ensures run.outcome.Ok? <==>
      && intrinsic.Ok? && screener.outcome.Ok? && fy.outcome.Ok?
      && Valuation.Overvaluation(screener.outcome.value.0, fy.outcome.value, intrinsic.value).Ok?
    ensures run.outcome.Ok? ==>
      && run.outcome.value.intrinsic == intrinsic.value
      && Valuation.Overvaluation(screener.outcome.value.0, fy.outcome.value, intrinsic.value) == Ok(run.outcome.value.degree)
  {
    match intrinsic
    case Raised(e) => Scrape.Run(Raised(e), [])
    case Ok(value) =>
      if screener.outcome.Raised? then
        Scrape.Run(Raised(screener.outcome.error), screener.fetched)
      else
        var fetched := screener.fetched + fy.fetched;
        if fy.outcome.Raised? then
          Scrape.Run(Raised(fy.outcome.error), fetched)
        else
          match Valuation.Overvaluation(screener.outcome.value.0, fy.outcome.value, value)
          case Raised(e) => Scrape.Run(Raised(e), fetched)
          case Ok(degree) => Scrape.Run(Ok(Report(value, degree)), fetched)
  }

  /** `main` for one symbol, web and slider setting. */
  function Main(symbol: String, web: Web, parse: Parser, s: Sliders): (run: Scrape.Run<Report>)
    ensures IntrinsicOf(s).Raised? ==> run == Scrape.Run(Raised(IntrinsicOf(s).error), [])
  {
    Combine(IntrinsicOf(s), Scrape.ScrapeScreener(symbol, web, parse), Scrape.ScrapeFy(symbol, web, parse))
  }

  /** On the sliders the intrinsic P/E fails exactly at a cost of capital of 10 and a return on
      capital of 10, the only positions the two share; elsewhere it is positive exactly when
      the return on capital is the higher. */
  lemma SlidersIntrinsic(s: Sliders)
    requires OnSliders(s)
    ensures IntrinsicOf(s) == Raised(ZeroDivision) <==> s.coc == 10 && s.roce == 10
    ensures IntrinsicOf(s).Ok? ==> IntrinsicOf(s).value != 0.0 && (IntrinsicOf(s).value > 0.0 <==> s.roce > s.coc)
  {
    if s.roce != s.coc {
      Valuation.IntrinsicPeSign(s.coc as real, s.roce as real, s.hgr as real, s.hgp, s.fade, TerminalRate(s));
    }
  }

  /** The page opens on every slider's minimum (lines 213-218), a reachable position where
      the intrinsic P/E is defined and positive, since the return on capital starts above the
      cost of capital. */
  lemma InitialIntrinsicPositive()
    ensures OnSliders(Initial)
    ensures IntrinsicOf(Initial).Ok? && IntrinsicOf(Initial).value > 0.0
  {
    SlidersIntrinsic(Initial);
  }

  /** Moving both the cost of capital and the return on capital to 10 makes `main` raise
      ZeroDivisionError before it requests any page, whatever the symbol and the web. */
  lemma SlidersReachZeroDivision(symbol: String, web: Web, parse: Parser)
    ensures OnSliders(Sliders(10, 10, 8, 10, 5, 2))
    ensures Main(symbol, web, parse, Sliders(10, 10, 8, 10, 5, 2)) == Scrape.Run(Raised(ZeroDivision), [])
  {
    SlidersIntrinsic(Sliders(10, 10, 8, 10, 5, 2));
  }

  /** On the sliders the degree's own division never fails: once both scrapes return, `main`
      reports a degree exactly when both multiples are truthy. */
  lemma SlidersDegreeDefined(s: Sliders, screener: Scrape.Run<(Option<real>, Option<real>)>, fy: Scrape.Run<Option<real>>)
    requires OnSliders(s) && s.roce != s.coc
    requires screener.outcome.Ok? && fy.outcome.Ok?
    ensures var run := Combine(IntrinsicOf(s), screener, fy);
      run.outcome.Ok? && (run.outcome.value.degree.Some? <==>
        Valuation.Truthy(screener.outcome.value.0) && Valuation.Truthy(fy.outcome.value))
  {
    SlidersIntrinsic(s);
  }
}
