/** The batch over every ticker and every one of its events
    (`analyze_all_events`, news_volatility_analysis.py lines 98-132). */
module EventBatch {
  import opened Wrappers
  import opened VolatilityEvaluator

  type Ticker = string

  /** A tagged news event: its name and its (already parsed) date. */
  datatype Event = Event(name: string, date: int)

  /** The price history of a ticker. A ticker the provider has no data for
      gets an empty history, as the download does, and so yields no record. */
  function SeriesFor(prices: map<Ticker, Series>, t: Ticker): (s: Series)
    ensures t !in prices ==> s == []
    ensures t in prices ==> s == prices[t]
  {
    if t in prices then prices[t] else []
  }

  /** The (ticker, event) pairs of one ticker, in event order. */
  function TickerPairs(t: Ticker, evs: seq<Event>): (ps: seq<(Ticker, Event)>)
    ensures |ps| == |evs|
    ensures forall k :: 0 <= k < |evs| ==> ps[k] == (t, evs[k])
  {
    seq(|evs|, k requires 0 <= k < |evs| => (t, evs[k]))
  }

  /** The number of events over all tickers. */
  function EventCount(events: seq<(Ticker, seq<Event>)>): nat
  {
    if |events| == 0 then 0
    else EventCount(events[..|events| - 1]) + |events[|events| - 1].1|
  }

  /** Where the pairs of ticker `i` start: after all events of the tickers
      before it. */
  function Offset(events: seq<(Ticker, seq<Event>)>, i: nat): nat
    requires i <= |events|
  {
    EventCount(events[..i])
  }

  /** Every (ticker, event) pair in iteration order: one per event, the
      tickers in the order given and each ticker's events in the order
      given (`PairsAt` places each one). */
  function Pairs(events: seq<(Ticker, seq<Event>)>): (ps: seq<(Ticker, Event)>)
    ensures |ps| == EventCount(events)
  {
    if |events| == 0 then []
    else
      var n := |events| - 1;
      Pairs(events[..n]) + TickerPairs(events[n].0, events[n].1)
  }

  /** Event `j` of ticker `i` is the pair at position `Offset(events, i) + j`. */
  lemma {:induction false} PairsAt(events: seq<(Ticker, seq<Event>)>, i: nat, j: nat)
    requires i < |events| && j < |events[i].1|
    ensures Offset(events, i) + j < |Pairs(events)|
    ensures Pairs(events)[Offset(events, i) + j] == (events[i].0, events[i].1[j])
    decreases |events|
  {
    var n := |events| - 1;
    var init := events[..n];
    if i < n {
      assert init[..i] == events[..i] && init[i] == events[i];
      PairsAt(init, i, j);
    } else {
      assert events[..i] == init;
    }
  }

  /** The outcome of one pair: a record, or nothing when the guard skips it.
      It depends on that pair and its ticker's prices alone. */
  function EventOutcome(root: real -> real, prices: map<Ticker, Series>, p: (Ticker, Event), w: nat)
    : (o: Option<VolatilityRecord>)
    ensures o.Some? ==> o.value.ticker == p.0 && o.value.event == p.1.name && o.value.date == p.1.date
  {
    var v := EventVolatility(root, SeriesFor(prices, p.0), p.1.date, w);
    EvaluateEvent(p.0, p.1.name, p.1.date, v.0, v.1)
  }

  lemma EventOutcomeValid(root: real -> real, prices: map<Ticker, Series>, p: (Ticker, Event), w: nat)
    ensures var o := EventOutcome(root, prices, p, w);
            o.Some? ==> ValidRecord(o.value)
  {
    var v := EventVolatility(root, SeriesFor(prices, p.0), p.1.date, w);
    EvaluateEventValid(p.0, p.1.name, p.1.date, v.0, v.1);
  }

  /** A ticker without price data has empty windows, so none of its events
      yields a record. */
  lemma MissingTickerSkipped(root: real -> real, prices: map<Ticker, Series>, p: (Ticker, Event), w: nat)
    requires p.0 !in prices
    ensures EventOutcome(root, prices, p, w) == None
  {
    var ws := EventWindows([], p.1.date, w);
    assert |ws.0| == 0 && |ws.1| == 0;
  }

  /** The per-pair evaluation of one run: `EventOutcome` with the run's
      square root, prices and window fixed. */
  function Evaluator(root: real -> real, prices: map<Ticker, Series>, w: nat): ((Ticker, Event)) -> Option<VolatilityRecord>
  {
    p => EventOutcome(root, prices, p, w)
  }

  /** `f` applied to every element, in order. */
  function Map<P, R>(f: P -> R, ps: seq<P>): (rs: seq<R>)
    ensures |rs| == |ps|
    ensures forall i :: 0 <= i < |ps| ==> rs[i] == f(ps[i])
  {
    seq(|ps|, i requires 0 <= i < |ps| => f(ps[i]))
  }

  lemma MapAppend<P, R>(f: P -> R, ps: seq<P>, qs: seq<P>)
    ensures Map(f, ps + qs) == Map(f, ps) + Map(f, qs)
  {
  }

  /** The outcome of every pair, position by position: the reference the
      batch is measured against. */
  function Outcomes(root: real -> real, prices: map<Ticker, Series>, ps: seq<(Ticker, Event)>, w: nat)
    : (os: seq<Option<VolatilityRecord>>)
  {
    Map(Evaluator(root, prices, w), ps)
  }

  lemma PairsSnoc(events: seq<(Ticker, seq<Event>)>, i: nat)
    requires i < |events|
    ensures Pairs(events[..i + 1]) == Pairs(events[..i]) + TickerPairs(events[i].0, events[i].1)
  {
    assert events[..i + 1][..i] == events[..i];
  }

  lemma TickerPairsSnoc(t: Ticker, evs: seq<Event>, j: nat)
    requires j < |evs|
    ensures TickerPairs(t, evs[..j + 1]) == TickerPairs(t, evs[..j]) + [(t, evs[j])]
  {
  }

  /** Every entry of the defined outcomes of the batch is a valid record
      coming from one of the pairs. */
  lemma SomesOfOutcomes(root: real -> real, prices: map<Ticker, Series>, ps: seq<(Ticker, Event)>, w: nat)
    ensures var rs := Somes(Outcomes(root, prices, ps, w));
            forall k :: 0 <= k < |rs| ==>
              && ValidRecord(rs[k])
              && exists i :: 0 <= i < |ps| && EventOutcome(root, prices, ps[i], w) == Some(rs[k])
  {
    var os := Outcomes(root, prices, ps, w);
    var rs := Somes(os);
    forall k | 0 <= k < |rs|
      ensures ValidRecord(rs[k])
      ensures exists i :: 0 <= i < |ps| && EventOutcome(root, prices, ps[i], w) == Some(rs[k])
    {
      var i := SomesTrace(os, k);
      assert os[i] == EventOutcome(root, prices, ps[i], w);
      EventOutcomeValid(root, prices, ps[i], w);
    }
  }

  /** The records of one ticker's events (the inner loop, lines 108-128):
      each event is evaluated in order and its record, if any, appended. */
  method CollectTicker<R>(eval: ((Ticker, Event)) -> Option<R>, t: Ticker, evs: seq<Event>)
    returns (records: seq<R>)
    ensures records == Somes(Map(eval, TickerPairs(t, evs)))
  {
    records := [];
    var j := 0;
    while j < |evs|
      invariant 0 <= j <= |evs|
      invariant records == Somes(Map(eval, TickerPairs(t, evs[..j])))
    {
      var o := eval((t, evs[j]));
      TickerPairsSnoc(t, evs, j);
      MapAppend(eval, TickerPairs(t, evs[..j]), [(t, evs[j])]);
      SomesSnoc(Map(eval, TickerPairs(t, evs[..j])), o);
      if o.Some? {
        records := records + [o.value];
      }
      j := j + 1;
    }
    assert evs[..|evs|] == evs;
  }

  /** The loop over tickers (lines 100-132): each ticker's records appended
      in ticker order. */
  method Collect<R>(eval: ((Ticker, Event)) -> Option<R>, events: seq<(Ticker, seq<Event>)>)
    returns (results: seq<R>)
    ensures results == Somes(Map(eval, Pairs(events)))
  {
    results := [];
    var i := 0;
    while i < |events|
      invariant 0 <= i <= |events|
      invariant results == Somes(Map(eval, Pairs(events[..i])))
    {
      var records := CollectTicker(eval, events[i].0, events[i].1);
      var done := Pairs(events[..i]);
      var more := TickerPairs(events[i].0, events[i].1);
      PairsSnoc(events, i);
      MapAppend(eval, done, more);
      SomesAppend(Map(eval, done), Map(eval, more));
      results := results + records;
      i := i + 1;
    }
    assert events[..|events|] == events;
  }

  /** The results table of a run (`analyze_all_events`): the defined
      outcomes of every (ticker, event) pair in iteration order, no more
      records than events, every record valid and coming from one event. */
  method AnalyzeAllEvents(root: real -> real, prices: map<Ticker, Series>, events: seq<(Ticker, seq<Event>)>, w: nat)
    returns (results: seq<VolatilityRecord>)
    ensures results == Somes(Outcomes(root, prices, Pairs(events), w))
    ensures |results| <= |Pairs(events)|
    ensures forall k :: 0 <= k < |results| ==> ValidRecord(results[k])
    ensures forall k :: 0 <= k < |results| ==>
              exists i :: 0 <= i < |Pairs(events)| && EventOutcome(root, prices, Pairs(events)[i], w) == Some(results[k])
  {
    results := Collect(Evaluator(root, prices, w), events);
    SomesOfOutcomes(root, prices, Pairs(events), w);
  }

  /** The batch with the source's default window of 5 trading days. */
  method AnalyzeAllEventsDefault(root: real -> real, prices: map<Ticker, Series>, events: seq<(Ticker, seq<Event>)>)
    returns (results: seq<VolatilityRecord>)
    ensures results == Somes(Outcomes(root, prices, Pairs(events), WindowLocator.DefaultWindow))
  {
    results := AnalyzeAllEvents(root, prices, events, WindowLocator.DefaultWindow);
  }
}
