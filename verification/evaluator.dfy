/** Volatility before and after one event, and the guard that turns the pair
    into a result record (news_volatility_analysis.py lines 58-92 and 110-128). */
module VolatilityEvaluator {
  import opened Wrappers
  import opened ReturnSeries
  import opened WindowLocator
  import opened Stats

  /** One trading session of a price history. */
  datatype PricePoint = PricePoint(date: int, close: real)

  /** A price history, one point per session, in date order. */
  type Series = seq<PricePoint>

  function Dates(s: Series): (d: seq<int>)
    ensures |d| == |s| && forall i :: 0 <= i < |s| ==> d[i] == s[i].date
  {
    seq(|s|, i requires 0 <= i < |s| => s[i].date)
  }

  function Closes(s: Series): (c: seq<real>)
    ensures |c| == |s| && forall i :: 0 <= i < |s| ==> c[i] == s[i].close
  {
    seq(|s|, i requires 0 <= i < |s| => s[i].close)
  }

  /** One row of the results table. */
  datatype VolatilityRecord = VolatilityRecord(
    ticker: string,
    event: string,
    date: int,
    beforeVolatility: real,
    afterVolatility: real,
    change: real,
    changePct: real)

  /** What every stored record satisfies: both volatilities strictly
      positive, the change is after minus before, and the percentage change
      is the change relative to the before volatility, times 100. */
  ghost predicate ValidRecord(r: VolatilityRecord) {
    && r.beforeVolatility > 0.0
    && r.afterVolatility > 0.0
    && r.change == r.afterVolatility - r.beforeVolatility
    && r.changePct * r.beforeVolatility == r.change * 100.0
  }

  function Sign(x: real): int {
    if x > 0.0 then 1 else if x < 0.0 then -1 else 0
  }

  /** The two windows of an event on one series (`iloc` at lines 81 and 86):
      the returns at the positions `Locate` gives, one per position. */
  function EventWindows(s: Series, d: int, w: nat): (ws: (seq<DailyReturn>, seq<DailyReturn>))
    ensures var win := Locate(Dates(s), d, w);
            && |ws.0| == win.beforeEnd - win.beforeStart
            && |ws.1| == win.afterEnd - win.afterStart
  {
    var win := Locate(Dates(s), d, w);
    var rets := Returns(Closes(s));
    (rets[win.beforeStart..win.beforeEnd], rets[win.afterStart..win.afterEnd])
  }

  /** The before window holds exactly the returns at the positions of the
      before range, in order, and the after window those of the after range. */
  lemma EventWindowsCover(s: Series, d: int, w: nat)
    ensures var win := Locate(Dates(s), d, w);
            var rets := Returns(Closes(s));
            var ws := EventWindows(s, d, w);
            && (forall j :: win.InBefore(j) ==> ws.0[j - win.beforeStart] == rets[j])
            && (forall j :: win.InAfter(j) ==> ws.1[j - win.afterStart] == rets[j])
  {
    var win := Locate(Dates(s), d, w);
    var rets := Returns(Closes(s));
    SliceCover(rets, win.beforeStart, win.beforeEnd);
    SliceCover(rets, win.afterStart, win.afterEnd);
  }

  lemma SliceCover(rets: seq<DailyReturn>, a: nat, b: nat)
    requires a <= b <= |rets|
    ensures forall j :: a <= j < b ==> rets[a..b][j - a] == rets[j]
  {
  }

  /** The before and after volatility of an event: each is defined exactly
      when its window holds no infinite return and at least two finite ones. */
  function EventVolatility(root: real -> real, s: Series, d: int, w: nat): (v: (Option<real>, Option<real>))
    ensures var ws := EventWindows(s, d, w);
            && (v.0.Some? <==> !HasInfinite(ws.0) && |Defined(ws.0)| >= 2)
            && (v.1.Some? <==> !HasInfinite(ws.1) && |Defined(ws.1)| >= 2)
  {
    var ws := EventWindows(s, d, w);
    (Volatility(root, ws.0), Volatility(root, ws.1))
  }

  /** The source's coercion of an undefined volatility to 0 (lines 113-114):
      a defined volatility is kept, an undefined one reads as 0. */
  function Coerce(v: Option<real>): (c: real)
    ensures v.Some? ==> c == v.value
    ensures v.None? ==> c == 0.0
  {
    v.GetOr(0.0)
  }

  /** The guard and record construction (lines 113-128). Coercing an
      undefined volatility to 0 and then demanding both be positive is the
      same as skipping every event whose volatility is undefined or not
      positive: no value is ever fabricated. */
  function EvaluateEvent(ticker: string, eventName: string, date: int, before: Option<real>, after: Option<real>)
    : (r: Option<VolatilityRecord>)
    ensures r.Some? <==> before.Some? && after.Some? && before.value > 0.0 && after.value > 0.0
    ensures r.Some? ==>
              && r.value.ticker == ticker && r.value.event == eventName && r.value.date == date
              && r.value.beforeVolatility == before.value
              && r.value.afterVolatility == after.value
  {
    var b := Coerce(before);
    var a := Coerce(after);
    if b > 0.0 && a > 0.0 then
      var change := a - b;
      Some(VolatilityRecord(ticker, eventName, date, b, a, change, change / b * 100.0))
    else
      None
  }

  /** Every record the guard lets through is valid: positive volatilities,
      the change is after minus before, and the percentage is that change
      relative to the before volatility. */
  lemma EvaluateEventValid(ticker: string, eventName: string, date: int, before: Option<real>, after: Option<real>)
    ensures var r := EvaluateEvent(ticker, eventName, date, before, after);
            r.Some? ==> ValidRecord(r.value)
  {
    var r := EvaluateEvent(ticker, eventName, date, before, after);
    if r.Some? {
      PercentScales(r.value.change, r.value.beforeVolatility);
    }
  }

  lemma PercentScales(change: real, b: real)
    requires b > 0.0
    ensures change / b * 100.0 * b == change * 100.0
  {
    var q := change / b;
    assert q * b == change;
    calc {
      q * 100.0 * b;
      == (q * b) * 100.0;
      == change * 100.0;
    }
  }

  /** The percentage change of a valid record has the sign of its change. */
  lemma ChangePctSign(r: VolatilityRecord)
    requires ValidRecord(r)
    ensures Sign(r.changePct) == Sign(r.change)
  {
    var b := r.beforeVolatility;
    if r.changePct > 0.0 {
      calc {
        r.change * 100.0;
        == r.changePct * b;
        > 0.0 * b;
      }
    } else if r.changePct < 0.0 {
      calc {
        r.change * 100.0;
        == r.changePct * b;
        < 0.0 * b;
      }
    }
  }

  /** A window that can carry a positive volatility: no infinite return,
      and at least two finite returns, not all equal. */
  ghost predicate Informative(window: seq<DailyReturn>) {
    var xs := Defined(window);
    && !HasInfinite(window)
    && |xs| >= 2
    && exists i :: 0 <= i < |xs| && xs[i] != xs[0]
  }

  /** With a true square root, an event yields a record exactly when both of
      its windows are informative; an event with an infinite return, too few
      finite returns, or all-equal returns on either side is skipped. */
  lemma RecordIffInformative(root: real -> real, ticker: string, eventName: string, s: Series, d: int, w: nat)
    requires IsSquareRoot(root)
    ensures var ws := EventWindows(s, d, w);
            var v := EventVolatility(root, s, d, w);
            (EvaluateEvent(ticker, eventName, d, v.0, v.1).Some? <==>
               Informative(ws.0) && Informative(ws.1))
  {
    var ws := EventWindows(s, d, w);
    var b, a := Defined(ws.0), Defined(ws.1);
    if !HasInfinite(ws.0) && |b| >= 2 {
      VolatilityPositiveIffVariance(root, ws.0);
      SampleVarianceZeroIffConstant(b);
    }
    if !HasInfinite(ws.1) && |a| >= 2 {
      VolatilityPositiveIffVariance(root, ws.1);
      SampleVarianceZeroIffConstant(a);
    }
  }
}
