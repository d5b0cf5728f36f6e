/** Concrete instances of the window, return, guard and ranking rules, fixed
    as regression vectors. */
module RegressionVectors {
  import opened Wrappers
  import opened ReturnSeries
  import opened Stats
  import opened WindowLocator
  import opened VolatilityEvaluator
  import opened Ranking

  /** An event dated between two sessions, window 1: the anchor is the first
      later session, the before window reaches back two returns (w + 1) and
      the after window holds one. */
  lemma LocateVector()
    ensures Locate([10, 20, 30, 40], 25, 1) == Window(2, 0, 2, 2, 3)
  {
    assert Anchor([10, 20, 30, 40], 25) == 2 by {
      SearchSortedIsAnchor([10, 20, 30, 40], 25, 2);
    }
  }

  /** An event dated after the last session anchors past the end: the
      after window is empty and the before window covers the last sessions. */
  lemma LateEventVector()
    ensures Locate([10, 20, 30], 99, 5) == Window(3, 0, 3, 3, 3)
  {
    assert Anchor([10, 20, 30], 99) == 3 by {
      SearchSortedIsAnchor([10, 20, 30], 99, 3);
    }
  }

  /** A nonzero close after a zero one gives an infinite return; two zero
      closes in a row give NaN. */
  lemma ZeroCloseVector()
    ensures Returns([100.0, 50.0, 0.0, 10.0, 0.0, 0.0])
            == [NaN, Finite(-0.5), Finite(-1.0), Infinite, Finite(-1.0), NaN]
  {
    assert ReturnAt(100.0, 50.0) == Finite(-0.5);
    assert ReturnAt(50.0, 0.0) == Finite(-1.0);
  }

  /** Closes 1, 0, 1, 2, 6, 12, 36 on dates 1 .. 7. */
  function ZeroCloseSeries(): Series {
    [PricePoint(1, 1.0), PricePoint(2, 0.0), PricePoint(3, 1.0), PricePoint(4, 2.0),
     PricePoint(5, 6.0), PricePoint(6, 12.0), PricePoint(7, 36.0)]
  }

  /** An event on date 6 with the default window: the before window covers
      positions 0 .. 4, the after window positions 5 .. 6. */
  lemma ZeroCloseWindow()
    ensures Locate(Dates(ZeroCloseSeries()), 6, DefaultWindow) == Window(5, 0, 5, 5, 7)
  {
    assert Dates(ZeroCloseSeries()) == [1, 2, 3, 4, 5, 6, 7];
    SearchSortedIsAnchor([1, 2, 3, 4, 5, 6, 7], 6, 5);
  }

  lemma ZeroCloseReturn()
    ensures Returns(Closes(ZeroCloseSeries()))[2] == Infinite
  {
    assert Closes(ZeroCloseSeries())[1] == 0.0 && Closes(ZeroCloseSeries())[2] == 1.0;
  }

  /** The before window of that event holds the infinite return after the
      zero close, so its volatility is undefined and the event is skipped. */
  lemma InfiniteReturnVector(root: real -> real)
    ensures EventVolatility(root, ZeroCloseSeries(), 6, DefaultWindow).0 == None
    ensures var v := EventVolatility(root, ZeroCloseSeries(), 6, DefaultWindow);
            EvaluateEvent("AAPL", "launch", 6, v.0, v.1) == None
  {
    var s := ZeroCloseSeries();
    ZeroCloseWindow();
    ZeroCloseReturn();
    EventWindowsCover(s, 6, DefaultWindow);
    var ws := EventWindows(s, 6, DefaultWindow);
    assert ws.0[2] == Infinite;
    assert HasInfinite(ws.0);
  }

  /** A volatility rising from 2 to 3 is a +50% change. */
  lemma RecordVector()
    ensures EvaluateEvent("AAPL", "launch", 7, Some(2.0), Some(3.0))
            == Some(VolatilityRecord("AAPL", "launch", 7, 2.0, 3.0, 1.0, 50.0))
  {
  }

  /** An undefined before volatility skips the event. */
  lemma SkippedVector()
    ensures EvaluateEvent("AAPL", "launch", 7, None, Some(3.0)) == None
  {
  }

  /** Two rows tied for the largest change keep their table order in the
      top three, ahead of the smaller change. */
  lemma TopTieVector()
    ensures TopN([1.0, 5.0, 5.0, 2.0], 3) == [1, 2, 3]
  {
    var keys := [1.0, 5.0, 5.0, 2.0];
    var r := TopN(keys, 3);
    assert |r| == 3;
    assert forall i :: 0 <= i < 3 ==> r[i] in {1, 2, 3};
    assert r[0] == 1 && r[1] == 2 && r[2] == 3;
  }
}
