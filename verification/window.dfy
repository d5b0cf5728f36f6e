/** Locating an event in a date index and cutting the windows around it
    (`calculate_event_volatility`, news_volatility_analysis.py lines 76-86).
    Dates are integers (for example, days since an epoch). */
module WindowLocator {

  /** The trading-day length of each window when the caller gives none. */
  const DefaultWindow: nat := 5

  /** A date index as pandas keeps it for a price history: ascending. */
  predicate Sorted(index: seq<int>) {
    forall i, j :: 0 <= i < j < |index| ==> index[i] <= index[j]
  }

  /** One observation per trading session: strictly ascending. */
  predicate StrictlyIncreasing(index: seq<int>) {
    forall i, j :: 0 <= i < j < |index| ==> index[i] < index[j]
  }

  /** The anchor of an event (numpy `searchsorted`, left side): the first
      position whose date is not before `d`, or `|index|` when every date
      is before `d`. */
  function Anchor(index: seq<int>, d: int): (p: nat)
    ensures p <= |index|
    ensures forall j :: 0 <= j < p ==> index[j] < d
    ensures p < |index| ==> index[p] >= d
  {
    if |index| == 0 || index[0] >= d then 0 else 1 + Anchor(index[1..], d)
  }

  /** The binary search numpy performs; on an ascending index it finds the
      same anchor as the first-position definition. */
  method SearchSorted(index: seq<int>, d: int) returns (p: nat)
    requires Sorted(index)
    ensures p <= |index|
    ensures forall j :: 0 <= j < p ==> index[j] < d
    ensures forall j :: p <= j < |index| ==> index[j] >= d
    ensures p == Anchor(index, d)
  {
    var lo, hi := 0, |index|;
    while lo < hi
      invariant 0 <= lo <= hi <= |index|
      invariant forall j :: 0 <= j < lo ==> index[j] < d
      invariant forall j :: hi <= j < |index| ==> index[j] >= d
      decreases hi - lo
    {
      var mid := lo + (hi - lo) / 2;
      if index[mid] < d {
        lo := mid + 1;
      } else {
        hi := mid;
      }
    }
    p := lo;
    SearchSortedIsAnchor(index, d, p);
  }

  /** The binary search and the first-position definition agree. */
  lemma SearchSortedIsAnchor(index: seq<int>, d: int, p: nat)
    requires p <= |index|
    requires forall j :: 0 <= j < p ==> index[j] < d
    requires forall j :: p <= j < |index| ==> index[j] >= d
    ensures p == Anchor(index, d)
  {
    var q := Anchor(index, d);
    if q < |index| {
      assert index[q] >= d;
    }
    if p < |index| {
      assert index[p] >= d;
    }
  }

  /** On an ascending index every date from the anchor on is not before `d`. */
  lemma AnchorSplits(index: seq<int>, d: int)
    requires Sorted(index)
    ensures var p := Anchor(index, d);
            forall j :: p <= j < |index| ==> index[j] >= d
  {
  }

  /** An event date present in a strictly ascending index anchors at its own position. */
  lemma AnchorOfListedDate(index: seq<int>, k: nat)
    requires StrictlyIncreasing(index)
    requires k < |index|
    ensures Anchor(index, index[k]) == k
  {
  }

  /** A later event never gets an earlier anchor. */
  lemma AnchorMonotone(index: seq<int>, d1: int, d2: int)
    requires d1 <= d2
    ensures Anchor(index, d1) <= Anchor(index, d2)
  {
  }

  /** The windows of one event: half-open ranges over the return series. */
  datatype Window = Window(anchor: nat, beforeStart: nat, beforeEnd: nat, afterStart: nat, afterEnd: nat)
  {
    predicate InBefore(j: int) { beforeStart <= j < beforeEnd }
    predicate InAfter(j: int) { afterStart <= j < afterEnd }
  }

  /** The before window holds the `w + 1` positions just ahead of the
      anchor, the after window the `w` positions from the anchor on, each
      clipped to the series. */
  function Locate(index: seq<int>, d: int, w: nat): (win: Window)
    ensures win.anchor == Anchor(index, d)
    ensures win.beforeStart <= win.beforeEnd == win.anchor == win.afterStart <= win.afterEnd <= |index|
    ensures forall j :: win.InBefore(j) <==> 0 <= j < win.anchor && win.anchor - j <= w + 1
    ensures forall j :: win.InAfter(j) <==> win.anchor <= j < |index| && j - win.anchor < w
  {
    var p := Anchor(index, d);
    Window(p, if p - w - 1 > 0 then p - w - 1 else 0, p, p, if |index| < p + w then |index| else p + w)
  }

  /** Bounds of the before window: at most `w + 1` long, empty exactly when
      the anchor is at the start, full length once the anchor is far enough in. */
  lemma BeforeWindowBounds(index: seq<int>, d: int, w: nat)
    ensures var win := Locate(index, d, w);
            && win.beforeEnd - win.beforeStart <= w + 1
            && (win.beforeStart == win.beforeEnd <==> win.anchor == 0)
            && (win.anchor >= w + 1 ==> win.beforeEnd - win.beforeStart == w + 1)
  {
    var win := Locate(index, d, w);
    assert win.InBefore(win.anchor - 1) <==> win.anchor >= 1;
    if win.anchor >= w + 1 {
      assert win.InBefore(win.anchor - w - 1);
      assert !win.InBefore(win.anchor - w - 2);
    } else {
      assert win.anchor > 0 ==> win.InBefore(0);
    }
  }

  /** Bounds of the after window: at most `w` long, empty exactly when the
      anchor is past the last date (for `w >= 1`), full length when `w`
      dates remain. */
  lemma AfterWindowBounds(index: seq<int>, d: int, w: nat)
    ensures var win := Locate(index, d, w);
            && win.afterEnd - win.afterStart <= w
            && (w >= 1 ==> (win.afterStart == win.afterEnd <==> win.anchor == |index|))
            && (win.anchor + w <= |index| ==> win.afterEnd - win.afterStart == w)
  {
    var win := Locate(index, d, w);
    assert w >= 1 && win.anchor < |index| ==> win.InAfter(win.anchor);
    if win.anchor + w <= |index| && w >= 1 {
      assert win.InAfter(win.anchor + w - 1);
    }
  }

  /** On an ascending index every date in the before window is earlier than
      the event and every date in the after window is not: the windows never
      straddle the event. */
  lemma WindowsStraddleEvent(index: seq<int>, d: int, w: nat)
    requires Sorted(index)
    ensures var win := Locate(index, d, w);
            && (forall j :: win.InBefore(j) ==> index[j] < d)
            && (forall j :: win.InAfter(j) ==> index[j] >= d)
  {
    AnchorSplits(index, d);
  }

  /** Every boundary of the windows moves forward (or stays) as the event date moves forward. */
  lemma LocateMonotone(index: seq<int>, d1: int, d2: int, w: nat)
    requires d1 <= d2
    ensures var a, b := Locate(index, d1, w), Locate(index, d2, w);
            && a.beforeStart <= b.beforeStart && a.beforeEnd <= b.beforeEnd
            && a.afterStart <= b.afterStart && a.afterEnd <= b.afterEnd
  {
    AnchorMonotone(index, d1, d2);
  }
}
