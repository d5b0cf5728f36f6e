/** The aggregates `print_summary_stats` reports over the results table
    (news_volatility_analysis.py lines 197-218), without the printing.
    Every aggregate that divides by the number of rows is an `Option`,
    `None` for an empty table. The source itself fails on an empty table
    (its `len(results_df)` divisor at line 205 is 0, and the empty frame has
    no change column); reporting "undefined" instead is a deliberate
    strengthening. */
module Summary {
  import opened Wrappers
  import opened Stats
  import opened Ranking
  import opened VolatilityEvaluator

  /** How many of the largest increases are listed. */
  const TopCount: nat := 3

  function ChangePcts(rs: seq<VolatilityRecord>): (ps: seq<real>)
    ensures |ps| == |rs| && forall i :: 0 <= i < |rs| ==> ps[i] == rs[i].changePct
  {
    seq(|rs|, i requires 0 <= i < |rs| => rs[i].changePct)
  }

  function Tickers(rs: seq<VolatilityRecord>): (ts: seq<string>)
    ensures |ts| == |rs| && forall i :: 0 <= i < |rs| ==> ts[i] == rs[i].ticker
  {
    seq(|rs|, i requires 0 <= i < |rs| => rs[i].ticker)
  }

  /** How many values satisfy `p`. */
  function Count(xs: seq<real>, p: real -> bool): (c: nat)
    ensures c <= |xs|
  {
    if |xs| == 0 then 0
    else Count(xs[..|xs| - 1], p) + (if p(xs[|xs| - 1]) then 1 else 0)
  }

  /** The positions whose value satisfies `p`: the rows a boolean mask
      selects. */
  function Matching<T>(xs: seq<T>, p: T -> bool): set<nat> {
    set i: nat | i < |xs| && p(xs[i])
  }

  /** The last position joins the selection exactly when it satisfies `p`. */
  lemma MatchingSnoc<T>(xs: seq<T>, p: T -> bool)
    requires |xs| > 0
    ensures var n := |xs| - 1;
            && n !in Matching(xs[..n], p)
            && Matching(xs, p) == Matching(xs[..n], p) + (if p(xs[n]) then {n} else {})
  {
    var n := |xs| - 1;
    assert forall i :: 0 <= i < n ==> xs[..n][i] == xs[i];
  }

  lemma MatchingSnocSize<T>(xs: seq<T>, p: T -> bool)
    requires |xs| > 0
    ensures var n := |xs| - 1;
            |Matching(xs, p)| == |Matching(xs[..n], p)| + (if p(xs[n]) then 1 else 0)
  {
    MatchingSnoc(xs, p);
  }

  /** Counting is the size of the mask's selection. */
  lemma {:induction false} CountIsMatching(xs: seq<real>, p: real -> bool)
    ensures Count(xs, p) == |Matching(xs, p)|
  {
    if |xs| > 0 {
      CountIsMatching(xs[..|xs| - 1], p);
      MatchingSnoc(xs, p);
    }
  }

  /** The number of rows with a strictly positive change (line 202). */
  function Increased(xs: seq<real>): (c: nat)
    ensures c == |set i: nat | i < |xs| && xs[i] > 0.0|
  {
    CountIsMatching(xs, x => x > 0.0);
    assert Matching(xs, x => x > 0.0) == set i: nat | i < |xs| && xs[i] > 0.0;
    Count(xs, x => x > 0.0)
  }

  /** The number of rows with a strictly negative change (line 203). */
  function Decreased(xs: seq<real>): (c: nat)
    ensures c == |set i: nat | i < |xs| && xs[i] < 0.0|
  {
    CountIsMatching(xs, x => x < 0.0);
    assert Matching(xs, x => x < 0.0) == set i: nat | i < |xs| && xs[i] < 0.0;
    Count(xs, x => x < 0.0)
  }

  function Unchanged(xs: seq<real>): nat { Count(xs, x => x == 0.0) }

  /** Every row is in exactly one of the strict buckets or has no change:
      rows with a zero change are counted as neither increase nor decrease. */
  lemma {:induction false} DirectionCountsPartition(xs: seq<real>)
    ensures Increased(xs) + Decreased(xs) + Unchanged(xs) == |xs|
  {
    if |xs| > 0 {
      DirectionCountsPartition(xs[..|xs| - 1]);
    }
  }

  /** No value is counted exactly when none satisfies `p`. */
  lemma {:induction false} CountZeroIff(xs: seq<real>, p: real -> bool)
    ensures Count(xs, p) == 0 <==> forall i :: 0 <= i < |xs| ==> !p(xs[i])
  {
    if |xs| > 0 {
      var init := xs[..|xs| - 1];
      CountZeroIff(init, p);
      assert forall i :: 0 <= i < |init| ==> xs[i] == init[i];
    }
  }

  /** The increases and decreases account for every row exactly when no row
      has a zero change: a zero change is counted in neither. */
  lemma StrictCountsCoverIffNoZero(xs: seq<real>)
    ensures Increased(xs) + Decreased(xs) == |xs| <==> forall i :: 0 <= i < |xs| ==> xs[i] != 0.0
  {
    DirectionCountsPartition(xs);
    CountZeroIff(xs, x => x == 0.0);
  }

  /** A count's share of `n` rows, in percent; undefined for no rows. */
  function Share(count: nat, n: nat): (s: Option<real>)
    ensures s.Some? <==> n > 0
    ensures s.Some? && count <= n ==> 0.0 <= s.value <= 100.0
    ensures s.Some? ==> s.value * (n as real) == (count as real) * 100.0
  {
    if n == 0 then None
    else
      var q := (count as real) / (n as real);
      assert q * (n as real) == count as real;
      assert count <= n ==> q <= 1.0;
      Some(q * 100.0)
  }

  /** The first position of `x` in `xs`. */
  function FirstIndex<T(==)>(xs: seq<T>, x: T): (i: nat)
    requires x in xs
    ensures i < |xs| && xs[i] == x
    ensures forall j :: 0 <= j < i ==> xs[j] != x
  {
    if xs[0] == x then 0 else 1 + FirstIndex(xs[1..], x)
  }

  lemma FirstIndexPrefix<T>(xs: seq<T>, n: nat, x: T)
    requires n <= |xs| && x in xs[..n]
    ensures FirstIndex(xs[..n], x) == FirstIndex(xs, x)
  {
    var i := FirstIndex(xs[..n], x);
    assert xs[i] == x;
    assert forall j :: 0 <= j < i ==> xs[j] == xs[..n][j];
  }

  /** The distinct values of `xs` in first-seen order (pandas `unique`). */
  function Unique<T(==,!new)>(xs: seq<T>): (u: seq<T>)
    ensures forall x :: x in u <==> x in xs
    ensures forall i, j :: 0 <= i < j < |u| ==> u[i] != u[j]
    ensures forall i, j :: 0 <= i < j < |u| ==> FirstIndex(xs, u[i]) < FirstIndex(xs, u[j])
  {
    if |xs| == 0 then []
    else
      var init := xs[..|xs| - 1];
      var x := xs[|xs| - 1];
      var u := Unique(init);
      assert xs == init + [x];
      assert forall y :: y in u ==> FirstIndex(xs, y) == FirstIndex(init, y) by {
        forall y | y in u ensures FirstIndex(xs, y) == FirstIndex(init, y) {
          FirstIndexPrefix(xs, |xs| - 1, y);
        }
      }
      if x in u then u
      else
        assert FirstIndex(xs, x) == |xs| - 1;
        u + [x]
  }

  /** The change percentages of one ticker's rows, in table order. */
  function GroupPcts(rs: seq<VolatilityRecord>, t: string): (g: seq<real>)
    ensures |g| == |set i: nat | i < |rs| && rs[i].ticker == t|
  {
    if |rs| == 0 then
      assert (set i: nat | i < |rs| && rs[i].ticker == t) == {};
      []
    else
      var init := rs[..|rs| - 1];
      var r := rs[|rs| - 1];
      TickerRowsSnoc(rs, t);
      GroupPcts(init, t) + (if r.ticker == t then [r.changePct] else [])
  }

  /** The last row joins its own ticker's rows and no other's. */
  lemma TickerRowsSnoc(rs: seq<VolatilityRecord>, t: string)
    requires |rs| > 0
    ensures var n := |rs| - 1;
            |set i: nat | i < |rs| && rs[i].ticker == t|
              == |set i: nat | i < n && rs[..n][i].ticker == t| + (if rs[n].ticker == t then 1 else 0)
  {
    var n := |rs| - 1;
    var p := (q: VolatilityRecord) => q.ticker == t;
    MatchingSnocSize(rs, p);
    assert Matching(rs, p) == set i: nat | i < |rs| && rs[i].ticker == t;
    assert Matching(rs[..n], p) == set i: nat | i < n && rs[..n][i].ticker == t;
  }

  /** Grouping commutes with concatenation: one ticker's changes over two
      stretches of the table are the first stretch's followed by the
      second's. */
  lemma {:induction false} GroupPctsAppend(rs: seq<VolatilityRecord>, qs: seq<VolatilityRecord>, t: string)
    ensures GroupPcts(rs + qs, t) == GroupPcts(rs, t) + GroupPcts(qs, t)
  {
    if |qs| == 0 {
      assert rs + qs == rs;
    } else {
      var init := qs[..|qs| - 1];
      assert (rs + qs)[..|rs + qs| - 1] == rs + init;
      GroupPctsAppend(rs, init, t);
    }
  }

  /** An appended row adds its change to its own ticker's group and leaves
      every other group as it was: each group is exactly the changes of
      that ticker's rows, in table order, repeats included. */
  lemma GroupPctsSnoc(rs: seq<VolatilityRecord>, r: VolatilityRecord, t: string)
    ensures GroupPcts(rs + [r], t) == GroupPcts(rs, t) + (if r.ticker == t then [r.changePct] else [])
  {
    assert (rs + [r])[..|rs|] == rs;
  }

  /** A ticker's group is nonempty exactly when the ticker is in the table. */
  lemma {:induction false} GroupPctsNonEmptyIff(rs: seq<VolatilityRecord>, t: string)
    ensures |GroupPcts(rs, t)| > 0 <==> t in Tickers(rs)
  {
    if |rs| > 0 {
      var init := rs[..|rs| - 1];
      GroupPctsNonEmptyIff(init, t);
      assert Tickers(rs) == Tickers(init) + [rs[|rs| - 1].ticker];
    }
  }

  /** The per-ticker average change, one entry per distinct ticker in
      first-seen order; each average is the mean over that ticker's rows only. */
  function TickerAverages(rs: seq<VolatilityRecord>): (avgs: seq<(string, real)>)
    ensures |avgs| == |Unique(Tickers(rs))|
    ensures forall k :: 0 <= k < |avgs| ==>
              avgs[k].0 == Unique(Tickers(rs))[k] && Mean(GroupPcts(rs, avgs[k].0)) == Some(avgs[k].1)
  {
    var u := Unique(Tickers(rs));
    assert forall k :: 0 <= k < |u| ==> |GroupPcts(rs, u[k])| > 0 by {
      forall k | 0 <= k < |u| {
        GroupPctsNonEmptyIff(rs, u[k]);
      }
    }
    seq(|u|, k requires 0 <= k < |u| => (u[k], Mean(GroupPcts(rs, u[k])).value))
  }

  /** Exactly one average per ticker present in the table, in the order the
      tickers first appear. */
  lemma TickerAveragesCoverTickers(rs: seq<VolatilityRecord>)
    ensures var avgs := TickerAverages(rs);
            && (forall i :: 0 <= i < |avgs| ==> avgs[i].0 in Tickers(rs))
            && (forall t :: t in Tickers(rs) ==> exists i :: 0 <= i < |avgs| && avgs[i].0 == t)
            && (forall i, j :: 0 <= i < j < |avgs| ==>
                  FirstIndex(Tickers(rs), avgs[i].0) < FirstIndex(Tickers(rs), avgs[j].0))
  {
    var avgs := TickerAverages(rs);
    var u := Unique(Tickers(rs));
    forall t | t in Tickers(rs) ensures exists i :: 0 <= i < |avgs| && avgs[i].0 == t {
      var i :| 0 <= i < |u| && u[i] == t;
      assert avgs[i].0 == t;
    }
  }

  /** The largest increases (line 209): the `TopCount` rows with the largest
      change (fewer when the table is shorter), largest first, earlier rows
      first among equal changes, and no row left out ranks ahead of one
      listed. */
  function TopIncreases(rs: seq<VolatilityRecord>): (top: seq<VolatilityRecord>)
    ensures |top| == Min(TopCount, |rs|)
    ensures forall i, j :: 0 <= i < j < |top| ==> top[i].changePct >= top[j].changePct
    ensures forall i :: 0 <= i < |top| ==> top[i] in rs
    ensures var idx := TopN(ChangePcts(rs), TopCount);
            && top == Select(rs, idx)
            && (forall i, j :: 0 <= i < j < |idx| && rs[idx[i]].changePct == rs[idx[j]].changePct ==> idx[i] < idx[j])
            && (forall i, y :: 0 <= i < |idx| && 0 <= y < |rs| && y !in idx ==>
                  rs[idx[i]].changePct > rs[y].changePct
                  || (rs[idx[i]].changePct == rs[y].changePct && idx[i] < y))
  {
    var idx := TopN(ChangePcts(rs), TopCount);
    Select(rs, idx)
  }

  /** The report's aggregates. */
  datatype Summary = Summary(
    total: nat,
    mean: Option<real>,
    median: Option<real>,
    increased: nat,
    decreased: nat,
    increasedShare: Option<real>,
    decreasedShare: Option<real>,
    top: seq<VolatilityRecord>,
    byTicker: seq<(string, real)>)

  /** The summary of a results table: each aggregate is the one defined
      above over the change column; on an empty table every ratio is
      undefined and the lists are empty. */
  function Summarize(rs: seq<VolatilityRecord>): (s: Summary)
    ensures s.total == |rs|
    ensures s.mean.Some? <==> |rs| > 0
    ensures s.median.Some? <==> |rs| > 0
    ensures s.increasedShare.Some? <==> |rs| > 0
    ensures s.decreasedShare.Some? <==> |rs| > 0
    ensures s.mean == Mean(ChangePcts(rs))
    ensures s.median == Median(ChangePcts(rs))
    ensures s.increased == Increased(ChangePcts(rs))
    ensures s.decreased == Decreased(ChangePcts(rs))
    ensures s.increasedShare == Share(s.increased, s.total)
    ensures s.decreasedShare == Share(s.decreased, s.total)
    ensures s.increased + s.decreased <= s.total
    ensures |rs| == 0 ==> s.top == [] && s.byTicker == []
    ensures s.top == TopIncreases(rs)
    ensures s.byTicker == TickerAverages(rs)
  {
    var pcts := ChangePcts(rs);
    var n := |rs|;
    DirectionCountsPartition(pcts);
    Summary(
      n,
      Mean(pcts),
      Median(pcts),
      Increased(pcts),
      Decreased(pcts),
      Share(Increased(pcts), n),
      Share(Decreased(pcts), n),
      TopIncreases(rs),
      TickerAverages(rs))
  }
}
