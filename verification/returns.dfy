/** Daily returns of a close-price sequence: pandas `pct_change`
    (news_volatility_analysis.py, line 73). */
module ReturnSeries {

  /** A daily return as pandas holds it: NaN when there is no previous close
      or both closes are 0 (0/0), an infinity when a nonzero close follows a
      zero one (x/0), and otherwise a finite value. */
  datatype DailyReturn = NaN | Infinite | Finite(value: real)

  /** The relative change from `prev` to `cur` (`cur / prev - 1`). */
  function ReturnAt(prev: real, cur: real): DailyReturn {
    if prev != 0.0 then Finite(cur / prev - 1.0)
    else if cur == 0.0 then NaN
    else Infinite
  }

  /** One return per close. The first is NaN (no previous close); a return
      is finite exactly when its previous close is nonzero, and infinite
      exactly when a nonzero close follows a zero one. */
  function Returns(closes: seq<real>): (r: seq<DailyReturn>)
    ensures |r| == |closes|
    ensures |r| > 0 ==> r[0] == NaN
    ensures forall i {:trigger r[i]} :: 1 <= i < |r| ==> (r[i].Finite? <==> closes[i - 1] != 0.0)
    ensures forall i {:trigger r[i]} :: 1 <= i < |r| ==> (r[i].Infinite? <==> closes[i - 1] == 0.0 && closes[i] != 0.0)
  {
    seq(|closes|, i requires 0 <= i < |closes| =>
          if i == 0 then NaN else ReturnAt(closes[i - 1], closes[i]))
  }

  /** Every finite return compounds the previous close exactly into the
      current one: close[i] == close[i-1] * (1 + return[i]). */
  lemma ReturnRoundTrip(closes: seq<real>, i: nat)
    requires 1 <= i < |closes| && closes[i - 1] != 0.0
    ensures Returns(closes)[i].Finite?
    ensures closes[i] == closes[i - 1] * (1.0 + Returns(closes)[i].value)
  {
    assert Returns(closes)[i] == ReturnAt(closes[i - 1], closes[i]);
    CompoundStep(closes[i - 1], closes[i]);
  }

  lemma CompoundStep(prev: real, cur: real)
    requires prev != 0.0
    ensures ReturnAt(prev, cur).Finite?
    ensures prev * (1.0 + ReturnAt(prev, cur).value) == cur
  {
    var q := cur / prev;
    assert prev * q == cur;
    assert 1.0 + (q - 1.0) == q;
  }

  /** Compounds `growth` onto a starting close: the inverse of `Returns`. */
  function Compound(first: real, growth: seq<real>): (c: seq<real>)
    ensures |c| == |growth| + 1
    decreases |growth|
  {
    if |growth| == 0 then [first]
    else [first] + Compound(first * (1.0 + growth[0]), growth[1..])
  }

  /** Compounding any growth that links each close to the next rebuilds the
      closes from the first one. */
  lemma {:induction false} CompoundRebuilds(closes: seq<real>, growth: seq<real>)
    requires |closes| == |growth| + 1
    requires forall i :: 0 <= i < |growth| ==> closes[i + 1] == closes[i] * (1.0 + growth[i])
    ensures Compound(closes[0], growth) == closes
    decreases |growth|
  {
    if |growth| > 0 {
      var tail, gt := closes[1..], growth[1..];
      forall i | 0 <= i < |gt|
        ensures tail[i + 1] == tail[i] * (1.0 + gt[i])
      {
        assert tail[i + 1] == closes[i + 2] && tail[i] == closes[i + 1] && gt[i] == growth[i + 1];
      }
      CompoundRebuilds(tail, gt);
      assert tail[0] == closes[0] * (1.0 + growth[0]);
      assert Compound(closes[0], growth) == [closes[0]] + Compound(tail[0], gt);
      assert [closes[0]] + tail == closes;
    }
  }

  /** The finite returns of a series with no zero close (the last may be
      anything) rebuild the whole series from its first close. */
  lemma CompoundReturns(closes: seq<real>)
    requires |closes| >= 1
    requires forall i :: 0 <= i < |closes| - 1 ==> closes[i] != 0.0
    ensures var r := Returns(closes);
            Compound(closes[0], seq(|closes| - 1, i requires 0 <= i < |closes| - 1 => r[i + 1].value)) == closes
  {
    var r := Returns(closes);
    var g := seq(|closes| - 1, i requires 0 <= i < |closes| - 1 => r[i + 1].value);
    forall i | 0 <= i < |g|
      ensures closes[i + 1] == closes[i] * (1.0 + g[i])
    {
      ReturnRoundTrip(closes, i + 1);
      assert g[i] == r[i + 1].value;
    }
    CompoundRebuilds(closes, g);
  }
}
