/** The optional value used wherever the analysis can produce "no data"
    (pandas NaN): an undefined volatility, an aggregate over an empty
    results table; and the filter that keeps the defined entries of a
    sequence, in order. */
module Wrappers {

  datatype Option<+T> = None | Some(value: T) {

    /** The wrapped value, or `default` when there is none. */
    function GetOr(default: T): T {
      match this
      case Some(v) => v
      case None => default
    }
  }

  /** The values of the defined entries, in order. */
  function Somes<T>(xs: seq<Option<T>>): (ys: seq<T>)
    ensures |ys| <= |xs|
    ensures forall k :: 0 <= k < |ys| ==> Some(ys[k]) in xs
    ensures forall i :: 0 <= i < |xs| && xs[i].Some? ==> xs[i].value in ys
  {
    if |xs| == 0 then []
    else
      var init := xs[..|xs| - 1];
      var rest := Somes(init);
      assert forall i :: 0 <= i < |init| ==> init[i] == xs[i];
      match xs[|xs| - 1]
      case Some(v) => rest + [v]
      case None => rest
  }

  /** Dropping undefined entries keeps the order of the rest: it commutes
      with concatenation. */
  lemma {:induction false} SomesAppend<T>(xs: seq<Option<T>>, ys: seq<Option<T>>)
    ensures Somes(xs + ys) == Somes(xs) + Somes(ys)
    decreases |ys|
  {
    if |ys| == 0 {
      assert xs + ys == xs;
    } else {
      var init := ys[..|ys| - 1];
      assert (xs + ys)[..|xs + ys| - 1] == xs + init;
      SomesAppend(xs, init);
    }
  }

  lemma SomesSnoc<T>(xs: seq<Option<T>>, o: Option<T>)
    ensures Somes(xs + [o]) == if o.Some? then Somes(xs) + [o.value] else Somes(xs)
  {
    assert (xs + [o])[..|xs|] == xs;
  }

  /** Every value kept by `Somes` is the value of some entry. */
  lemma SomesTrace<T>(xs: seq<Option<T>>, k: nat) returns (i: nat)
    requires k < |Somes(xs)|
    ensures i < |xs| && xs[i] == Some(Somes(xs)[k])
  {
    i :| 0 <= i < |xs| && xs[i] == Some(Somes(xs)[k]);
  }
}
