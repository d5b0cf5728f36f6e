/** Ranking the rows of the results table by a key, largest first, the
    earlier row first among equal keys. The top rows are pandas
    `nlargest(3, ...)` with its default `keep='first'`
    (news_volatility_analysis.py line 209); the middle rows give the median
    (line 200). */
module Ranking {
  import opened Wrappers

  /** Row `a` ranks ahead of row `b`: a larger key, or the same key and
      earlier in the table. */
  predicate Ahead(keys: seq<real>, a: nat, b: nat)
    requires a < |keys| && b < |keys|
  {
    keys[a] > keys[b] || (keys[a] == keys[b] && a < b)
  }

  /** `s` lists rows of `keys`, each strictly ahead of every later one. */
  predicate Ranked(keys: seq<real>, s: seq<nat>) {
    && (forall i :: 0 <= i < |s| ==> s[i] < |keys|)
    && (forall i, j :: 0 <= i < j < |s| ==> Ahead(keys, s[i], s[j]))
  }

  lemma AheadTransitive(keys: seq<real>, a: nat, b: nat, c: nat)
    requires a < |keys| && b < |keys| && c < |keys|
    requires Ahead(keys, a, b) && Ahead(keys, b, c)
    ensures Ahead(keys, a, c)
  {
  }

  /** Inserts row `x` into a ranking at its place. */
  function Insert(keys: seq<real>, x: nat, s: seq<nat>): (r: seq<nat>)
    requires x < |keys| && x !in s && Ranked(keys, s)
    ensures |r| == |s| + 1
    ensures forall y :: y in r <==> y == x || y in s
    ensures Ranked(keys, r)
  {
    if |s| == 0 then [x]
    else if Ahead(keys, x, s[0]) then
      assert forall j :: 0 <= j < |s| ==> Ahead(keys, x, s[j]) by {
        forall j | 0 <= j < |s| ensures Ahead(keys, x, s[j]) {
          if j > 0 {
            AheadTransitive(keys, x, s[0], s[j]);
          }
        }
      }
      [x] + s
    else
      var rest := Insert(keys, x, s[1..]);
      assert Ahead(keys, s[0], x);
      assert forall j :: 0 <= j < |rest| ==> Ahead(keys, s[0], rest[j]) by {
        forall j | 0 <= j < |rest| ensures Ahead(keys, s[0], rest[j]) {
          if rest[j] != x {
            assert rest[j] in s[1..];
            var k :| 0 <= k < |s[1..]| && s[1..][k] == rest[j];
            assert s[k + 1] == rest[j];
          }
        }
      }
      [s[0]] + rest
  }

  /** The rows `k ..` of the table, ranked. */
  function RankFrom(keys: seq<real>, k: nat): (r: seq<nat>)
    requires k <= |keys|
    ensures |r| == |keys| - k
    ensures forall y: nat :: y in r <==> k <= y < |keys|
    ensures Ranked(keys, r)
    decreases |keys| - k
  {
    if k == |keys| then [] else Insert(keys, k, RankFrom(keys, k + 1))
  }

  /** Every row of the table, ranked: a permutation of the rows, sorted by
      key from largest down, ties in table order. */
  function Rank(keys: seq<real>): (r: seq<nat>)
    ensures |r| == |keys|
    ensures forall y: nat :: y in r <==> y < |keys|
    ensures Ranked(keys, r)
  {
    RankFrom(keys, 0)
  }

  function Min(a: nat, b: nat): nat {
    if a < b then a else b
  }

  /** The `n` top rows (`nlargest(n)`, keep first among ties). */
  function TopN(keys: seq<real>, n: nat): (r: seq<nat>)
    ensures |r| == Min(n, |keys|)
    ensures forall i :: 0 <= i < |r| ==> r[i] < |keys|
    ensures forall i, j :: 0 <= i < j < |r| ==> r[i] != r[j]
    ensures forall i, j :: 0 <= i < j < |r| ==> keys[r[i]] >= keys[r[j]]
    ensures forall i, j :: 0 <= i < j < |r| && keys[r[i]] == keys[r[j]] ==> r[i] < r[j]
    ensures forall i, y :: 0 <= i < |r| && 0 <= y < |keys| && y !in r ==> Ahead(keys, r[i], y)
  {
    var ranked := Rank(keys);
    var r := ranked[..Min(n, |keys|)];
    assert forall i, y :: 0 <= i < |r| && 0 <= y < |keys| && y !in r ==> Ahead(keys, r[i], y) by {
      forall i, y | 0 <= i < |r| && 0 <= y < |keys| && y !in r
        ensures Ahead(keys, r[i], y)
      {
        assert y in ranked;
        var p :| 0 <= p < |ranked| && ranked[p] == y;
        assert p >= |r|;
      }
    }
    r
  }

  /** The rows whose key is at least (at most) `m`. */
  function AtLeast(keys: seq<real>, m: real): set<nat> {
    set i: nat | i < |keys| && keys[i] >= m
  }

  function AtMost(keys: seq<real>, m: real): set<nat> {
    set i: nat | i < |keys| && keys[i] <= m
  }

  /** The median of the keys: the middle one of an odd count, the mean of
      the middle two of an even count, undefined for none. */
  function Median(keys: seq<real>): (m: Option<real>)
    ensures m.Some? <==> |keys| > 0
  {
    if |keys| == 0 then None
    else
      var r := Rank(keys);
      var n := |keys|;
      if n % 2 == 1 then Some(keys[r[n / 2]])
      else Some((keys[r[n / 2 - 1]] + keys[r[n / 2]]) / 2.0)
  }

  /** The rows at positions `a .. b` of a ranking. */
  function Slots(s: seq<nat>, a: nat, b: nat): set<nat>
    requires a <= b <= |s|
  {
    set k | a <= k < b :: s[k]
  }

  /** Distinct rows at `b - a` positions make a set of `b - a` rows. */
  lemma {:induction false} SlotsSize(keys: seq<real>, s: seq<nat>, a: nat, b: nat)
    requires Ranked(keys, s)
    requires a <= b <= |s|
    ensures |Slots(s, a, b)| == b - a
    decreases b - a
  {
    if a < b {
      SlotsSize(keys, s, a + 1, b);
      assert Slots(s, a, b) == {s[a]} + Slots(s, a + 1, b);
      forall k | a + 1 <= k < b
        ensures s[k] != s[a]
      {
        assert Ahead(keys, s[a], s[k]);
      }
    } else {
      assert Slots(s, a, b) == {};
    }
  }

  /** The median splits the table: at least half the rows have a key at
      least as large, and at least half a key at most as large. */
  lemma MedianSplits(keys: seq<real>)
    requires |keys| > 0
    ensures 2 * |AtLeast(keys, Median(keys).value)| >= |keys|
    ensures 2 * |AtMost(keys, Median(keys).value)| >= |keys|
  {
    var r := Rank(keys);
    var n := |keys|;
    var m := Median(keys).value;
    var h := n / 2;
    // The rows ranked in the upper half reach m, those in the lower half stay below it.
    var upper := if n % 2 == 1 then h + 1 else h;
    if n % 2 == 0 {
      assert Ahead(keys, r[h - 1], r[h]);
    }
    PrefixAtLeast(keys, r, upper, m);
    SuffixAtMost(keys, r, h, m);
  }

  /** When the row ranked at `c - 1` reaches `m`, so do all `c` rows ranked
      before it. */
  lemma PrefixAtLeast(keys: seq<real>, s: seq<nat>, c: nat, m: real)
    requires Ranked(keys, s)
    requires 0 < c <= |s|
    requires keys[s[c - 1]] >= m
    ensures |AtLeast(keys, m)| >= c
  {
    SlotsSize(keys, s, 0, c);
    forall y | y in Slots(s, 0, c) ensures y in AtLeast(keys, m) {
      var k :| 0 <= k < c && s[k] == y;
      if k < c - 1 {
        assert Ahead(keys, s[k], s[c - 1]);
      }
    }
    SubsetSize(Slots(s, 0, c), AtLeast(keys, m));
  }

  /** When the row ranked at `c` stays at or below `m`, so do all the rows
      ranked after it. */
  lemma SuffixAtMost(keys: seq<real>, s: seq<nat>, c: nat, m: real)
    requires Ranked(keys, s)
    requires c < |s|
    requires keys[s[c]] <= m
    ensures |AtMost(keys, m)| >= |s| - c
  {
    SlotsSize(keys, s, c, |s|);
    forall y | y in Slots(s, c, |s|) ensures y in AtMost(keys, m) {
      var k :| c <= k < |s| && s[k] == y;
      if k > c {
        assert Ahead(keys, s[c], s[k]);
      }
    }
    SubsetSize(Slots(s, c, |s|), AtMost(keys, m));
  }

  lemma SubsetSize(a: set<nat>, b: set<nat>)
    requires a <= b
    ensures |a| <= |b|
  {
    assert b == a + (b - a);
  }

  /** The entries of `xs` at the positions `s` lists, in that order: the
      keys of a ranking, or the rows it selects. */
  function Select<T>(xs: seq<T>, s: seq<nat>): (ys: seq<T>)
    requires forall i :: 0 <= i < |s| ==> s[i] < |xs|
    ensures |ys| == |s| && forall i :: 0 <= i < |s| ==> ys[i] == xs[s[i]]
  {
    seq(|s|, i requires 0 <= i < |s| => xs[s[i]])
  }

  predicate SortedAsc(a: seq<real>) {
    forall i, j :: 0 <= i < j < |a| ==> a[i] <= a[j]
  }

  predicate SortedDesc(d: seq<real>) {
    forall i, j :: 0 <= i < j < |d| ==> d[i] >= d[j]
  }

  lemma SelectCons(keys: seq<real>, y: nat, s: seq<nat>)
    requires y < |keys| && forall i :: 0 <= i < |s| ==> s[i] < |keys|
    ensures Select(keys, [y] + s) == [keys[y]] + Select(keys, s)
  {
    assert forall i :: 0 < i <= |s| ==> ([y] + s)[i] == s[i - 1];
  }

  lemma RankedTail(keys: seq<real>, s: seq<nat>)
    requires Ranked(keys, s) && |s| > 0
    ensures Ranked(keys, s[1..])
  {
    var tail := s[1..];
    forall i, j | 0 <= i < j < |tail| ensures Ahead(keys, tail[i], tail[j]) {
      assert tail[i] == s[i + 1] && tail[j] == s[j + 1];
    }
  }

  /** A row that does not go ahead of the ranking's head is inserted
      into the rest of the ranking, behind the head. */
  lemma InsertBehind(keys: seq<real>, x: nat, s: seq<nat>)
    requires x < |keys| && x !in s && Ranked(keys, s)
    requires |s| > 0 && !Ahead(keys, x, s[0])
    ensures x !in s[1..] && Ranked(keys, s[1..])
    ensures Insert(keys, x, s) == [s[0]] + Insert(keys, x, s[1..])
  {
    assert s == [s[0]] + s[1..];
    RankedTail(keys, s);
  }

  /** A row that goes ahead of the whole ranking is inserted at the front,
      adding its key. */
  lemma InsertFrontKeys(keys: seq<real>, x: nat, s: seq<nat>)
    requires x < |keys| && x !in s && Ranked(keys, s)
    requires |s| == 0 || Ahead(keys, x, s[0])
    ensures multiset(Select(keys, Insert(keys, x, s))) == multiset(Select(keys, s)) + multiset{keys[x]}
  {
    assert Insert(keys, x, s) == [x] + s;
    SelectCons(keys, x, s);
  }

  /** Putting the same row in front of two rankings keeps the difference
      between their keys. */
  lemma ConsKeys(keys: seq<real>, y: nat, tail: seq<nat>, rest: seq<nat>, v: real)
    requires y < |keys|
    requires forall i :: 0 <= i < |tail| ==> tail[i] < |keys|
    requires forall i :: 0 <= i < |rest| ==> rest[i] < |keys|
    requires multiset(Select(keys, rest)) == multiset(Select(keys, tail)) + multiset{v}
    ensures multiset(Select(keys, [y] + rest)) == multiset(Select(keys, [y] + tail)) + multiset{v}
  {
    SelectCons(keys, y, rest);
    SelectCons(keys, y, tail);
  }

  /** Inserting a row into a ranking adds exactly its key to the ranking's
      keys. */
  lemma {:induction false} InsertKeys(keys: seq<real>, x: nat, s: seq<nat>)
    requires x < |keys| && x !in s && Ranked(keys, s)
    ensures multiset(Select(keys, Insert(keys, x, s))) == multiset(Select(keys, s)) + multiset{keys[x]}
  {
    if |s| == 0 || Ahead(keys, x, s[0]) {
      InsertFrontKeys(keys, x, s);
    } else {
      InsertBehind(keys, x, s);
      InsertKeys(keys, x, s[1..]);
      ConsKeys(keys, s[0], s[1..], Insert(keys, x, s[1..]), keys[x]);
      assert s == [s[0]] + s[1..];
    }
  }

  /** Ranking the rows `k ..` permutes their keys. */
  lemma {:induction false} RankFromKeys(keys: seq<real>, k: nat)
    requires k <= |keys|
    ensures multiset(Select(keys, RankFrom(keys, k))) == multiset(keys[k..])
    decreases |keys| - k
  {
    if k < |keys| {
      var rest := RankFrom(keys, k + 1);
      assert k !in rest;
      RankFromKeys(keys, k + 1);
      InsertKeys(keys, k, rest);
      SuffixKeys(keys, k);
    }
  }

  lemma SuffixKeys(keys: seq<real>, k: nat)
    requires k < |keys|
    ensures multiset(keys[k..]) == multiset(keys[k + 1..]) + multiset{keys[k]}
  {
    assert keys[k..] == [keys[k]] + keys[k + 1..];
  }

  /** The keys in ranking order are the keys themselves, largest first. */
  lemma RankKeys(keys: seq<real>)
    ensures SortedDesc(Select(keys, Rank(keys)))
    ensures multiset(Select(keys, Rank(keys))) == multiset(keys)
  {
    RankFromKeys(keys, 0);
    assert keys[0..] == keys;
  }

  /** The smallest value heads an ascending arrangement and ends a
      descending one of the same values. */
  lemma SmallestAgrees(a: seq<real>, d: seq<real>)
    requires SortedAsc(a) && SortedDesc(d) && multiset(a) == multiset(d)
    requires |a| > 0 && |d| > 0
    ensures a[0] == d[|d| - 1]
  {
    assert a[0] in multiset(d);
    var k :| 0 <= k < |d| && d[k] == a[0];
    assert d[|d| - 1] in multiset(a);
    var k' :| 0 <= k' < |a| && a[k'] == d[|d| - 1];
  }

  lemma SortedAscTail(a: seq<real>)
    requires SortedAsc(a) && |a| > 0
    ensures SortedAsc(a[1..])
  {
    var t := a[1..];
    forall i, j | 0 <= i < j < |t| ensures t[i] <= t[j] {
      assert t[i] == a[i + 1] && t[j] == a[j + 1];
    }
  }

  lemma SortedDescInit(d: seq<real>)
    requires SortedDesc(d) && |d| > 0
    ensures SortedDesc(d[..|d| - 1])
  {
  }

  lemma MultisetCancel(x: multiset<real>, y: multiset<real>, v: real)
    requires x + multiset{v} == y + multiset{v}
    ensures x == y
  {
    assert forall e :: x[e] == (x + multiset{v})[e] - multiset{v}[e];
    assert forall e :: y[e] == (y + multiset{v})[e] - multiset{v}[e];
  }

  /** Arrangements of the same values have the same length. */
  lemma SameLength(a: seq<real>, d: seq<real>)
    requires multiset(a) == multiset(d)
    ensures |a| == |d|
  {
    assert |multiset(a)| == |a| && |multiset(d)| == |d|;
  }

  /** Removing a shared value from the front of one arrangement and the
      back of the other leaves equal multisets. */
  lemma PeelBoth(a: seq<real>, d: seq<real>)
    requires |a| > 0 && |d| > 0 && a[0] == d[|d| - 1]
    requires multiset(a) == multiset(d)
    ensures multiset(a[1..]) == multiset(d[..|d| - 1])
  {
    var v := a[0];
    assert a == [v] + a[1..];
    assert d == d[..|d| - 1] + [v];
    MultisetCancel(multiset(a[1..]), multiset(d[..|d| - 1]), v);
  }

  /** Peeling the smallest value off both arrangements leaves an ascending
      and a descending arrangement of the same values. */
  lemma PeelSorted(a: seq<real>, d: seq<real>)
    requires SortedAsc(a) && SortedDesc(d) && multiset(a) == multiset(d)
    requires |a| > 0
    ensures |d| > 0 && a[0] == d[|d| - 1]
    ensures SortedAsc(a[1..]) && SortedDesc(d[..|d| - 1])
    ensures multiset(a[1..]) == multiset(d[..|d| - 1])
  {
    SameLength(a, d);
    SmallestAgrees(a, d);
    PeelBoth(a, d);
    SortedAscTail(a);
    SortedDescInit(d);
  }

  /** When the rests mirror each other, so do the whole arrangements. */
  lemma MirrorExtend(a: seq<real>, d: seq<real>)
    requires |a| == |d| > 0 && a[0] == d[|d| - 1]
    requires forall i :: 0 <= i < |a| - 1 ==> a[1..][i] == d[..|d| - 1][|d| - 2 - i]
    ensures forall i :: 0 <= i < |a| ==> a[i] == d[|d| - 1 - i]
  {
    forall i | 0 < i < |a| ensures a[i] == d[|d| - 1 - i] {
      assert a[1..][i - 1] == d[..|d| - 1][|d| - 2 - (i - 1)];
    }
  }

  /** An ascending and a descending arrangement of the same values mirror
      each other. */
  lemma {:induction false} MirrorSorted(a: seq<real>, d: seq<real>)
    requires SortedAsc(a) && SortedDesc(d) && multiset(a) == multiset(d)
    ensures |a| == |d|
    ensures forall i :: 0 <= i < |a| ==> a[i] == d[|d| - 1 - i]
  {
    SameLength(a, d);
    if |a| > 0 {
      PeelSorted(a, d);
      MirrorSorted(a[1..], d[..|d| - 1]);
      MirrorExtend(a, d);
    }
  }

  /** The median read off the ranking: the middle key of an odd count, the
      mean of the two middle keys of an even count. */
  lemma MedianOfRanked(keys: seq<real>)
    ensures var d := Select(keys, Rank(keys));
            var n := |keys|;
            Median(keys) ==
              if n == 0 then None
              else if n % 2 == 1 then Some(d[n / 2])
              else Some((d[n / 2 - 1] + d[n / 2]) / 2.0)
  {
  }

  /** The median is the textbook one: for any ascending arrangement `a` of
      the keys, the middle value of an odd count, the mean of the two
      middle values of an even count. */
  lemma MedianOfSorted(keys: seq<real>, a: seq<real>)
    requires SortedAsc(a) && multiset(a) == multiset(keys)
    ensures Median(keys) ==
              if |a| == 0 then None
              else if |a| % 2 == 1 then Some(a[|a| / 2])
              else Some((a[|a| / 2 - 1] + a[|a| / 2]) / 2.0)
  {
    SameLength(a, keys);
    MedianOfRanked(keys);
    if |a| > 0 {
      SortedMiddle(keys, a);
    }
  }

  /** The middle of any ascending arrangement of the keys is the middle of
      the ranking. */
  lemma SortedMiddle(keys: seq<real>, a: seq<real>)
    requires SortedAsc(a) && multiset(a) == multiset(keys) && |a| > 0
    ensures var d := Select(keys, Rank(keys));
            && |a| == |d|
            && (|a| % 2 == 1 ==> a[|a| / 2] == d[|d| / 2])
            && (|a| % 2 == 0 ==> a[|a| / 2 - 1] + a[|a| / 2] == d[|d| / 2 - 1] + d[|d| / 2])
  {
    var d := Select(keys, Rank(keys));
    RankKeys(keys);
    MirrorSorted(a, d);
    MirrorMiddle(a, d);
  }

  /** Mirrored arrangements share their middle value, or the sum of their
      two middle values. */
  lemma MirrorMiddle(a: seq<real>, d: seq<real>)
    requires |a| == |d| > 0
    requires forall i :: 0 <= i < |a| ==> a[i] == d[|d| - 1 - i]
    ensures |a| % 2 == 1 ==> a[|a| / 2] == d[|d| / 2]
    ensures |a| % 2 == 0 ==> a[|a| / 2 - 1] + a[|a| / 2] == d[|d| / 2 - 1] + d[|d| / 2]
  {
    var n := |a|;
    if n % 2 == 1 {
      assert a[n / 2] == d[n - 1 - n / 2];
    } else {
      assert a[n / 2 - 1] == d[n - 1 - (n / 2 - 1)];
      assert a[n / 2] == d[n - 1 - n / 2];
    }
  }
}
