/** The nearest-rank percentile of the latency canary. */
module Percentile {
  import opened Wrappers
  import opened Sorting

  datatype Error = NoObservations | BadFraction

  function Leq(): (real, real) -> bool {
    (a, b) => a <= b
  }

  function Ceiling(x: real): int {
    -((-x).Floor)
  }

  /** The position, counted from one, of the percentile among n sorted observations. */
  function Rank(fraction: real, n: nat): int {
    Ceiling(fraction * n as real)
  }

  lemma RankInRange(fraction: real, n: nat)
    requires 0.0 < fraction <= 1.0 && n > 0
    ensures 1 <= Rank(fraction, n) <= n
  {
    var x := fraction * n as real;
    assert 0.0 < x <= n as real;
  }

  /** At least fraction * n observations means at least `Rank` of them. */
  lemma RankReached(fraction: real, n: nat, k: int)
    ensures k >= Rank(fraction, n) <==> k as real >= fraction * n as real
  {}

  function Percentile(values: seq<real>, fraction: real): Result<real, Error> {
    if values == [] then Err(NoObservations)
    else if !(0.0 < fraction <= 1.0) then Err(BadFraction)
    else
      RankInRange(fraction, |values|);
      Ok(Ordered(values)[Rank(fraction, |values|) - 1])
  }

  function Ordered(values: seq<real>): (ordered: seq<real>)
    ensures |ordered| == |values|
    ensures forall v :: v in ordered <==> v in values
  {
    SameElements(Sort(Leq(), values), values);
    Sort(Leq(), values)
  }

  function CountAtMost(values: seq<real>, v: real): nat {
    if values == [] then 0 else (if values[0] <= v then 1 else 0) + CountAtMost(values[1..], v)
  }

  lemma {:induction false} CountInsert(x: real, s: seq<real>, v: real)
    ensures CountAtMost(Insert(Leq(), x, s), v) == (if x <= v then 1 else 0) + CountAtMost(s, v)
  {
    if s == [] {
    } else if x <= s[0] {
      assert ([x] + s)[1..] == s;
    } else {
      CountInsert(x, s[1..], v);
      assert ([s[0]] + Insert(Leq(), x, s[1..]))[1..] == Insert(Leq(), x, s[1..]);
    }
  }

  lemma {:induction false} CountSorted(s: seq<real>, v: real)
    ensures CountAtMost(Sort(Leq(), s), v) == CountAtMost(s, v)
  {
    if s != [] {
      CountSorted(s[1..], v);
      CountInsert(s[0], Sort(Leq(), s[1..]), v);
    }
  }

  /** In sorted order, more than k observations are at most w exactly when the k-th one is. */
  lemma {:induction false} RankInSorted(s: seq<real>, k: nat, w: real)
    requires IsSorted(Leq(), s) && k < |s|
    ensures CountAtMost(s, w) >= k + 1 <==> s[k] <= w
  {
    assert forall i :: 0 < i < |s| ==> Leq()(s[0], s[i]);
    if k == 0 {
      if w < s[0] { NoneAtMost(s, w); }
    } else {
      assert forall i :: 0 <= i < |s[1..]| ==> s[1..][i] == s[i + 1];
      RankInSorted(s[1..], k - 1, w);
    }
  }

  lemma {:induction false} NoneAtMost(s: seq<real>, w: real)
    requires forall i :: 0 <= i < |s| ==> w < s[i]
    ensures CountAtMost(s, w) == 0
  {
    if s != [] { NoneAtMost(s[1..], w); }
  }

  lemma LeqIsPreorder()
    ensures TotalPreorder(Leq())
  {}

  lemma NearestRankCount(values: seq<real>, fraction: real, w: real)
    requires values != [] && 0.0 < fraction <= 1.0
    ensures Percentile(values, fraction).Ok? && Percentile(values, fraction).value in values
    ensures CountAtMost(values, w) >= Rank(fraction, |values|) <==> w >= Percentile(values, fraction).value
  {
    var ordered, rank := Ordered(values), Rank(fraction, |values|);
    LeqIsPreorder();
    SortSorts(Leq(), values);
    RankInRange(fraction, |values|);
    RankInSorted(ordered, rank - 1, w);
    CountSorted(values, w);
    assert ordered[rank - 1] in ordered;
  }

  /**
    The result is an observation, and it is the smallest that the fraction reaches: at least
    fraction * n observations are at most w exactly for the w from the result upwards.
  */
  lemma NearestRank(values: seq<real>, fraction: real, w: real)
    requires values != [] && 0.0 < fraction <= 1.0
    ensures Percentile(values, fraction).Ok? && Percentile(values, fraction).value in values
    ensures CountAtMost(values, w) as real >= fraction * |values| as real <==> w >= Percentile(values, fraction).value
  {
    NearestRankCount(values, fraction, w);
    RankReached(fraction, |values|, CountAtMost(values, w));
  }

  /** What is refused: no observations, and then a fraction outside (0, 1]. */
  lemma RefusedExact(values: seq<real>, fraction: real)
    ensures Percentile(values, fraction) == Err(NoObservations) <==> |values| == 0
    ensures Percentile(values, fraction) == Err(BadFraction) <==> |values| > 0 && (fraction <= 0.0 || fraction > 1.0)
  {}

  /** Rearranging the observations changes nothing. */
  lemma PermutationInvariant(values: seq<real>, others: seq<real>, fraction: real)
    requires multiset(values) == multiset(others)
    ensures Percentile(values, fraction) == Percentile(others, fraction)
  {
    SameElements(values, others);
    LeqIsPreorder();
    SortSorts(Leq(), values);
    SortSorts(Leq(), others);
    SortedIsUnique(Leq(), Sort(Leq(), values), Sort(Leq(), others));
  }

  lemma RankMonotone(f: real, g: real, n: nat)
    requires f <= g
    ensures Rank(f, n) <= Rank(g, n)
  {
    assert f * n as real <= g * n as real;
  }

  /** A larger fraction never gives a smaller percentile. */
  lemma MonotoneInFraction(values: seq<real>, f: real, g: real)
    requires values != [] && 0.0 < f <= g <= 1.0
    ensures Percentile(values, f).Ok? && Percentile(values, g).Ok?
    ensures Percentile(values, f).value <= Percentile(values, g).value
  {
    var v := Percentile(values, g).value;
    NearestRankCount(values, f, v);
    NearestRankCount(values, g, v);
    RankMonotone(f, g, |values|);
  }
}
