/**
  Minimum, maximum and mean of one quantity over the whole history window,
  with 0 for all three when the window is empty. The mean is the exact
  rational mean of the raw (tenths-scaled) integers.
 */
module Statistics {
  import opened Readings

  /** The three figures shown for one quantity. */
  datatype Stats = Stats(min: int, max: int, mean: real)

  /** The values of quantity `q` across the history, in arrival order
      (one column of the history table). */
  function Column(history: seq<Reading>, q: Quantity): (c: seq<int>)
    ensures |c| == |history|
    ensures forall i :: 0 <= i < |history| ==> c[i] == history[i].Value(q)
  {
    seq(|history|, i requires 0 <= i < |history| => history[i].Value(q))
  }

  /** The smallest of a non-empty sequence of values. */
  function Minimum(xs: seq<int>): (m: int)
    requires |xs| > 0
    ensures m in xs
    ensures forall i :: 0 <= i < |xs| ==> m <= xs[i]
  {
    if |xs| == 1 then xs[0]
    else
      var rest := Minimum(xs[1..]);
      if xs[0] <= rest then xs[0] else rest
  }

  /** The largest of a non-empty sequence of values. */
  function Maximum(xs: seq<int>): (m: int)
    requires |xs| > 0
    ensures m in xs
    ensures forall i :: 0 <= i < |xs| ==> xs[i] <= m
  {
    if |xs| == 1 then xs[0]
    else
      var rest := Maximum(xs[1..]);
      if xs[0] >= rest then xs[0] else rest
  }

  /** The total of a sequence of values. */
  function Sum(xs: seq<int>): int
  {
    if xs == [] then 0 else xs[0] + Sum(xs[1..])
  }

  /** `n` copies of `x` added up (that is, `n * x`, by repeated addition,
      which keeps the proofs about sums linear). */
  function Times(n: nat, x: real): real
  {
    if n == 0 then 0.0 else x + Times(n - 1, x)
  }

  /** A total of `n` values lying between `lo` and `hi` lies between
      `n` copies of `lo` and `n` copies of `hi`. */
  lemma {:induction false} SumBetween(xs: seq<int>, lo: int, hi: int)
    requires forall i :: 0 <= i < |xs| ==> lo <= xs[i] <= hi
    ensures Times(|xs|, lo as real) <= Sum(xs) as real <= Times(|xs|, hi as real)
  {
    if xs != [] {
      SumBetween(xs[1..], lo, hi);
    }
  }

  /** The arithmetic mean of a non-empty sequence of values: `|xs|` copies
      of it add up to their total. */
  function Mean(xs: seq<int>): (m: real)
    requires |xs| > 0
    ensures Times(|xs|, m) == Sum(xs) as real
  {
    Ratio(Sum(xs), |xs|)
  }

  /** The exact quotient of two integers. */
  function Ratio(s: int, n: nat): (q: real)
    requires n > 0
    ensures Times(n, q) == s as real
  {
    var q := (s as real) / (n as real);
    TimesIsProduct(n, q);
    q
  }

  lemma {:induction false} TimesIsProduct(n: nat, x: real)
    ensures Times(n, x) == (n as real) * x
  {
    if n > 0 {
      TimesIsProduct(n - 1, x);
    }
  }

  /** Adding up copies distributes over a difference. */
  lemma {:induction false} TimesDifference(n: nat, x: real, y: real)
    ensures Times(n, y) - Times(n, x) == Times(n, y - x)
  {
    if n > 0 {
      TimesDifference(n - 1, x, y);
    }
  }

  /** One or more copies of a negative value add up to a negative total. */
  lemma {:induction false} TimesOfNegative(n: nat, d: real)
    requires n > 0 && d < 0.0
    ensures Times(n, d) < 0.0
  {
    if n > 1 {
      TimesOfNegative(n - 1, d);
    }
  }

  /** Copies cancel: if `n > 0` copies of `x` add up to no more than `n`
      copies of `y`, then `x <= y`. */
  lemma TimesCancel(n: nat, x: real, y: real)
    requires n > 0 && Times(n, x) <= Times(n, y)
    ensures x <= y
  {
    TimesDifference(n, x, y);
    if y - x < 0.0 {
      TimesOfNegative(n, y - x);
    }
  }

  /** A value whose `|xs|` copies add up to the total of `xs` lies between
      their minimum and maximum. */
  lemma MeanWithin(xs: seq<int>, m: real)
    requires |xs| > 0
    requires Times(|xs|, m) == Sum(xs) as real
    ensures Minimum(xs) as real <= m <= Maximum(xs) as real
  {
    SumBetween(xs, Minimum(xs), Maximum(xs));
    TimesCancel(|xs|, Minimum(xs) as real, m);
    TimesCancel(|xs|, m, Maximum(xs) as real);
  }

  /** The statistics the dashboard shows for a sequence of values: all 0 for
      an empty window, and otherwise its minimum and maximum, both attained,
      bounding every value and the mean. */
  function Summary(xs: seq<int>): (st: Stats)
    ensures |xs| == 0 ==> st == Stats(0, 0, 0.0)
    ensures |xs| > 0 ==> st.min in xs && st.max in xs
    ensures forall i :: 0 <= i < |xs| ==> st.min <= xs[i] <= st.max
    ensures |xs| > 0 ==> st.min as real <= st.mean <= st.max as real
    ensures |xs| > 0 ==> Times(|xs|, st.mean) == Sum(xs) as real
  {
    if |xs| == 0 then Stats(0, 0, 0.0)
    else
      MeanWithin(xs, Mean(xs));
      Stats(Minimum(xs), Maximum(xs), Mean(xs))
  }

  /** The statistics of quantity `q` over the history window. */
  function QuantityStats(history: seq<Reading>, q: Quantity): (st: Stats)
    ensures history == [] ==> st == Stats(0, 0, 0.0)
    ensures history != [] ==>
      (exists i :: 0 <= i < |history| && history[i].Value(q) == st.min) &&
      (exists i :: 0 <= i < |history| && history[i].Value(q) == st.max)
    ensures forall i :: 0 <= i < |history| ==>
      st.min <= history[i].Value(q) <= st.max
    ensures history != [] ==> st.min as real <= st.mean <= st.max as real
    ensures history != [] ==> st.mean == Mean(Column(history, q))
  {
    var column := Column(history, q);
    var st := Summary(column);
    if history == [] then st
    else
      InColumn(history, q, st.min);
      InColumn(history, q, st.max);
      st
  }

  /** A value of the column of `q` is the value of `q` in some reading. */
  lemma InColumn(history: seq<Reading>, q: Quantity, v: int)
    requires v in Column(history, q)
    ensures exists i :: 0 <= i < |history| && history[i].Value(q) == v
  {
    var c := Column(history, q);
    var i :| 0 <= i < |c| && c[i] == v;
    assert history[i].Value(q) == v;
  }
}
