/** Resampling a swipe to uniform finger displacement, in exact arithmetic. */
module Resample {
  import opened Base
  import Statistics

  const MIN_TOTAL := 0.000001
  const MIN_ROWS := 64
  const MAX_ROWS := 1200

  ghost predicate NonNegative(v: seq<real>) { forall k | 0 <= k < |v| :: v[k] >= 0.0 }

  /** Running totals. */
  function CumSum(v: seq<real>): (d: seq<real>)
    ensures |d| == |v|
  {
    if v == [] then []
    else
      var d := CumSum(v[..|v| - 1]);
      d + [(if d == [] then 0.0 else d[|d| - 1]) + v[|v| - 1]]
  }

  /** Each total is the one before plus its own entry. */
  lemma {:induction false} CumSumStep(v: seq<real>, k: nat)
    requires k < |v|
    ensures CumSum(v)[k] == (if k == 0 then 0.0 else CumSum(v)[k - 1]) + v[k]
    decreases |v|
  {
    if k < |v| - 1 {
      CumSumStep(v[..|v| - 1], k);
    }
  }

  lemma {:induction false} CumSumGrows(v: seq<real>, i: nat, j: nat)
    requires NonNegative(v) && i <= j < |v|
    ensures 0.0 <= CumSum(v)[i] <= CumSum(v)[j]
    decreases j
  {
    CumSumStep(v, j);
    if i < j {
      CumSumGrows(v, i, j - 1);
    } else if j > 0 {
      CumSumGrows(v, j - 1, j - 1);
    }
  }

  function Total(v: seq<real>): real
    requires v != []
  {
    CumSum(v)[|v| - 1]
  }

  /** `v[v > 0]`. */
  function Positive(v: seq<real>): (p: seq<real>)
    ensures forall k | 0 <= k < |p| :: p[k] > 0.0
  {
    if v == [] then []
    else Positive(v[..|v| - 1]) + (if v[|v| - 1] > 0.0 then [v[|v| - 1]] else [])
  }

  /** No positive movement is left out and none comes in. */
  lemma {:induction false} PositiveKeepsAll(v: seq<real>, x: real)
    ensures multiset(Positive(v))[x] == if x > 0.0 then multiset(v)[x] else 0
  {
    if v != [] {
      PositiveKeepsAll(v[..|v| - 1], x);
      assert v == v[..|v| - 1] + [v[|v| - 1]];
    }
  }

  /** The total is the sum of the movements. */
  function Sum(v: seq<real>): real { if v == [] then 0.0 else v[0] + Sum(v[1..]) }

  lemma {:induction false} SumAppends(v: seq<real>, x: real)
    ensures Sum(v + [x]) == Sum(v) + x
  {
    if v == [] {
      assert [] + [x] == [x];
    } else {
      SumAppends(v[1..], x);
      assert (v + [x])[1..] == v[1..] + [x];
    }
  }

  lemma {:induction false} TotalIsSum(v: seq<real>)
    requires v != []
    ensures Total(v) == Sum(v)
    decreases |v|
  {
    var init := v[..|v| - 1];
    if init != [] { TotalIsSum(init); }
    SumAppends(init, v[|v| - 1]);
    assert v == init + [v[|v| - 1]];
  }

  lemma {:induction false} SomethingMoved(v: seq<real>)
    requires v != [] && Total(v) > 0.0
    ensures Positive(v) != []
    decreases |v|
  {
    if v[|v| - 1] <= 0.0 {
      assert |v| > 1;
      SomethingMoved(v[..|v| - 1]);
    }
  }

  /** How many rows to make when the caller does not say: total over typical movement, within limits. */
  function RowCount(v: seq<real>): (m: int)
    requires v != [] && Total(v) >= MIN_TOTAL
    ensures MIN_ROWS <= m <= MAX_ROWS
  {
    SomethingMoved(v);
    Statistics.MedianPositive(Positive(v));
    var m := (Total(v) / Statistics.Median(Positive(v))).Floor;
    var capped := if m < MAX_ROWS then m else MAX_ROWS;
    if capped < MIN_ROWS then MIN_ROWS else capped
  }

  /** The typical movement is positive, and the row count is how often it goes into the total, within limits. */
  lemma RowCountDivides(v: seq<real>)
    requires v != [] && Total(v) >= MIN_TOTAL
    ensures Positive(v) != [] && Statistics.Median(Positive(v)) > 0.0
    ensures var q := Total(v) / Statistics.Median(Positive(v));
            && (q < 64.0 ==> RowCount(v) == 64)
            && (64.0 <= q < 1200.0 ==> RowCount(v) as real <= q < RowCount(v) as real + 1.0)
            && (q >= 1200.0 ==> RowCount(v) == 1200)
  {
    SomethingMoved(v);
    Statistics.MedianPositive(Positive(v));
  }

  /** `linspace(0, total, m)[k]`. */
  function Target(total: real, m: nat, k: nat): real
    requires k < m
  {
    if m == 1 then 0.0 else total * (k as real / (m - 1) as real)
  }

  /** `searchsorted(d, t)` by bisection: the first entry at or above `t`. */
  function SearchSorted(d: seq<real>, t: real, lo: nat, hi: nat): (r: nat)
    requires lo <= hi <= |d| && Statistics.Sorted(d)
    requires (forall k | 0 <= k < lo :: d[k] < t) && (forall k | hi <= k < |d| :: d[k] >= t)
    ensures r <= |d|
    ensures forall k | 0 <= k < r :: d[k] < t
    ensures forall k | r <= k < |d| :: d[k] >= t
    decreases hi - lo
  {
    if lo == hi then lo
    else
      var mid := (lo + hi) / 2;
      if d[mid] < t then SearchSorted(d, t, mid + 1, hi) else SearchSorted(d, t, lo, mid)
  }

  lemma CumSumSorted(v: seq<real>)
    requires NonNegative(v)
    ensures Statistics.Sorted(CumSum(v))
  {
    forall i, j | 0 <= i <= j < |v| ensures CumSum(v)[i] <= CumSum(v)[j] {
      CumSumGrows(v, i, j);
    }
  }

  /** The row chosen for target k, clipped to the rows there are. */
  function Chosen(v: seq<real>, m: nat, k: nat): (i: nat)
    requires v != [] && NonNegative(v) && k < m
    ensures i < |v|
  {
    CumSumSorted(v);
    var i := SearchSorted(CumSum(v), Target(Total(v), m, k), 0, |v|);
    if i > |v| - 1 then |v| - 1 else i
  }

  /** Too little movement leaves the rows alone; an empty swipe fails on its last element. */
  function ResampleUniform<T>(rows: seq<T>, v: seq<real>, outRows: Option<nat>): (r: Result<seq<T>>)
    requires |rows| == |v| && NonNegative(v)
    ensures r.Err? <==> v == []
  {
    if v == [] then Err("index -1 is out of bounds")
    else if Total(v) < MIN_TOTAL then Ok(rows)
    else
      var m := if outRows.Some? then outRows.value else RowCount(v);
      Ok(seq(m, k requires 0 <= k < m => rows[Chosen(v, m, k)]))
  }

  // ---- Uniformity -------------------------------------------------------------------------

  lemma TargetRange(total: real, m: nat, k: nat)
    requires total >= 0.0 && k < m
    ensures 0.0 <= Target(total, m, k) <= total
    ensures m > 1 && k == m - 1 ==> Target(total, m, k) == total
    ensures k == 0 ==> Target(total, m, k) == 0.0
  {
    if m > 1 {
      FractionInUnit(k, m - 1);
      ScaleInUnit(total, k as real / (m - 1) as real);
    }
  }

  lemma FractionInUnit(k: nat, d: nat)
    requires k <= d && d > 0
    ensures 0.0 <= k as real / d as real <= 1.0
    ensures k == 0 ==> k as real / d as real == 0.0
    ensures k == d ==> k as real / d as real == 1.0
  {
  }

  lemma ScaleInUnit(x: real, f: real)
    requires x >= 0.0 && 0.0 <= f <= 1.0
    ensures 0.0 <= x * f <= x
    ensures f == 0.0 ==> x * f == 0.0
    ensures f == 1.0 ==> x * f == x
  {
    assert 0.0 <= x * f;
    assert 0.0 <= x * (1.0 - f);
  }

  lemma ScaleWithin(x: real, f: real, g: real)
    requires x >= 0.0 && f <= g
    ensures x * f <= x * g
  {
  }

  lemma TargetGrows(total: real, m: nat, j: nat, k: nat)
    requires total >= 0.0 && j <= k < m
    ensures Target(total, m, j) <= Target(total, m, k)
  {
    if m > 1 {
      var d := (m - 1) as real;
      assert j as real / d <= k as real / d by {
        ScaleWithin(1.0 / d, j as real, k as real);
      }
      ScaleWithin(total, j as real / d, k as real / d);
    }
  }

  /** Each chosen row is the first at or past its target, and past it by at most the row's own movement. */
  lemma ChosenMeetsTarget(v: seq<real>, m: nat, k: nat)
    requires v != [] && NonNegative(v) && k < m
    ensures var i, t := Chosen(v, m, k), Target(Total(v), m, k);
            && t <= CumSum(v)[i] <= t + v[i]
            && (forall p | 0 <= p < i :: CumSum(v)[p] < t)
  {
    var i, t := Chosen(v, m, k), Target(Total(v), m, k);
    CumSumSorted(v);
    CumSumGrows(v, |v| - 1, |v| - 1);
    TargetRange(Total(v), m, k);
    CumSumStep(v, i);
  }

  /** The clip never acts. */
  lemma ClipIsNoOp(v: seq<real>, m: nat, k: nat)
    requires v != [] && NonNegative(v) && k < m
    ensures Statistics.Sorted(CumSum(v))
    ensures SearchSorted(CumSum(v), Target(Total(v), m, k), 0, |v|) == Chosen(v, m, k)
  {
    CumSumSorted(v);
    CumSumGrows(v, |v| - 1, |v| - 1);
    TargetRange(Total(v), m, k);
  }

  lemma ChosenFirst(v: seq<real>, m: nat)
    requires v != [] && NonNegative(v) && 0 < m
    ensures Chosen(v, m, 0) == 0
  {
    CumSumGrows(v, 0, |v| - 1);
    ChosenMeetsTarget(v, m, 0);
    TargetRange(Total(v), m, 0);
    assert !(CumSum(v)[0] < 0.0);
  }

  lemma ChosenLast(v: seq<real>, m: nat)
    requires v != [] && NonNegative(v) && 1 < m
    ensures CumSum(v)[Chosen(v, m, m - 1)] == Total(v)
  {
    CumSumGrows(v, |v| - 1, |v| - 1);
    ChosenMeetsTarget(v, m, m - 1);
    TargetRange(Total(v), m, m - 1);
    CumSumGrows(v, Chosen(v, m, m - 1), |v| - 1);
  }

  /** Chosen rows start at the first, never go back, and end where the swipe does. */
  lemma ChosenInOrder(v: seq<real>, m: nat, j: nat, k: nat)
    requires v != [] && NonNegative(v) && j <= k < m
    ensures Chosen(v, m, j) <= Chosen(v, m, k)
    ensures Chosen(v, m, 0) == 0
    ensures m > 1 ==> CumSum(v)[Chosen(v, m, m - 1)] == Total(v)
  {
    CumSumGrows(v, |v| - 1, |v| - 1);
    ChosenFirst(v, m);
    if m > 1 { ChosenLast(v, m); }
    TargetGrows(Total(v), m, j, k);
    FirstsInOrder(CumSum(v), Target(Total(v), m, j), Target(Total(v), m, k), Chosen(v, m, j), Chosen(v, m, k)) by {
      ChosenMeetsTarget(v, m, j);
      ChosenMeetsTarget(v, m, k);
    }
  }

  lemma FirstsInOrder(d: seq<real>, t: real, u: real, i: nat, j: nat)
    requires i < |d| && j < |d| && t <= u
    requires (forall p | 0 <= p < i :: d[p] < t) && u <= d[j]
    ensures i <= j
  {
  }

  /** The displacement at the row chosen for target k. */
  function Reached(v: seq<real>, m: nat, k: nat): real
    requires v != [] && NonNegative(v) && k < m
  {
    CumSum(v)[Chosen(v, m, k)]
  }

  function Spacing(total: real, m: nat): real
    requires m > 1
  {
    total / (m - 1) as real
  }

  lemma ReachedNearTarget(v: seq<real>, m: nat, k: nat, most: real)
    requires v != [] && NonNegative(v) && k < m
    requires forall p | 0 <= p < |v| :: v[p] <= most
    ensures Target(Total(v), m, k) <= Reached(v, m, k) <= Target(Total(v), m, k) + most
  {
    ChosenMeetsTarget(v, m, k);
  }

  /** Consecutive rows of the result are one displacement step apart, up to the largest single movement. */
  lemma StepsAreUniform(v: seq<real>, m: nat, k: nat, most: real)
    requires v != [] && NonNegative(v) && k + 1 < m
    requires forall p | 0 <= p < |v| :: v[p] <= most
    ensures Spacing(Total(v), m) - most <= Reached(v, m, k + 1) - Reached(v, m, k) <= Spacing(Total(v), m) + most
  {
    ReachedNearTarget(v, m, k, most);
    ReachedNearTarget(v, m, k + 1, most);
    TargetStep(Total(v), m, k);
  }

  lemma TargetStep(total: real, m: nat, k: nat)
    requires k + 1 < m
    ensures Target(total, m, k + 1) - Target(total, m, k) == Spacing(total, m)
  {
    var d := (m - 1) as real;
    assert (k + 1) as real / d == k as real / d + 1.0 / d;
    assert total * (k as real / d + 1.0 / d) == total * (k as real / d) + total * (1.0 / d);
  }

  /** `ChosenMeetsTarget`, with the target written out. */
  lemma ChosenAtShare(v: seq<real>, m: nat, k: nat)
    requires v != [] && NonNegative(v) && k < m && m > 1
    ensures var i, t := Chosen(v, m, k), Total(v) * (k as real / (m - 1) as real);
            t <= CumSum(v)[i] <= t + v[i] && forall p | 0 <= p < i :: CumSum(v)[p] < t
  {
    ChosenMeetsTarget(v, m, k);
    assert Target(Total(v), m, k) == Total(v) * (k as real / (m - 1) as real);
  }

  /** A swipe that moves less than a millionth in all is returned as it is, whatever was asked for. */
  lemma StillSwipe<T>(rows: seq<T>, v: seq<real>, outRows: Option<nat>)
    requires v != [] && |rows| == |v| && NonNegative(v)
    ensures Sum(v) < 0.000001 ==> ResampleUniform(rows, v, outRows) == Ok(rows)
    ensures Sum(v) >= 0.000001 && outRows.Some? ==> |ResampleUniform(rows, v, outRows).value| == outRows.value
    ensures Sum(v) >= 0.000001 && outRows.None? ==> 64 <= |ResampleUniform(rows, v, outRows).value| <= 1200
  {
    TotalIsSum(v);
  }

  /** With any row count from 2 on: each place holds the first row that reaches its share of the displacement. */
  lemma ResampledTo<T>(rows: seq<T>, v: seq<real>, m: nat, k: nat) returns (i: nat)
    requires v != [] && |rows| == |v| && NonNegative(v) && Total(v) >= MIN_TOTAL && 1 < m && k < m
    ensures var out := ResampleUniform(rows, v, Some(m)).value;
            |out| == m && i < |v| && out[k] == rows[i] && out[0] == rows[0]
    ensures var t := Total(v) * (k as real / (m - 1) as real);
            t <= CumSum(v)[i] <= t + v[i] && forall p | 0 <= p < i :: CumSum(v)[p] < t
  {
    i := Chosen(v, m, k);
    ChosenAtShare(v, m, k);
    ChosenFirst(v, m);
  }

  lemma DefaultRowCount<T>(rows: seq<T>, v: seq<real>)
    requires v != [] && |rows| == |v| && NonNegative(v) && Total(v) >= MIN_TOTAL
    ensures ResampleUniform(rows, v, None) == ResampleUniform(rows, v, Some(RowCount(v)))
  {
  }

  /** The resampled swipe has 64 to 1200 rows, begins with the first row, and holds at each place the first row
      whose displacement reaches that place's share of the whole. */
  lemma ResampledSwipe<T>(rows: seq<T>, v: seq<real>, k: nat) returns (m: nat, i: nat)
    requires v != [] && |rows| == |v| && NonNegative(v) && Total(v) >= MIN_TOTAL && k < RowCount(v)
    ensures m == RowCount(v) && 64 <= m <= 1200
    ensures var out := ResampleUniform(rows, v, None).value;
            |out| == m && i < |v| && out[k] == rows[i] && out[0] == rows[0]
    ensures var t := Total(v) * (k as real / (m - 1) as real);
            t <= CumSum(v)[i] <= t + v[i] && forall p | 0 <= p < i :: CumSum(v)[p] < t
  {
    DefaultRowCount(rows, v);
    m := RowCount(v);
    i := ResampledTo(rows, v, m, k);
  }
}
