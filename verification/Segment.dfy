/** Picking the finger-present part of a swipe: threshold, in-place gap bridging, longest run, padding. */
module Segment {
  import opened Base
  import Statistics

  const PADDING := 20

  // ---- Gap bridging -----------------------------------------------------------------------

  /** [i, j) is a maximal run of off cells with an on cell at both ends. */
  predicate Gap(s: seq<bool>, i: int, j: int) {
    && 0 < i < j < |s| && s[i - 1] && s[j]
    && forall k | i <= k < j :: !s[k]
  }

  ghost predicate Bridged(s: seq<bool>, bridge: nat, k: int)
    requires 0 <= k < |s|
  {
    s[k] || exists i, j :: Gap(s, i, j) && i <= k < j && j - i <= bridge
  }

  /** A cell ends on if and only if it was on or lies in a gap of at most `bridge` cells. */
  ghost function CloseGaps(s: seq<bool>, bridge: nat): (c: seq<bool>)
    ensures |c| == |s|
  {
    seq(|s|, k requires 0 <= k < |s| => Bridged(s, bridge, k))
  }

  /** Two gaps that share a cell are the same, and neither fits around a longer off-run. */
  lemma GapIsMaximal(s: seq<bool>, i: int, j: int, a: int, b: int, k: int)
    requires 0 <= i <= k < j <= |s| && (forall m | i <= m < j :: !s[m])
    requires Gap(s, a, b) && a <= k < b
    ensures a <= i && j <= b
    ensures i > 0 && s[i - 1] ==> a == i
    ensures j < |s| && s[j] ==> b == j
  {
  }

  method BridgeGaps(on: array<bool>, bridge: nat)
    modifies on
    ensures on[..] == CloseGaps(old(on[..]), bridge)
  {
    var i := 0;
    ghost var was := on[..];
    while i < on.Length
      invariant 0 <= i <= on.Length
      invariant forall k | 0 <= k < i :: on[k] == Bridged(was, bridge, k)
      invariant forall k | i <= k < on.Length :: on[k] == was[k]
      invariant 0 < i < on.Length ==> was[i - 1] || was[i]
    {
      if !on[i] {
        var j := i;
        while j < on.Length && !on[j]
          invariant i <= j <= on.Length && forall k | i <= k < j :: !was[k]
        {
          j := j + 1;
        }
        if i > 0 && j < on.Length && j - i <= bridge {
          assert Gap(was, i, j);
          forall k | i <= k < j {
            on[k] := true;
          }
        } else {
          forall k | i <= k < j ensures !Bridged(was, bridge, k) {
            forall a, b | Gap(was, a, b) && a <= k < b ensures b - a > bridge {
              GapIsMaximal(was, i, j, a, b, k);
            }
          }
        }
        i := j;
      } else {
        i := i + 1;
      }
    }
  }

  /** A gap that is left was a gap before, and is longer than `bridge`. */
  lemma GapsLeftAreLong(s: seq<bool>, bridge: nat, i: int, j: int)
    requires Gap(CloseGaps(s, bridge), i, j)
    ensures Gap(s, i, j) && j - i > bridge
  {
    var c := CloseGaps(s, bridge);
    assert forall k | i <= k < j :: !s[k] by {
      forall k | i <= k < j ensures !s[k] { assert !c[k]; }
    }
    assert c[i - 1] && !c[i] && !c[j - 1] && c[j];
    if !s[i - 1] {
      FilledGapReaches(s, bridge, i - 1, i);
    }
    if !s[j] {
      FilledGapReaches(s, bridge, j, j - 1);
    }
    assert Gap(s, i, j);
    assert !Bridged(s, bridge, i);
  }

  /** Beside a cell that was filled in, the next cell is on as well. */
  lemma FilledGapReaches(s: seq<bool>, bridge: nat, k: int, beside: int)
    requires 0 <= k < |s| && 0 <= beside < |s| && (beside == k + 1 || beside == k - 1)
    requires Bridged(s, bridge, k) && !s[k]
    ensures Bridged(s, bridge, beside)
  {
    var i, j :| Gap(s, i, j) && i <= k < j && j - i <= bridge;
    if i <= beside < j {
      assert Bridged(s, bridge, beside);
    }
  }

  /** Bridging what is already bridged changes nothing. */
  lemma BridgingIsIdempotent(s: seq<bool>, bridge: nat)
    ensures CloseGaps(CloseGaps(s, bridge), bridge) == CloseGaps(s, bridge)
  {
    var c := CloseGaps(s, bridge);
    forall k | 0 <= k < |c| ensures Bridged(c, bridge, k) == c[k] {
      if Bridged(c, bridge, k) && !c[k] {
        var i, j :| Gap(c, i, j) && i <= k < j && j - i <= bridge;
        GapsLeftAreLong(s, bridge, i, j);
      }
    }
  }

  // ---- The longest run --------------------------------------------------------------------

  predicate Run(s: seq<bool>, lo: int, hi: int) {
    0 <= lo <= hi <= |s| && forall k | lo <= k < hi :: s[k]
  }

  /** [lo, hi) is the leftmost of the longest runs, and [0, 0) when nothing is on. */
  ghost predicate Longest(s: seq<bool>, lo: int, hi: int) {
    && Run(s, lo, hi)
    && (lo == hi ==> lo == 0)
    && (forall c, d | Run(s, c, d) :: d - c <= hi - lo && (d - c == hi - lo && c < d ==> lo <= c))
  }

  lemma LongestIsUnique(s: seq<bool>, lo: int, hi: int, lo': int, hi': int)
    requires Longest(s, lo, hi) && Longest(s, lo', hi')
    ensures lo == lo' && hi == hi'
  {
  }

  lemma OffCellSplits(s: seq<bool>, c: int, d: int, p: int)
    requires Run(s, c, d) && 0 <= p < |s| && !s[p]
    ensures d <= p || p < c
  {
  }

  method LongestRun(on: array<bool>) returns (lo: int, hi: int)
    ensures Longest(on[..], lo, hi)
  {
    lo, hi := 0, 0;
    var i := 0;
    while i < on.Length
      invariant 0 <= i <= on.Length && 0 <= lo <= hi <= i && Run(on[..], lo, hi) && (lo == hi ==> lo == 0)
      invariant i == 0 || i == on.Length || !on[i - 1] || !on[i]
      invariant forall c, d | Run(on[..], c, d) && c < d <= i :: d - c <= hi - lo && (d - c == hi - lo ==> lo <= c)
    {
      if on[i] {
        var j := i;
        while j < on.Length && on[j]
          invariant i <= j <= on.Length && forall k | i <= k < j :: on[k]
        {
          j := j + 1;
        }
        assert Run(on[..], i, j);
        forall c, d | Run(on[..], c, d) && c < d <= j ensures d <= i || c >= i {
          if i > 0 { OffCellSplits(on[..], c, d, i - 1); }
        }
        if j - i > hi - lo {
          lo, hi := i, j;
        }
        i := j;
      } else {
        forall c, d | Run(on[..], c, d) && c < d <= i + 1 ensures d <= i {
          OffCellSplits(on[..], c, d, i);
        }
        i := i + 1;
      }
    }
  }

  // ---- The segment ------------------------------------------------------------------------

  function Threshold(energy: seq<real>): (on: seq<bool>)
    requires energy != []
    ensures |on| == |energy|
  {
    var med := Statistics.Median(energy);
    var thr := med + 0.35 * (Statistics.Max(energy) - med);
    seq(|energy|, k requires 0 <= k < |energy| => energy[k] > thr)
  }

  /** More than 35 percent of the way from the median to the maximum. */
  predicate Above(energy: seq<real>, k: int)
    requires 0 <= k < |energy|
  {
    20.0 * (energy[k] - Statistics.Median(energy)) > 7.0 * (Statistics.Max(energy) - Statistics.Median(energy))
  }

  /** `on` says where the energy is above that level. */
  predicate Marks(energy: seq<real>, on: seq<bool>) {
    |on| == |energy| && forall k | 0 <= k < |on| :: on[k] <==> Above(energy, k)
  }

  lemma ThresholdMarks(energy: seq<real>)
    requires energy != []
    ensures Marks(energy, Threshold(energy))
  {
  }

  function Padded(n: nat, lo: int, hi: int): (int, int) {
    (if lo - PADDING < 0 then 0 else lo - PADDING, if hi + PADDING > n then n else hi + PADDING)
  }

  /**
    The window of an energy curve: mark what is above the level, close gaps of at most `bridge`, take the
    leftmost longest run, and widen it by 20 at each end as far as there are rows.  The run is not empty
    exactly when the energy exceeds its median somewhere, and then begins and ends above the level.
   */
  ghost predicate IsSegment(energy: seq<real>, bridge: nat, on: seq<bool>, lo: int, hi: int, window: (int, int)) {
    && energy != [] && Marks(energy, on) && Longest(CloseGaps(on, bridge), lo, hi)
    && window == (if lo < 20 then 0 else lo - 20, if hi + 20 > |energy| then |energy| else hi + 20)
    && RunOnFinger(energy, lo, hi)
  }

  /** The run is not empty if and only if the energy exceeds its median, and then both its ends are above the level. */
  predicate RunOnFinger(energy: seq<real>, lo: int, hi: int)
    requires energy != [] && 0 <= lo <= hi <= |energy|
  {
    && (lo < hi <==> Statistics.Max(energy) > Statistics.Median(energy))
    && (lo < hi ==> Above(energy, lo) && Above(energy, hi - 1))
  }

  lemma RunIsOnFinger(energy: seq<real>, on: seq<bool>, bridge: nat, lo: int, hi: int)
    requires energy != [] && Marks(energy, on) && Longest(CloseGaps(on, bridge), lo, hi)
    ensures RunOnFinger(energy, lo, hi)
  {
    FoundIffAboveMedian(energy, on, bridge, lo, hi);
    if lo < hi { RunEndsOnFinger(energy, on, bridge, lo, hi); }
  }

  lemma SegmentFound(energy: seq<real>, on: seq<bool>, bridge: nat, lo: int, hi: int)
    requires energy != [] && Marks(energy, on) && Longest(CloseGaps(on, bridge), lo, hi)
    ensures IsSegment(energy, bridge, on, lo, hi, Padded(|energy|, lo, hi))
  {
    RunIsOnFinger(energy, on, bridge, lo, hi);
  }

  /** `energy.max()` fails on an empty array. */
  method BestSegment(energy: seq<real>, bridge: nat) returns (r: Result<(int, int)>)
    ensures r.Err? <==> energy == []
    ensures r.Ok? ==> exists on, lo, hi :: IsSegment(energy, bridge, on, lo, hi, r.value)
  {
    if energy == [] {
      return Err("zero-size array to reduction operation maximum");
    }
    var on := new bool[|energy|];
    var flags := Threshold(energy);
    forall k | 0 <= k < |energy| {
      on[k] := flags[k];
    }
    assert on[..] == flags;
    BridgeGaps(on, bridge);
    var lo, hi := LongestRun(on);
    ThresholdMarks(energy);
    SegmentFound(energy, flags, bridge, lo, hi);
    return Ok(Padded(|energy|, lo, hi));
  }

  /** The window lies in the swipe, contains the run, and exceeds it by at most 20 rows on either side. */
  lemma WindowHoldsRun(s: seq<bool>, lo: int, hi: int)
    requires Longest(s, lo, hi)
    ensures var (a, b) := Padded(|s|, lo, hi);
            && 0 <= a <= lo && hi <= b <= |s|
            && lo - a <= 20 && b - hi <= 20
            && (lo - a < 20 ==> a == 0) && (b - hi < 20 ==> b == |s|)
  {
  }

  lemma NothingOnNothingBridged(s: seq<bool>, bridge: nat)
    requires forall k | 0 <= k < |s| :: !s[k]
    ensures forall k | 0 <= k < |s| :: !CloseGaps(s, bridge)[k]
  {
  }

  /** Closing gaps turns something on only where something was on. */
  lemma BridgingFindsNothing(s: seq<bool>, bridge: nat)
    ensures (exists k :: 0 <= k < |s| && CloseGaps(s, bridge)[k]) <==> (exists k :: 0 <= k < |s| && s[k])
  {
    if k :| 0 <= k < |s| && s[k] {
      assert CloseGaps(s, bridge)[k];
    } else {
      NothingOnNothingBridged(s, bridge);
    }
  }

  lemma FoundIffAnyOn(c: seq<bool>, lo: int, hi: int)
    requires Longest(c, lo, hi)
    ensures lo < hi <==> exists k :: 0 <= k < |c| && c[k]
  {
    if k :| 0 <= k < |c| && c[k] {
      assert Run(c, k, k + 1);
    } else {
      assert lo < hi ==> c[lo];
    }
  }

  lemma MarksAny(energy: seq<real>, on: seq<bool>)
    requires energy != [] && Marks(energy, on)
    ensures (exists k :: 0 <= k < |on| && on[k]) <==> Statistics.Max(energy) > Statistics.Median(energy)
  {
    Statistics.MedianAtMostMax(energy);
    var top := Statistics.MaxIndex(energy);
    assert on[top] <==> Above(energy, top);
  }

  /** A finger is found exactly when the energy rises above its median anywhere. */
  lemma FoundIffAboveMedian(energy: seq<real>, on: seq<bool>, bridge: nat, lo: int, hi: int)
    requires energy != [] && Marks(energy, on) && Longest(CloseGaps(on, bridge), lo, hi)
    ensures lo < hi <==> Statistics.Max(energy) > Statistics.Median(energy)
  {
    MarksAny(energy, on);
    BridgingFindsNothing(on, bridge);
    FoundIffAnyOn(CloseGaps(on, bridge), lo, hi);
  }

  /** A run that could be extended to either side is not the longest. */
  lemma LongestStops(c: seq<bool>, lo: int, hi: int)
    requires Longest(c, lo, hi) && lo < hi
    ensures lo > 0 ==> !c[lo - 1]
    ensures hi < |c| ==> !c[hi]
  {
    assert lo > 0 && c[lo - 1] ==> Run(c, lo - 1, hi);
    assert hi < |c| && c[hi] ==> Run(c, lo, hi + 1);
  }

  /** A found run starts and ends where the energy itself is above the level. */
  lemma RunEndsOnFinger(energy: seq<real>, on: seq<bool>, bridge: nat, lo: int, hi: int)
    requires Marks(energy, on) && Longest(CloseGaps(on, bridge), lo, hi) && lo < hi
    ensures Above(energy, lo) && Above(energy, hi - 1)
  {
    RunEndsOnOn(on, bridge, lo, hi);
  }

  lemma RunEndsOnOn(s: seq<bool>, bridge: nat, lo: int, hi: int)
    requires Longest(CloseGaps(s, bridge), lo, hi) && lo < hi
    ensures s[lo] && s[hi - 1]
  {
    var c := CloseGaps(s, bridge);
    LongestStops(c, lo, hi);
    assert c[lo] && c[hi - 1];
    FilledNeighbours(s, bridge, lo);
    FilledNeighbours(s, bridge, hi - 1);
  }

  /** A cell that was filled in has on cells on both sides. */
  lemma FilledNeighbours(s: seq<bool>, bridge: nat, k: int)
    requires 0 <= k < |s| && Bridged(s, bridge, k)
    ensures s[k] || (0 < k < |s| - 1 && CloseGaps(s, bridge)[k - 1] && CloseGaps(s, bridge)[k + 1])
  {
    if !s[k] {
      var i, j :| Gap(s, i, j) && i <= k < j && j - i <= bridge;
      FilledGapReaches(s, bridge, k, k - 1);
      FilledGapReaches(s, bridge, k, k + 1);
    }
  }
}
