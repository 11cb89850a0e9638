/** The recorder's frame throttle: which presented frames are kept. Durations are whole nanoseconds. */
module Record {
  import opened Wrappers

  /** Rust's `saturating_sub` on durations. */
  function SaturatingSub(a: nat, b: nat): nat {
    if a <= b then 0 else a - b
  }

  predicate Due(interval: nat, last: Option<nat>, elapsed: nat) {
    last.None? || SaturatingSub(elapsed, last.value) >= interval
  }

  class FrameThrottle {
    const interval: nat
    var last: Option<nat>

    constructor (interval: nat)
      ensures this.interval == interval && last == None
    {
      this.interval := interval;
      last := None;
    }

    /** `should_capture`: the schedule moves on a hit, and only then. */
    method ShouldCapture(elapsed: nat) returns (hit: bool)
      modifies this`last
      ensures hit <==> Due(interval, old(last), elapsed)
      ensures last == if hit then Some(elapsed) else old(last)
    {
      match last
      case Some(previous) =>
        if SaturatingSub(elapsed, previous) < interval {
          hit := false;
        } else {
          last := Some(elapsed);
          hit := true;
        }
      case None =>
        last := Some(elapsed);
        hit := true;
    }

    /** A whole stream of frames put to the throttle one by one. */
    method CaptureAll(frames: seq<nat>) returns (kept: seq<nat>)
      modifies this`last
      ensures kept == Captured(interval, old(last), frames, 0)
    {
      kept := [];
      for i := 0 to |frames|
        invariant Captured(interval, old(last), frames, 0) == kept + Captured(interval, last, frames, i)
      {
        var hit := ShouldCapture(frames[i]);
        if hit {
          kept := kept + [i];
        }
      }
    }
  }

  /** The indices of the frames captured from index `i` on, after a last capture at `last`. */
  function Captured(interval: nat, last: Option<nat>, frames: seq<nat>, i: nat): seq<nat>
    requires i <= |frames|
    decreases |frames| - i
  {
    if i == |frames| then []
    else if Due(interval, last, frames[i]) then [i] + Captured(interval, Some(frames[i]), frames, i + 1)
    else Captured(interval, last, frames, i + 1)
  }

  ghost predicate Nondecreasing(frames: seq<nat>) {
    forall i, j | 0 <= i <= j < |frames| :: frames[i] <= frames[j]
  }

  /** Indices of frames from `i` on, in order, each at least `interval` after every one before it. */
  ghost predicate IsSpaced(interval: nat, frames: seq<nat>, i: nat, sel: seq<nat>) {
    && (forall k | 0 <= k < |sel| :: i <= sel[k] < |frames|)
    && forall j, k | 0 <= j < k < |sel| :: sel[j] < sel[k] && frames[sel[j]] + interval <= frames[sel[k]]
  }

  ghost predicate StartsAfter(interval: nat, last: Option<nat>, frames: seq<nat>, sel: seq<nat>)
    requires forall k | 0 <= k < |sel| :: sel[k] < |frames|
  {
    sel == [] || last.None? || last.value + interval <= frames[sel[0]]
  }

  /** Greedy stays ahead, from any point of the stream. */
  lemma {:induction false} GreedyIsAhead(interval: nat, last: Option<nat>, frames: seq<nat>, i: nat, sel: seq<nat>)
    requires Nondecreasing(frames) && i <= |frames|
    requires IsSpaced(interval, frames, i, sel) && StartsAfter(interval, last, frames, sel)
    ensures |sel| <= |Captured(interval, last, frames, i)|
    decreases |frames| - i
  {
    if sel != [] {
      assert i <= sel[0] < |frames|;
      if Due(interval, last, frames[i]) {
        assert frames[i] <= frames[sel[0]];
        assert forall k | 1 <= k < |sel| :: sel[0] < sel[k];
        GreedyIsAhead(interval, Some(frames[i]), frames, i + 1, sel[1..]);
      } else {
        assert sel[0] != i;
        assert forall k | 1 <= k < |sel| :: sel[0] < sel[k];
        GreedyIsAhead(interval, last, frames, i + 1, sel);
      }
    }
  }

  /** On a stream that never goes back, no choice of frames spaced at least `interval` apart keeps more. */
  lemma CapturesTheMostFrames(interval: nat, frames: seq<nat>, sel: seq<nat>)
    requires Nondecreasing(frames) && IsSpaced(interval, frames, 0, sel)
    ensures |sel| <= |Captured(interval, None, frames, 0)|
  {
    GreedyIsAhead(interval, None, frames, 0, sel);
  }

  lemma {:induction false} CapturedIsSpaced(interval: nat, last: Option<nat>, frames: seq<nat>, i: nat)
    requires interval > 0 && i <= |frames|
    ensures IsSpaced(interval, frames, i, Captured(interval, last, frames, i))
    ensures StartsAfter(interval, last, frames, Captured(interval, last, frames, i))
    decreases |frames| - i
  {
    if i < |frames| {
      if Due(interval, last, frames[i]) {
        CapturedIsSpaced(interval, Some(frames[i]), frames, i + 1);
      } else {
        CapturedIsSpaced(interval, last, frames, i + 1);
      }
    }
  }

  /** A positive interval spaces the captures of every stream, even one whose clock goes back; a zero
      interval does not, because the saturating difference of a step back is still zero. */
  lemma AlwaysSpacedIffIntervalPositive(interval: nat)
    ensures interval > 0
       <==> forall frames: seq<nat> :: IsSpaced(interval, frames, 0, Captured(interval, None, frames, 0))
  {
    if interval > 0 {
      forall frames: seq<nat> ensures IsSpaced(interval, frames, 0, Captured(interval, None, frames, 0)) {
        CapturedIsSpaced(interval, None, frames, 0);
      }
    } else {
      var frames := [1, 0];
      assert Captured(0, Some(1), frames, 1) == [1] + Captured(0, Some(0), frames, 2);
      assert Captured(0, None, frames, 0) == [0, 1];
      var kept := Captured(0, None, frames, 0);
      assert kept[0] == 0 && kept[1] == 1;
      assert !IsSpaced(interval, frames, 0, kept);
    }
  }

  /** On a stream that never goes back, every frame shown is less than `interval` after one captured. */
  lemma {:induction false} EveryFrameIsCovered(interval: nat, last: Option<nat>, frames: seq<nat>, i: nat, j: nat)
    requires Nondecreasing(frames) && interval > 0 && i <= j < |frames|
    ensures || (last.Some? && frames[j] < last.value + interval)
            || exists k | k in Captured(interval, last, frames, i) ::
                 k <= j && frames[k] <= frames[j] < frames[k] + interval
    decreases |frames| - i
  {
    if Due(interval, last, frames[i]) {
      var rest := Captured(interval, Some(frames[i]), frames, i + 1);
      assert Captured(interval, last, frames, i) == [i] + rest;
      if i < j {
        EveryFrameIsCovered(interval, Some(frames[i]), frames, i + 1, j);
      }
      if frames[j] < frames[i] + interval {
        assert i in [i] + rest;
      } else {
        assert forall k | k in rest :: k in [i] + rest;
      }
    } else if i < j {
      EveryFrameIsCovered(interval, last, frames, i + 1, j);
    }
  }

  /** The most frames is a promise for forward clocks only: on this stream two spaced frames exist and
      the throttle keeps one. */
  lemma BackwardStreamKeepsFewer()
    ensures IsSpaced(1, [9, 0, 1], 0, [1, 2])
    ensures |Captured(1, None, [9, 0, 1], 0)| == 1
  {
    var frames := [9, 0, 1];
    assert Captured(1, Some(9), frames, 3) == [];
    assert Captured(1, Some(9), frames, 2) == [];
    assert Captured(1, Some(9), frames, 1) == [];
  }

  // ----- Gap statistics -----

  const U32_MAX: nat := 0xFFFF_FFFF

  /** The longest duration: `u64::MAX` seconds and a nanosecond less than one more. */
  const DURATION_MAX: nat := 0x1_0000_0000_0000_0000 * 1_000_000_000 - 1

  datatype FrameGapSummary = FrameGapSummary(gaps: nat, min: nat, max: nat, mean: nat)

  function Least(a: nat, b: nat): nat {
    if a <= b then a else b
  }

  class FrameStats {
    var count: nat
    var sum: nat
    var min: Option<nat>
    var max: Option<nat>

    constructor ()
      ensures Records([])
    {
      count, sum, min, max := 0, 0, None, None;
    }

    /** The fields are those of the gaps recorded. */
    ghost predicate Records(gaps: seq<nat>)
      reads this
    {
      && count == Least(|gaps|, U32_MAX) && sum == Least(Sum(gaps), DURATION_MAX)
      && if gaps == [] then min.None? && max.None?
         else min.Some? && max.Some? && IsLeast(gaps, min.value) && IsGreatest(gaps, max.value)
    }

    method RecordGap(gap: nat, ghost gaps: seq<nat>)
      requires Records(gaps)
      modifies this
      ensures Records(gaps + [gap])
    {
      assert (gaps + [gap])[..|gaps|] == gaps;
      count := Least(count + 1, U32_MAX);
      sum := Least(sum + gap, DURATION_MAX);
      min := Some(if min.Some? && min.value <= gap then min.value else gap);
      max := Some(if max.Some? && max.value > gap then max.value else gap);
    }

    method Summary(ghost gaps: seq<nat>) returns (s: Option<FrameGapSummary>)
      requires Records(gaps)
      ensures s.None? <==> gaps == []
      ensures s.Some? ==>
        && s.value.gaps == Least(|gaps|, U32_MAX) && s.value.mean == MeanGap(gaps)
        && IsLeast(gaps, s.value.min) && IsGreatest(gaps, s.value.max)
    {
      if min.None? || max.None? {
        return None;
      }
      s := Some(FrameGapSummary(count, min.value, max.value, sum / count));
    }
  }

  function Sum(gaps: seq<nat>): nat {
    if gaps == [] then 0 else Sum(gaps[..|gaps| - 1]) + gaps[|gaps| - 1]
  }

  ghost predicate IsLeast(gaps: seq<nat>, x: nat) {
    x in gaps && forall g <- gaps :: x <= g
  }

  ghost predicate IsGreatest(gaps: seq<nat>, x: nat) {
    x in gaps && forall g <- gaps :: g <= x
  }

  /** The mean as summed up: both the count and the sum stop at what their widths hold. */
  function MeanGap(gaps: seq<nat>): nat
    requires gaps != []
  {
    Least(Sum(gaps), DURATION_MAX) / Least(|gaps|, U32_MAX)
  }

  lemma QuotientBounds(a: nat, n: nat, low: nat, high: nat)
    requires n > 0 && n * low <= a <= n * high
    ensures low <= a / n <= high
  {
    var q := a / n;
    assert n * q <= a < n * (q + 1);
    if q < low {
      Grows(n, q + 1, low);
    } else if high < q {
      Grows(n, high + 1, q);
    }
  }

  lemma OneMoreTimes(n: nat, x: nat)
    ensures (n + 1) * x == n * x + x
  {
  }

  lemma {:induction false} SumBounds(gaps: seq<nat>, low: nat, high: nat)
    requires forall k | 0 <= k < |gaps| :: low <= gaps[k] <= high
    ensures |gaps| * low <= Sum(gaps) <= |gaps| * high
  {
    if gaps != [] {
      SumBounds(gaps[..|gaps| - 1], low, high);
      OneMoreTimes(|gaps| - 1, low);
      OneMoreTimes(|gaps| - 1, high);
    }
  }

  /** Within those widths the mean is the mean, rounded down, between the least and the greatest gap. */
  lemma MeanIsBetween(gaps: seq<nat>, low: nat, high: nat)
    requires gaps != [] && |gaps| <= U32_MAX && Sum(gaps) <= DURATION_MAX
    requires IsLeast(gaps, low) && IsGreatest(gaps, high)
    ensures MeanGap(gaps) == Sum(gaps) / |gaps| && low <= MeanGap(gaps) <= high
  {
    forall k | 0 <= k < |gaps| ensures low <= gaps[k] <= high {
      var g := gaps[k];
      assert g in gaps;
    }
    SumBounds(gaps, low, high);
    QuotientBounds(Sum(gaps), |gaps|, low, high);
  }

  lemma MoreShareLess(a: nat, m: nat, n: nat)
    requires 0 < m <= n
    ensures a / n <= a / m
  {
    var q := a / n;
    Grows(q, m, n);
    if a / m < q {
      Grows(m, a / m + 1, q);
    }
  }

  lemma Grows(k: nat, a: nat, b: nat)
    requires a <= b
    ensures k * a <= k * b && a * k <= b * k
  {
  }

  ghost function OneLongGap(n: nat): (gaps: seq<nat>)
    requires n > 0
    ensures |gaps| == n
  {
    [DURATION_MAX] + seq(n - 1, _ => 0)
  }

  lemma {:induction false} LongGapSum(n: nat)
    requires n > 0
    ensures Sum(OneLongGap(n)) == DURATION_MAX
  {
    var gaps := OneLongGap(n);
    if n == 1 {
      assert gaps[..0] == [];
    } else {
      assert gaps[..n - 1] == OneLongGap(n - 1);
      LongGapSum(n - 1);
    }
  }

  /** The mean of every recording of `n` gaps that fits a duration is exact just when the counter has not
      stopped: past it the sum is shared among too few. */
  lemma MeanIsExactUpTo(n: nat)
    requires n > 0
    ensures (forall gaps: seq<nat> | |gaps| == n && Sum(gaps) <= DURATION_MAX :: MeanGap(gaps) == Sum(gaps) / n)
       <==> n <= U32_MAX
  {
    if n > U32_MAX {
      var gaps := OneLongGap(n);
      LongGapSum(n);
      MoreShareLess(DURATION_MAX, U32_MAX + 1, n);
      assert DURATION_MAX / (U32_MAX + 1) < DURATION_MAX / U32_MAX;
      assert MeanGap(gaps) != Sum(gaps) / n;
    }
  }

  lemma Quotient(sum: nat, n: nat)
    requires n > 0
    ensures n * (sum / n) <= sum < n * (sum / n + 1)
  {
    assert sum == n * (sum / n) + sum % n;
  }

  /** Of any recording, the mean is the greatest whole number of nanoseconds whose product with the count is no more
      than the sum; the count stops at the greatest of 32 bits and the sum at the longest duration, 64 bits of
      seconds. */
  lemma MeanOfCounted(gaps: seq<nat>)
    requires gaps != []
    ensures var n := if |gaps| <= 4294967295 then |gaps| else 4294967295;
      var sum := if Sum(gaps) <= 18446744073709551615999999999 then Sum(gaps) else 18446744073709551615999999999;
      n * MeanGap(gaps) <= sum < n * (MeanGap(gaps) + 1)
  {
    Quotient(Least(Sum(gaps), DURATION_MAX), Least(|gaps|, U32_MAX));
  }
}
