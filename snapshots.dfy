/**
 * Frame-time snapshots (src/DX12/Renderer.h): an unbounded list of samples
 * whose median sorts it in place, and a 60-slot rolling window written at
 * `frameIdx`. Samples are int64 microseconds; means are exact rationals.
 */
module FrameTimeSnapshots {

  // ---------------------------------------------------------------------------
  // Sums, ordering and sorting of samples
  // ---------------------------------------------------------------------------

  function Sum(s: seq<int>): int
  {
    if s == [] then 0 else s[0] + Sum(s[1..])
  }

  predicate Sorted(s: seq<int>)
  {
    forall i, j :: 0 <= i < j < |s| ==> s[i] <= s[j]
  }

  /** Insert `x` into a sorted sequence, before the first element not below it. */
  function Insert(s: seq<int>, x: int): (r: seq<int>)
    ensures |r| == |s| + 1
    ensures multiset(r) == multiset(s) + multiset{x}
  {
    if s == [] then [x]
    else if x <= s[0] then [x] + s
    else
      assert s == [s[0]] + s[1..];
      [s[0]] + Insert(s[1..], x)
  }

  predicate AllAtLeast(s: seq<int>, b: int)
  {
    forall k :: 0 <= k < |s| ==> b <= s[k]
  }

  lemma {:induction false} InsertKeepsLowerBound(s: seq<int>, x: int, b: int)
    requires AllAtLeast(s, b) && b <= x
    ensures AllAtLeast(Insert(s, x), b)
  {
    if s != [] && s[0] < x {
      InsertKeepsLowerBound(s[1..], x, b);
    }
  }

  lemma {:induction false} InsertKeepsSorted(s: seq<int>, x: int)
    requires Sorted(s)
    ensures Sorted(Insert(s, x))
  {
    if s != [] && s[0] < x {
      InsertKeepsSorted(s[1..], x);
      InsertKeepsLowerBound(s[1..], x, s[0]);
    }
  }

  /** The samples in ascending order: what std::sort leaves in the range. */
  function SortSeq(s: seq<int>): (r: seq<int>)
    ensures |r| == |s|
    ensures Sorted(r)
    ensures multiset(r) == multiset(s)
  {
    if s == [] then []
    else
      assert s == [s[0]] + s[1..];
      InsertKeepsSorted(SortSeq(s[1..]), s[0]);
      Insert(SortSeq(s[1..]), s[0])
  }

  function SeqMin(s: seq<int>): int
    requires |s| > 0
  {
    if |s| == 1 then s[0] else var m := SeqMin(s[1..]); if s[0] < m then s[0] else m
  }

  function SeqMax(s: seq<int>): int
    requires |s| > 0
  {
    if |s| == 1 then s[0] else var m := SeqMax(s[1..]); if s[0] < m then m else s[0]
  }

  lemma {:induction false} SumBetweenExtremes(s: seq<int>)
    requires |s| > 0
    ensures |s| * SeqMin(s) <= Sum(s) <= |s| * SeqMax(s)
  {
    if |s| > 1 {
      var n := |s| - 1;
      SumBetweenExtremes(s[1..]);
      ScaleStep(n, SeqMin(s));
      ScaleStep(n, SeqMax(s));
      ScaleMonotone(n, SeqMin(s), SeqMin(s[1..]));
      ScaleMonotone(n, SeqMax(s[1..]), SeqMax(s));
    }
  }

  lemma ScaleStep(n: nat, a: int)
    ensures (n + 1) * a == a + n * a
  {
  }

  lemma ScaleMonotone(n: nat, a: int, b: int)
    requires a <= b
    ensures n * a <= n * b
  {
  }

  /** The mean of a non-empty set of samples: std::accumulate divided by the count. */
  function Mean(s: seq<int>): real
  {
    if |s| == 0 then 0.0 else Sum(s) as real / |s| as real
  }

  /** A mean lies between the smallest and the largest sample. */
  lemma MeanBetweenExtremes(s: seq<int>)
    requires |s| > 0
    ensures SeqMin(s) as real <= Mean(s) <= SeqMax(s) as real
  {
    SumBetweenExtremes(s);
    QuotientBetween(Sum(s), |s|, SeqMin(s), SeqMax(s));
  }

  lemma QuotientBetween(a: int, n: int, lo: int, hi: int)
    requires n > 0 && n * lo <= a <= n * hi
    ensures lo as real <= a as real / n as real <= hi as real
  {
    var q, nr := a as real / n as real, n as real;
    assert q * nr == a as real;
    assert nr * lo as real <= a as real <= nr * hi as real;
    PositiveProduct(lo as real - q, nr);
    PositiveProduct(q - hi as real, nr);
  }

  lemma PositiveProduct(x: real, y: real)
    requires y > 0.0
    ensures x > 0.0 ==> x * y > 0.0
  {
  }

  // ---------------------------------------------------------------------------
  // FrameTimeSnapshotUnlimited (lines 54-91)
  // ---------------------------------------------------------------------------

  /** Every sample since the last Reset, in a deque. */
  class FrameTimeSnapshotUnlimited {
    var frameTimes: seq<int>

    constructor ()
      ensures frameTimes == []
    {
      frameTimes := [];
    }

    method AddTime(timeMicroseconds: int)
      modifies this
      ensures frameTimes == old(frameTimes) + [timeMicroseconds]
    {
      frameTimes := frameTimes + [timeMicroseconds];
    }

    /** Sort the samples in place and return the one at size/2; indexing an empty deque is undefined. */
    method GetMedian() returns (median: int)
      requires |frameTimes| > 0
      modifies this
      ensures Sorted(frameTimes) && multiset(frameTimes) == multiset(old(frameTimes))
      ensures frameTimes == SortSeq(old(frameTimes))
      ensures median == frameTimes[|frameTimes| / 2] && median in old(frameTimes)
    {
      frameTimes := SortSeq(frameTimes);
      median := frameTimes[|frameTimes| / 2];
      assert median in multiset(frameTimes);
    }

    /** The sum over the count, or the zero default for no samples. */
    function GetArithmeticMean(): (m: real)
      reads this
      ensures |frameTimes| == 0 ==> m == 0.0
      ensures |frameTimes| > 0 ==> SeqMin(frameTimes) as real <= m <= SeqMax(frameTimes) as real
    {
      MeanOfSamples(frameTimes)
    }

    function GetPopulationCount(): (n: nat)
      reads this
      ensures n == |frameTimes|
    {
      |frameTimes|
    }

    method Reset()
      modifies this
      ensures frameTimes == []
    {
      frameTimes := [];
    }
  }

  /** Mean, with its range established. */
  function MeanOfSamples(s: seq<int>): (m: real)
    ensures m == Mean(s)
    ensures |s| > 0 ==> SeqMin(s) as real <= m <= SeqMax(s) as real
  {
    if |s| > 0 then MeanBetweenExtremes(s); Mean(s) else Mean(s)
  }

  // ---------------------------------------------------------------------------
  // FrameTimeSnapshotRolling (lines 94-135)
  // ---------------------------------------------------------------------------

  const ROLLING_SLOTS: nat := 60

  /** The last samples in a fixed ring of 60 slots. */
  class FrameTimeSnapshotRolling {
    var hasFilledOnce: bool
    var frameIdx: nat
    var frameTimes: array<int>
    var frameTimesCopy: array<int>

    ghost predicate Valid()
      reads this
    {
      frameTimes.Length == ROLLING_SLOTS && frameTimesCopy.Length == ROLLING_SLOTS
      && frameTimes != frameTimesCopy && frameIdx < ROLLING_SLOTS
    }

    /** How many leading slots the mean and median look at. */
    function WindowLength(): (n: nat)
      reads this
      ensures n <= ROLLING_SLOTS || !Valid()
    {
      if hasFilledOnce then ROLLING_SLOTS else frameIdx
    }

    function Window(): (w: seq<int>)
      requires Valid()
      reads this, frameTimes
      ensures |w| == WindowLength()
    {
      frameTimes[..WindowLength()]
    }

    /** A value-initialised snapshot: empty window, zeroed slots. */
    constructor ()
      ensures Valid() && fresh(frameTimes) && fresh(frameTimesCopy)
      ensures frameIdx == 0 && !hasFilledOnce
      ensures forall k :: 0 <= k < ROLLING_SLOTS ==> frameTimes[k] == 0 && frameTimesCopy[k] == 0
    {
      hasFilledOnce, frameIdx := false, 0;
      frameTimes := new int[ROLLING_SLOTS](_ => 0);
      frameTimesCopy := new int[ROLLING_SLOTS](_ => 0);
    }

    /**
     * Store the sample at frameIdx and advance it modulo 60; hasFilledOnce is
     * recomputed from the new index on every call.
     */
    method AddTime(timeMicroseconds: int)
      requires Valid()
      modifies this, frameTimes
      ensures Valid() && frameTimes == old(frameTimes) && frameTimesCopy == old(frameTimesCopy)
      ensures frameTimes[..] == old(frameTimes[..])[old(frameIdx) := timeMicroseconds]
      ensures (frameIdx, hasFilledOnce) == NextCounters((old(frameIdx), old(hasFilledOnce)), false)
    {
      frameTimes[frameIdx] := timeMicroseconds;
      frameIdx := (frameIdx + 1) % ROLLING_SLOTS;
      hasFilledOnce := AddedFilledFlag(hasFilledOnce, frameIdx);
    }

    /** AddTime with the fill flag kept once set, so that the window stays 60 samples wide. */
    method AddTimeRetainingFill(timeMicroseconds: int)
      requires Valid()
      modifies this, frameTimes
      ensures Valid() && frameTimes == old(frameTimes) && frameTimesCopy == old(frameTimesCopy)
      ensures frameTimes[..] == old(frameTimes[..])[old(frameIdx) := timeMicroseconds]
      ensures (frameIdx, hasFilledOnce) == NextCounters((old(frameIdx), old(hasFilledOnce)), true)
    {
      frameTimes[frameIdx] := timeMicroseconds;
      frameIdx := (frameIdx + 1) % ROLLING_SLOTS;
      hasFilledOnce := RetainedFilledFlag(hasFilledOnce, frameIdx);
    }

    /**
     * Copy the ring, sort the window inside the copy and return the element
     * at the middle of the window; with an empty window that is slot 0 of the
     * copy. The samples themselves are left as they are.
     */
    method GetMedian() returns (median: int)
      requires Valid()
      modifies frameTimesCopy
      ensures Valid() && frameTimes[..] == old(frameTimes[..])
      ensures frameTimesCopy[..WindowLength()] == SortSeq(Window())
      ensures frameTimesCopy[WindowLength()..] == frameTimes[WindowLength()..]
      ensures WindowLength() > 0 ==> median == SortSeq(Window())[WindowLength() / 2] && median in Window()
      ensures WindowLength() == 0 ==> median == frameTimes[0]
    {
      var n := WindowLength();
      var sorted := SortSeq(frameTimes[..n]);
      forall k | 0 <= k < ROLLING_SLOTS {
        frameTimesCopy[k] := if k < n then sorted[k] else frameTimes[k];
      }
      assert frameTimesCopy[n..] == frameTimes[n..] by {
        forall k | 0 <= k < ROLLING_SLOTS - n ensures frameTimesCopy[n..][k] == frameTimes[n..][k] {
          assert frameTimesCopy[n + k] == frameTimes[n + k];
        }
      }
      assert frameTimesCopy[..n] == sorted;
      median := frameTimesCopy[n / 2];
      if n > 0 {
        assert median == sorted[n / 2];
        assert median in multiset(sorted);
      }
    }

    /** The mean of the window, or the zero default for an empty one. */
    function GetArithmeticMean(): (m: real)
      requires Valid()
      reads this, frameTimes
      ensures WindowLength() == 0 ==> m == 0.0
      ensures WindowLength() > 0 ==> SeqMin(Window()) as real <= m <= SeqMax(Window()) as real
    {
      MeanOfSamples(Window())
    }

    /** `*this = FrameTimeSnapshotRolling()`: a value-initialised snapshot. */
    method Reset()
      requires Valid()
      modifies this, frameTimes, frameTimesCopy
      ensures Valid() && frameTimes == old(frameTimes) && frameTimesCopy == old(frameTimesCopy)
      ensures frameIdx == 0 && !hasFilledOnce
      ensures forall k :: 0 <= k < ROLLING_SLOTS ==> frameTimes[k] == 0 && frameTimesCopy[k] == 0
    {
      hasFilledOnce, frameIdx := false, 0;
      forall k | 0 <= k < ROLLING_SLOTS {
        frameTimes[k] := 0;
      }
      forall k | 0 <= k < ROLLING_SLOTS {
        frameTimesCopy[k] := 0;
      }
    }
  }

  /** hasFilledOnce after an add, as written: whether the index just wrapped to 0. */
  function AddedFilledFlag(hasFilledOnce: bool, newFrameIdx: nat): bool
  {
    newFrameIdx == 0
  }

  /** The intended flag: set once the index first wraps, and kept from then on. */
  function RetainedFilledFlag(hasFilledOnce: bool, newFrameIdx: nat): bool
  {
    hasFilledOnce || newFrameIdx == 0
  }

  /** The ring's (frameIdx, hasFilledOnce) after one add; `retainFill` chooses the corrected flag. */
  function NextCounters(counters: (nat, bool), retainFill: bool): (nat, bool)
  {
    var idx := (counters.0 + 1) % ROLLING_SLOTS;
    (idx, if retainFill then RetainedFilledFlag(counters.1, idx) else AddedFilledFlag(counters.1, idx))
  }

  /** The counters after `n` adds to a freshly reset ring. */
  function CountersAfter(n: nat, retainFill: bool): (nat, bool)
  {
    if n == 0 then (0, false) else NextCounters(CountersAfter(n - 1, retainFill), retainFill)
  }

  function WindowLengthOf(counters: (nat, bool)): nat
  {
    if counters.1 then ROLLING_SLOTS else counters.0
  }

  /** As written, the window covers only the samples since the index last wrapped. */
  lemma {:induction false} WindowAfterAddsAsWritten(n: nat)
    ensures CountersAfter(n, false).0 == n % ROLLING_SLOTS
    ensures WindowLengthOf(CountersAfter(n, false)) == if n > 0 && n % ROLLING_SLOTS == 0 then ROLLING_SLOTS else n % ROLLING_SLOTS
  {
    if n > 0 {
      WindowAfterAddsAsWritten(n - 1);
      IndexStep(n);
    }
  }

  lemma IndexStep(n: nat)
    requires n > 0
    ensures ((n - 1) % ROLLING_SLOTS + 1) % ROLLING_SLOTS == n % ROLLING_SLOTS
    ensures n % ROLLING_SLOTS == 0 <==> (n - 1) % ROLLING_SLOTS == ROLLING_SLOTS - 1
  {
  }

  /** After a positive multiple of 60 samples the window is full; one more sample (the 61st, 121st, ...) shrinks it to 1. */
  lemma NextSampleAfterFullWindowShrinksIt(n: nat)
    requires n > 0 && n % ROLLING_SLOTS == 0
    ensures WindowLengthOf(CountersAfter(n, false)) == ROLLING_SLOTS
    ensures WindowLengthOf(CountersAfter(n + 1, false)) == 1
  {
    WindowAfterAddsAsWritten(n);
    WindowAfterAddsAsWritten(n + 1);
  }

  /** With the flag retained, the window holds min(n, 60) samples. */
  lemma {:induction false} WindowAfterAddsRetained(n: nat)
    ensures CountersAfter(n, true).0 == n % ROLLING_SLOTS
    ensures CountersAfter(n, true).1 <==> n >= ROLLING_SLOTS
    ensures WindowLengthOf(CountersAfter(n, true)) == if n < ROLLING_SLOTS then n else ROLLING_SLOTS
  {
    if n > 0 {
      WindowAfterAddsRetained(n - 1);
      IndexStep(n);
    }
  }
}
