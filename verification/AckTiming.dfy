/**
 * Command acknowledge latencies: a histogram of nine bins, and percentiles read off it. The
 * percentiles are compared with the nearest-rank percentiles of the recorded history.
 */
module AckTiming {
  import opened Machine

  const FINITE_BINS := 8
  const BIN_COUNT := 9
  const BIN_UPPER_US: seq<u32> := [100, 250, 500, 1000, 2000, 5000, 10000, 25000]

  /** Rounded up and saturating; without a clock every duration is 0. */
  function CyclesToMicroseconds(hz: u32, cycles: u32): (us: u32) {
    if hz == 0 then 0
    else
      var exact := (cycles * 1000000 + hz - 1) / hz;
      if exact > UINT32_MAX then UINT32_MAX else exact
  }

  /** So many cycles last at most so many microseconds. */
  predicate Lasts(hz: nat, cycles: nat, us: nat) {
    cycles * 1000000 <= us * hz
  }

  /** The least number of microseconds that covers the cycles, as far as 32 bits can show it. */
  predicate IsMicroseconds(hz: nat, cycles: nat, us: nat) {
    if Lasts(hz, cycles, UINT32_MAX) then
      us <= UINT32_MAX && Lasts(hz, cycles, us) && forall u: nat :: u < us ==> !Lasts(hz, cycles, u)
    else us == UINT32_MAX
  }

  lemma MicrosecondsAreExact(hz: u32, cycles: u32)
    requires hz > 0
    ensures IsMicroseconds(hz, cycles, CyclesToMicroseconds(hz, cycles))
  {
    var c: nat, h: nat := cycles, hz;
    var q := (c * 1000000 + h - 1) / h;
    assert q * h <= c * 1000000 + h - 1 < (q + 1) * h;
    forall u: nat
      ensures Lasts(h, c, u) <==> u >= q
    {
      if u >= q {
        NotLess(q, u, h);
      } else {
        NotLess(u, q - 1, h);
      }
    }
  }

  lemma NotLess(a: nat, b: nat, h: nat)
    requires a <= b
    ensures a * h <= b * h
  {
  }

  lemma LongerIsNotShorter(hz: u32, a: u32, b: u32)
    requires a <= b
    ensures CyclesToMicroseconds(hz, a) <= CyclesToMicroseconds(hz, b)
  {
    if hz != 0 {
      DivisionIsMonotone(a * 1000000 + hz - 1, b * 1000000 + hz - 1, hz);
    }
  }

  lemma DivisionIsMonotone(a: nat, b: nat, d: nat)
    requires a <= b && d > 0
    ensures a / d <= b / d
  {
    var p, q := a / d, b / d;
    assert (p - q) * d <= b % d;
    if p > q {
      AtLeastOnce(p - q, d);
      assert false;
    }
  }

  lemma AtLeastOnce(n: int, d: nat)
    requires n >= 1
    ensures n * d >= d
  {
  }

  // ---------------------------------------------------------------- nearest rank

  /** How many of the latencies are at most `x`. */
  function AtMost(ls: seq<u32>, x: int): (n: nat)
    ensures n <= |ls|
  {
    if ls == [] then 0
    else AtMost(ls[..|ls| - 1], x) + if ls[|ls| - 1] <= x then 1 else 0
  }

  /** `v` stands at the given rank when the latencies are sorted. */
  predicate AtRank(ls: seq<u32>, rank: int, v: int) {
    AtMost(ls, v - 1) < rank <= AtMost(ls, v)
  }

  /** ceil(n * percentile / 100) */
  function Rank(n: nat, percentile: nat): nat {
    (n * percentile + 99) / 100
  }

  /** The nearest rank: the least that reaches the percentage. */
  lemma RankIsNearest(n: nat, percentile: nat)
    ensures var r := Rank(n, percentile);
            100 * r >= n * percentile && forall k :: 0 <= k < r ==> 100 * k < n * percentile
  {
  }

  lemma RankIsAPosition(n: nat, percentile: nat)
    requires n > 0 && 1 <= percentile <= 100
    ensures 1 <= Rank(n, percentile) <= n
  {
    assert n <= n * percentile <= n * 100;
  }

  lemma RankIsMonotone(n: nat, p: nat, q: nat)
    requires p <= q
    ensures Rank(n, p) <= Rank(n, q)
  {
    assert n * p <= n * q;
  }

  lemma {:induction false} AtMostIsMonotone(ls: seq<u32>, x: int, y: int)
    requires x <= y
    ensures AtMost(ls, x) <= AtMost(ls, y)
  {
    if ls != [] {
      AtMostIsMonotone(ls[..|ls| - 1], x, y);
    }
  }

  lemma {:induction false} AllAtMost(ls: seq<u32>, x: int)
    requires forall i :: 0 <= i < |ls| ==> ls[i] <= x
    ensures AtMost(ls, x) == |ls|
  {
    if ls != [] {
      AllAtMost(ls[..|ls| - 1], x);
    }
  }

  lemma {:induction false} NoneAtMost(ls: seq<u32>, x: int)
    requires forall i :: 0 <= i < |ls| ==> ls[i] > x
    ensures AtMost(ls, x) == 0
  {
    if ls != [] {
      NoneAtMost(ls[..|ls| - 1], x);
    }
  }

  /** What stands at a rank is one of the latencies. */
  lemma {:induction false} AtRankIsALatency(ls: seq<u32>, rank: int, v: int)
    requires AtRank(ls, rank, v)
    ensures v in ls
  {
    var rest := ls[..|ls| - 1];
    if ls[|ls| - 1] != v {
      AtRankIsALatency(rest, if ls[|ls| - 1] < v then rank - 1 else rank, v);
    }
  }

  /** Every rank is taken, and by one value only. */
  lemma {:induction false} RankIsTaken(ls: seq<u32>, rank: nat, from: int) returns (v: int)
    requires 1 <= rank <= AtMost(ls, from) && from >= -1
    ensures AtRank(ls, rank, v) && v <= from
    decreases from + 1
  {
    if from == -1 {
      NoneAtMost(ls, -1);
      assert false;
    } else if AtMost(ls, from - 1) < rank {
      v := from;
    } else {
      v := RankIsTaken(ls, rank, from - 1);
    }
  }

  lemma RankIsTakenOnce(ls: seq<u32>, rank: int, v: int, w: int)
    requires AtRank(ls, rank, v) && AtRank(ls, rank, w)
    ensures v == w
  {
    if v < w {
      AtMostIsMonotone(ls, v, w - 1);
    } else if w < v {
      AtMostIsMonotone(ls, w, v - 1);
    }
  }

  // ---------------------------------------------------------------- histogram

  /** How many latencies lie in the bins up to and including `b`. */
  function Through(ls: seq<u32>, b: int): nat
    requires -1 <= b < BIN_COUNT
  {
    if b < 0 then 0 else if b < FINITE_BINS then AtMost(ls, BIN_UPPER_US[b]) else |ls|
  }

  lemma ThroughEnds(ls: seq<u32>)
    ensures Through(ls, -1) == 0 && Through(ls, BIN_COUNT - 1) == |ls|
  {
  }

  predicate InBin(us: int, b: nat)
    requires b < BIN_COUNT
  {
    && (b > 0 ==> BIN_UPPER_US[b - 1] < us)
    && (b < FINITE_BINS ==> us <= BIN_UPPER_US[b])
  }

  lemma ThroughIsMonotone(ls: seq<u32>, a: int, b: int)
    requires -1 <= a <= b < BIN_COUNT
    ensures Through(ls, a) <= Through(ls, b)
  {
    if 0 <= a && b < FINITE_BINS {
      AtMostIsMonotone(ls, BIN_UPPER_US[a], BIN_UPPER_US[b]);
    }
  }

  /** The bin in which the cumulative count reaches a rank is the bin of the latency at that rank. */
  lemma RankLiesInBin(ls: seq<u32>, rank: nat, b: nat, v: int)
    requires b < BIN_COUNT && Through(ls, b - 1) < rank <= Through(ls, b)
    requires AtRank(ls, rank, v)
    ensures InBin(v, b)
  {
    if b > 0 && v <= BIN_UPPER_US[b - 1] {
      AtMostIsMonotone(ls, v, BIN_UPPER_US[b - 1]);
    }
    if b < FINITE_BINS && v > BIN_UPPER_US[b] {
      AtMostIsMonotone(ls, BIN_UPPER_US[b], v - 1);
    }
  }

  /** How many latencies lie in the bin. */
  function InBinCount(ls: seq<u32>, b: nat): (n: nat)
    requires b < BIN_COUNT
    ensures n <= |ls|
  {
    if ls == [] then 0
    else InBinCount(ls[..|ls| - 1], b) + if InBin(ls[|ls| - 1], b) then 1 else 0
  }

  /** The bins do not overlap and leave no gap. */
  lemma OneBinEach(us: int, a: nat, b: nat)
    requires a < BIN_COUNT && b < BIN_COUNT && InBin(us, a) && InBin(us, b)
    ensures a == b
  {
  }

  lemma {:induction false} ThroughSteps(ls: seq<u32>, b: nat)
    requires b < BIN_COUNT
    ensures Through(ls, b) == Through(ls, b - 1) + InBinCount(ls, b)
  {
    if ls != [] {
      ThroughSteps(ls[..|ls| - 1], b);
    }
  }

  /** One more latency is one more in its bin and in no other. */
  lemma OneMore(ls: seq<u32>, us: u32, bin: nat)
    requires bin < BIN_COUNT && InBin(us, bin)
    ensures forall b :: 0 <= b < BIN_COUNT ==>
              InBinCount(ls + [us], b) == InBinCount(ls, b) + if b == bin then 1 else 0
  {
    hide InBin;
    assert (ls + [us])[..|ls|] == ls;
    forall b | 0 <= b < BIN_COUNT
      ensures InBinCount(ls + [us], b) == InBinCount(ls, b) + if b == bin then 1 else 0
    {
      if InBin(us, b) {
        OneBinEach(us, b, bin);
      }
    }
  }

  /** The first `n` counters together. */
  function SumOf(bins: seq<u32>, n: nat): (sum: nat)
    requires n <= |bins|
  {
    if n == 0 then 0 else SumOf(bins, n - 1) + bins[n - 1]
  }

  /** The counters of the bins up to `n` add up to the latencies up to there, modulo 2^32. */
  lemma {:induction false} SumIsThrough(bins: seq<u32>, ls: seq<u32>, n: nat)
    requires Histogram(bins, ls) && n <= BIN_COUNT
    ensures Wrap32(SumOf(bins, n)) == Wrap32(Through(ls, n - 1))
    ensures |ls| < TWO_32 ==> SumOf(bins, n) == Through(ls, n - 1)
  {
    hide Wrap32, InBinCount, Through;
    ThroughEnds(ls);
    if n > 0 {
      SumIsThrough(bins, ls, n - 1);
      ThroughSteps(ls, n - 1);
      var sum, count := SumOf(bins, n - 1), InBinCount(ls, n - 1);
      WrapOfSum(sum, count);
      WrapOfSum(count, sum);
      WrapOfSum(count, Through(ls, n - 2));
      if |ls| < TWO_32 {
        SmallIsUnwrapped(count);
      }
    }
  }

  /** What a percentile request answers: the bound of the bin that the rank falls into. */
  predicate Reported(ls: seq<u32>, longest: u32, rank: nat, us: u32, bin: nat) {
    && bin < BIN_COUNT && Through(ls, bin - 1) < rank <= Through(ls, bin)
    && us == if bin < FINITE_BINS then BIN_UPPER_US[bin] else longest
  }

  predicate Longest(ls: seq<u32>, longest: u32) {
    longest in ls && forall i :: 0 <= i < |ls| ==> ls[i] <= longest
  }

  /**
   * The answer is never below the true nearest-rank value, and lies in the same bin; in the
   * overflow bin it is the longest latency.
   */
  lemma ReportBoundsNearestRank(ls: seq<u32>, longest: u32, rank: nat, us: u32, bin: nat) returns (v: int)
    requires Longest(ls, longest) && Reported(ls, longest, rank, us, bin)
    ensures AtRank(ls, rank, v) && v in ls && v <= us && InBin(v, bin) && InBin(us, bin)
  {
    AllAtMost(ls, longest);
    v := RankIsTaken(ls, rank, longest);
    AtRankIsALatency(ls, rank, v);
    RankLiesInBin(ls, rank, bin, v);
  }

  /** A higher rank is never answered with a lower bound. */
  lemma ReportsAreMonotone(ls: seq<u32>, longest: u32, rank: nat, us: u32, bin: nat,
                           rank': nat, us': u32, bin': nat)
    requires Longest(ls, longest) && rank <= rank'
    requires Reported(ls, longest, rank, us, bin) && Reported(ls, longest, rank', us', bin')
    ensures us <= us' <= if bin' < FINITE_BINS then BIN_UPPER_US[bin'] else longest
  {
    var v := ReportBoundsNearestRank(ls, longest, rank', us', bin');
    if bin' < bin {
      ThroughIsMonotone(ls, bin', bin - 1);
    } else if bin < bin' {
      assert BIN_UPPER_US[bin] <= BIN_UPPER_US[bin' - 1] < us';
    }
  }

  // ---------------------------------------------------------------- the object

  function Latencies(hz: u32, samples: seq<u32>): (ls: seq<u32>)
    ensures |ls| == |samples|
  {
    seq(|samples|, i requires 0 <= i < |samples| => CyclesToMicroseconds(hz, samples[i]))
  }

  lemma LatenciesGrow(hz: u32, samples: seq<u32>, x: u32)
    ensures Latencies(hz, samples + [x]) == Latencies(hz, samples) + [CyclesToMicroseconds(hz, x)]
  {
    hide CyclesToMicroseconds;
  }

  /** The cycles last longer than the bin below reaches, and no longer than the bin does. */
  predicate LiesIn(hz: nat, cycles: nat, b: nat) {
    var uppers := [100, 250, 500, 1000, 2000, 5000, 10000, 25000];
    && b < 9 && (b > 0 ==> !Lasts(hz, cycles, uppers[b - 1])) && (b < 8 ==> Lasts(hz, cycles, uppers[b]))
  }

  lemma BinIsTrue(hz: u32, cycles: u32, b: nat)
    requires hz > 0 && b < BIN_COUNT
    ensures InBin(CyclesToMicroseconds(hz, cycles), b) <==> LiesIn(hz, cycles, b)
  {
    hide CyclesToMicroseconds;
    if b > 0 {
      BoundIsTrue(hz, cycles, BIN_UPPER_US[b - 1]);
    }
    if b < FINITE_BINS {
      BoundIsTrue(hz, cycles, BIN_UPPER_US[b]);
    }
  }

  lemma BoundIsTrue(hz: u32, cycles: u32, bound: u32)
    requires hz > 0 && bound < UINT32_MAX
    ensures CyclesToMicroseconds(hz, cycles) <= bound <==> Lasts(hz, cycles, bound)
  {
    hide CyclesToMicroseconds;
    MicrosecondsAreExact(hz, cycles);
    var h: nat, us: nat := hz, CyclesToMicroseconds(hz, cycles);
    if us <= bound {
      NotLess(us, bound, h);
    } else {
      NotLess(bound, UINT32_MAX, h);
    }
  }

  lemma WithoutClock(cycles: u32, b: nat)
    requires b < BIN_COUNT && InBin(CyclesToMicroseconds(0, cycles), b)
    ensures b == 0
  {
  }

  /** The sample at a rank, in cycles, has the latency at that rank. */
  lemma RankOfCycles(hz: u32, samples: seq<u32>, rank: int, c: u32)
    requires AtRank(samples, rank, c)
    ensures AtRank(Latencies(hz, samples), rank, CyclesToMicroseconds(hz, c))
  {
    hide CyclesToMicroseconds;
    ShorterCounted(hz, samples, c);
  }

  lemma {:induction false} ShorterCounted(hz: u32, samples: seq<u32>, c: u32)
    ensures AtMost(samples, c) <= AtMost(Latencies(hz, samples), CyclesToMicroseconds(hz, c))
    ensures AtMost(Latencies(hz, samples), CyclesToMicroseconds(hz, c) - 1) <= AtMost(samples, c - 1)
  {
    hide CyclesToMicroseconds;
    if samples != [] {
      var rest, last := samples[..|samples| - 1], samples[|samples| - 1];
      ShorterCounted(hz, rest, c);
      assert rest + [last] == samples;
      LatenciesGrow(hz, rest, last);
      assert Latencies(hz, samples)[..|rest|] == Latencies(hz, rest);
      if last <= c {
        LongerIsNotShorter(hz, last, c);
      } else {
        LongerIsNotShorter(hz, c, last);
      }
    }
  }

  /**
   * The answer for a percentile, against the samples themselves: the sample of the nearest rank lies in some
   * bin, and the answer is that bin's bound, or the longest latency if the bin has none.
   */
  ghost predicate TruePercentile(hz: nat, samples: seq<u32>, percentile: nat, longest: u32, us: nat) {
    exists c: u32, b: nat, rank: nat | LiesIn(hz, c, b) && AtRank(samples, rank, c) ::
      && 100 * rank >= |samples| * percentile && 100 * rank < |samples| * percentile + 100
      && c in samples && (us == UINT32_MAX || Lasts(hz, c, us))
      && if b < 8 then us == [100, 250, 500, 1000, 2000, 5000, 10000, 25000][b]
         else IsMicroseconds(hz, longest, us)
  }

  lemma ReportIsTrue(hz: u32, samples: seq<u32>, percentile: nat, longest: u32, us: u32, bin: nat)
    requires hz > 0 && 1 <= percentile <= 100
    requires longest in samples && forall i :: 0 <= i < |samples| ==> samples[i] <= longest
    requires Reported(Latencies(hz, samples), CyclesToMicroseconds(hz, longest), Rank(|samples|, percentile), us, bin)
    ensures TruePercentile(hz, samples, percentile, longest, us)
  {
    hide CyclesToMicroseconds, Latencies, AtMost, Through;
    var n, rank := |samples|, Rank(|samples|, percentile);
    RankIsAPosition(n, percentile);
    RankIsNearest(n, percentile);
    AllAtMost(samples, longest);
    var c := RankIsTaken(samples, rank, longest);
    AtRankIsALatency(samples, rank, c);
    RankOfCycles(hz, samples, rank, c);
    RankLiesInBin(Latencies(hz, samples), rank, bin, CyclesToMicroseconds(hz, c));
    BinIsTrue(hz, c, bin);
    MicrosecondsAreExact(hz, longest);
    if bin == 8 {
      LastsThrough(hz, c, longest, us);
    }
    assert LiesIn(hz, c, bin) && AtRank(samples, rank, c);
  }

  lemma LastsThrough(hz: nat, c: nat, longest: nat, us: nat)
    requires c <= longest && IsMicroseconds(hz, longest, us)
    ensures us == UINT32_MAX || Lasts(hz, c, us)
  {
  }

  /** Every counter shows, modulo 2^32, how many latencies its bin has. */
  predicate Histogram(bins: seq<u32>, ls: seq<u32>) {
    |bins| == BIN_COUNT && forall b :: 0 <= b < BIN_COUNT ==> bins[b] == Wrap32(InBinCount(ls, b))
  }

  lemma HistogramGrows(bins: seq<u32>, ls: seq<u32>, us: u32, bin: nat)
    requires Histogram(bins, ls) && bin < BIN_COUNT && InBin(us, bin)
    ensures Histogram(bins[bin := Add32(bins[bin], 1)], ls + [us])
  {
    hide Wrap32, InBinCount;
    OneMore(ls, us, bin);
    AddIsWrapped(InBinCount(ls, bin), 1);
  }

  lemma HasAllBins(bins: seq<u32>, ls: seq<u32>)
    requires Histogram(bins, ls)
    ensures |bins| == BIN_COUNT
  {
  }

  predicate Extremes(samples: seq<u32>, minimum: u32, maximum: u32, current: u32) {
    if samples == [] then minimum == UINT32_MAX && maximum == 0
    else
      && (forall i :: 0 <= i < |samples| ==> minimum <= samples[i] <= maximum)
      && minimum in samples && maximum in samples && current == samples[|samples| - 1]
  }

  lemma ExtremesGrow(samples: seq<u32>, minimum: u32, maximum: u32, current: u32, x: u32)
    requires Extremes(samples, minimum, maximum, current)
    ensures Extremes(samples + [x], if x < minimum then x else minimum, if x > maximum then x else maximum, x)
  {
    var more := samples + [x];
    assert more[|samples|] == x;
    assert forall y :: y in samples ==> y in more;
  }

  class AckStats {
    const hz: u32
    const enabled: bool
    var sampleCount: u32
    var currentCycles: u32
    var minimumCycles: u32
    var maximumCycles: u32
    const bins: array<u32>

    // the elapsed cycles of every acknowledge recorded
    ghost var samples: seq<u32>

    ghost predicate Valid()
      reads this, bins
    {
      && sampleCount == Wrap32(|samples|)
      && Histogram(bins[..], Latencies(hz, samples))
      && Extremes(samples, minimumCycles, maximumCycles, currentCycles)
    }

    constructor (hz: u32, enabled: bool)
      ensures Valid() && fresh(bins) && samples == [] && this.hz == hz && this.enabled == enabled
    {
      this.hz, this.enabled := hz, enabled;
      sampleCount, currentCycles, minimumCycles, maximumCycles := 0, 0, UINT32_MAX, 0;
      bins := new u32[BIN_COUNT](_ => 0);
      samples := [];
    }

    /** App_Timing_RecordAckElapsed */
    method Record(start: u32, end: u32) returns (ghost bin: nat)
      requires Valid()
      modifies this, bins
      ensures Valid()
      ensures samples == if enabled then old(samples) + [Sub32(end, start)] else old(samples)
      ensures !enabled ==> bins[..] == old(bins[..])
      ensures enabled ==>
                && bin < bins.Length && bins[..] == old(bins[..])[bin := Add32(old(bins[..])[bin], 1)]
                && (if hz > 0 then LiesIn(hz, Sub32(end, start), bin) else bin == 0)
    {
      hide Wrap32, Extremes, Histogram, CyclesToMicroseconds, Latencies, Sub32, LiesIn, InBin;
      bin := 0;
      if !enabled {
        return;
      }
      var elapsed := Sub32(end, start);
      var us := CyclesToMicroseconds(hz, elapsed);
      LatenciesGrow(hz, samples, elapsed);
      AddIsWrapped(|samples|, 1);
      ExtremesGrow(samples, minimumCycles, maximumCycles, currentCycles, elapsed);
      sampleCount := Add32(sampleCount, 1);
      currentCycles := elapsed;
      if elapsed < minimumCycles {
        minimumCycles := elapsed;
      }
      if elapsed > maximumCycles {
        maximumCycles := elapsed;
      }
      bin := CountIn(us, Latencies(hz, samples));
      samples := samples + [elapsed];
      if hz > 0 {
        BinIsTrue(hz, elapsed, bin);
      } else {
        WithoutClock(elapsed, bin);
      }
    }

    /** The loop that finds the bin. */
    method CountIn(us: u32, ghost ls: seq<u32>) returns (bin: nat)
      requires Histogram(bins[..], ls)
      modifies bins
      ensures Histogram(bins[..], ls + [us])
      ensures bin < bins.Length == BIN_COUNT && InBin(us, bin)
      ensures bins[..] == old(bins[..])[bin := Add32(old(bins[..])[bin], 1)]
    {
      bin := 0;
      while bin < FINITE_BINS && us > BIN_UPPER_US[bin]
        invariant 0 <= bin <= FINITE_BINS
        invariant bin > 0 ==> us > BIN_UPPER_US[bin - 1]
      {
        bin := bin + 1;
      }
      ghost var counts := bins[..];
      HistogramGrows(counts, ls, us, bin);
      bins[bin] := Add32(bins[bin], 1);
      assert bins[..] == counts[bin := Add32(counts[bin], 1)];
    }

    /** App_Timing_GetPercentileUs */
    method Percentile(percentile: u32) returns (us: u32, ghost bin: nat)
      requires Valid() && 1 <= percentile <= 100
      ensures samples == [] ==> us == 0
      ensures 0 < |samples| < TWO_32 ==>
                Reported(Latencies(hz, samples), CyclesToMicroseconds(hz, maximumCycles),
                         Rank(|samples|, percentile), us, bin)
    {
      hide Wrap32, Rank, Through, AtMost;
      bin := 0;
      ghost var ls, n := Latencies(hz, samples), |samples|;
      ghost var exact := 0 < n < TWO_32;
      SmallIsUnwrapped(0);
      if exact {
        SmallIsUnwrapped(n);
        RankIsAPosition(n, percentile);
        ThroughEnds(ls);
      }
      if sampleCount == 0 {
        return 0, 0;
      }
      var rank := Rank(sampleCount, percentile);
      var cumulative: u32 := 0;
      for b := 0 to BIN_COUNT
        invariant exact ==> cumulative == Through(ls, b - 1) < rank
      {
        if exact {
          ThroughIsMonotone(ls, b, BIN_COUNT - 1);
          ThroughSteps(ls, b);
          SmallIsUnwrapped(InBinCount(ls, b));
        }
        cumulative := Add32(cumulative, bins[b]);
        if cumulative >= rank {
          us := if b < FINITE_BINS then BIN_UPPER_US[b] else CyclesToMicroseconds(hz, maximumCycles);
          bin := b;
          return;
        }
      }
      us := CyclesToMicroseconds(hz, maximumCycles);
    }

    /** Every sample is in exactly one bin: the counters add up to the sample count. */
    lemma BinsSumToSamples()
      requires Valid()
      ensures bins.Length == BIN_COUNT
      ensures Wrap32(SumOf(bins[..], BIN_COUNT)) == sampleCount
      ensures |samples| < TWO_32 ==> SumOf(bins[..], BIN_COUNT) == sampleCount
    {
      hide Wrap32, Histogram, Extremes, Latencies, Through;
      var ls := Latencies(hz, samples);
      HasAllBins(bins[..], ls);
      SumIsThrough(bins[..], ls, BIN_COUNT);
      ThroughEnds(ls);
      if |samples| < TWO_32 {
        SmallIsUnwrapped(|samples|);
      }
    }

    lemma LongestIsRecorded()
      requires Valid() && samples != []
      ensures Longest(Latencies(hz, samples), CyclesToMicroseconds(hz, maximumCycles))
    {
      var ls := Latencies(hz, samples);
      var i :| 0 <= i < |samples| && samples[i] == maximumCycles;
      assert ls[i] == CyclesToMicroseconds(hz, maximumCycles);
      forall j | 0 <= j < |ls|
        ensures ls[j] <= CyclesToMicroseconds(hz, maximumCycles)
      {
        LongerIsNotShorter(hz, samples[j], maximumCycles);
      }
    }

    /** App_Timing_GetAckSummary */
    method Summary() returns (p50: u32, p95: u32, p99: u32, longest: u32)
      requires Valid()
      ensures |samples| < TWO_32 ==> p50 <= p95 <= p99
      ensures longest == CyclesToMicroseconds(hz, maximumCycles)
      ensures 0 < |samples| < TWO_32 ==>
                && Bounds(Latencies(hz, samples), 50, p50) && Bounds(Latencies(hz, samples), 95, p95)
                && Bounds(Latencies(hz, samples), 99, p99) && Longest(Latencies(hz, samples), longest)
      ensures 0 < |samples| < TWO_32 && hz > 0 ==>
                && TruePercentile(hz, samples, 50, maximumCycles, p50)
                && TruePercentile(hz, samples, 95, maximumCycles, p95)
                && TruePercentile(hz, samples, 99, maximumCycles, p99)
                && IsMicroseconds(hz, maximumCycles, longest)
                && maximumCycles in samples && forall i :: 0 <= i < |samples| ==> samples[i] <= maximumCycles
    {
      hide TruePercentile, IsMicroseconds;
      ghost var bin50, bin95, bin99;
      p50, bin50 := Percentile(50);
      p95, bin95 := Percentile(95);
      p99, bin99 := Percentile(99);
      longest := CyclesToMicroseconds(hz, maximumCycles);
      ghost var ls, n := Latencies(hz, samples), |samples|;
      if 0 < n < TWO_32 {
        LongestIsRecorded();
        RankIsMonotone(n, 50, 95);
        RankIsMonotone(n, 95, 99);
        ReportsAreMonotone(ls, longest, Rank(n, 50), p50, bin50, Rank(n, 95), p95, bin95);
        ReportsAreMonotone(ls, longest, Rank(n, 95), p95, bin95, Rank(n, 99), p99, bin99);
        var v50 := ReportBoundsNearestRank(ls, longest, Rank(n, 50), p50, bin50);
        var v95 := ReportBoundsNearestRank(ls, longest, Rank(n, 95), p95, bin95);
        var v99 := ReportBoundsNearestRank(ls, longest, Rank(n, 99), p99, bin99);
        if hz > 0 {
          ReportIsTrue(hz, samples, 50, maximumCycles, p50, bin50);
          ReportIsTrue(hz, samples, 95, maximumCycles, p95, bin95);
          ReportIsTrue(hz, samples, 99, maximumCycles, p99, bin99);
          MicrosecondsAreExact(hz, maximumCycles);
        }
      }
    }
  }

  /** An upper bound of the true percentile, within its bin. */
  ghost predicate Bounds(ls: seq<u32>, percentile: nat, us: u32) {
    exists v, b: nat | b < BIN_COUNT && InBin(v, b) ::
      AtRank(ls, Rank(|ls|, percentile), v) && v in ls && v <= us && InBin(us, b)
  }
}
