/**
 * The walk-slot recommender (`getRecommendations` in script.js): the preferred
 * range is cut into `timesPerDay` equal slots, and in each slot the hourly
 * candidates `slotStart, slotStart + 60, ...` are scanned for the first one
 * with the strictly lowest precipitation.
 *
 * Precipitation values are only ever compared with `<`, so they are modelled
 * as reals. A lookup outside the forecast array is JavaScript's `undefined`,
 * for which `undefined < x` is false; it is modelled as `None`.
 */
module Recommender {
  import opened Wrappers
  import opened TimeCodec

  /** `Number.MAX_VALUE`, (2 - 2^-52) * 2^1023, written out exactly. */
  const MaxValue: real := 179769313486231570814527423731704356798070567525844996598917476803157260780028538760589558632766878171540458953514382464234321326889464182768467546703537516986049910576551282076245490090389328944075868508455133942304583236903222948165808559332123348274797826204144723168738177180919299881250404026184124858368.0

  /** One entry of the list `getRecommendations` returns. */
  datatype Recommendation = Recommendation(time: string, precipitation: real)

  /** The `bestTime` and `lowestPrecipitation` a slot's scan ends with. */
  datatype Pick = Pick(time: int, lowest: real)

  /** `weatherData[hour]`, which is `undefined` outside the array. */
  function Lookup(weatherData: seq<real>, hour: int): Option<real> {
    if 0 <= hour < |weatherData| then Some(weatherData[hour]) else None
  }

  /** `precipitation < lowestPrecipitation`, false when the lookup gave `undefined`. */
  predicate Below(v: Option<real>, bound: real) {
    v.Some? && v.value < bound
  }

  /** The lookup gave a number no greater than `bound`. */
  predicate AtMost(v: Option<real>, bound: real) {
    v.Some? && v.value <= bound
  }

  /** `Math.floor(span / timesPerDay)`: the width of each slot. Dafny's `/` by a positive
      divisor rounds down, negative spans included. */
  function Interval(span: int, timesPerDay: int): int
    requires timesPerDay > 0
  {
    span / timesPerDay
  }

  /** The slot width is the largest whose `timesPerDay` copies fit into the span. */
  lemma IntervalBounds(span: int, timesPerDay: int)
    requires timesPerDay > 0
    ensures var interval := Interval(span, timesPerDay);
            timesPerDay * interval <= span < timesPerDay * (interval + 1)
  {
    var interval := Interval(span, timesPerDay);
    assert span == timesPerDay * interval + span % timesPerDay;
  }

  /** `timeSlotStart` of slot `i`: the range start moved on by `i` slot widths. */
  function SlotStart(start: int, interval: int, i: nat): int {
    if i == 0 then start else SlotStart(start, interval, i - 1) + interval
  }

  /** Slot `i` starts at `start + i * interval`, as script.js computes it. */
  lemma {:induction false} SlotStartFormula(start: int, interval: int, i: nat)
    ensures SlotStart(start, interval, i) == start + i * interval
  {
    if i > 0 {
      SlotStartFormula(start, interval, i - 1);
    }
  }

  lemma MulLeft(a: int, b: int, c: int)
    requires a <= b && c >= 0
    ensures a * c <= b * c
  {
    assert b * c - a * c == (b - a) * c;
  }

  /** A positive factor grows in magnitude when multiplied by a number beyond 1 or -1. */
  lemma MulBeyondOne(c: int, q: int)
    requires c > 0
    ensures q >= 1 ==> c * q >= c
    ensures q <= -1 ==> c * q <= -c
  {
    if q >= 1 {
      MulLeft(1, q, c);
    }
    if q <= -1 {
      MulLeft(q, -1, c);
    }
  }

  /** Within a span cut into `timesPerDay` widths of `q`, slot `i` starts at offset
      `i * q` from 0 on and ends by offset `timesPerDay * q`. */
  lemma SlotOffsets(span: int, timesPerDay: int, i: int, q: int)
    requires 0 <= i < timesPerDay
    requires timesPerDay * q <= span < timesPerDay * (q + 1)
    requires span >= 0
    ensures q >= 0 && 0 <= i * q && i * q + q <= timesPerDay * q
  {
    MulBeyondOne(timesPerDay, q);
    assert timesPerDay * (q + 1) == timesPerDay * q + timesPerDay;
    MulLeft(0, i, q);
    MulLeft(i + 1, timesPerDay, q);
    assert i * q + q == (i + 1) * q;
  }

  /**
   * For a range that does not end before it starts, slot `i` (which begins `i` slot
   * widths after the start and is one width long) lies inside the range; the slots end
   * at `start + timesPerDay * interval`, fewer than `timesPerDay` minutes before the
   * range end, and the remainder is never visited.
   */
  lemma SlotInsideRange(startTimeInMinutes: int, endTimeInMinutes: int, timesPerDay: int, i: nat)
    requires startTimeInMinutes <= endTimeInMinutes
    requires i < timesPerDay
    ensures var interval := Interval(endTimeInMinutes - startTimeInMinutes, timesPerDay);
            var slotStart := SlotStart(startTimeInMinutes, interval, i);
            var last := SlotStart(startTimeInMinutes, interval, timesPerDay);
            interval >= 0 &&
            startTimeInMinutes <= slotStart && slotStart + interval <= last &&
            last <= endTimeInMinutes < last + timesPerDay
  {
    var interval := Interval(endTimeInMinutes - startTimeInMinutes, timesPerDay);
    IntervalBounds(endTimeInMinutes - startTimeInMinutes, timesPerDay);
    SlotOffsets(endTimeInMinutes - startTimeInMinutes, timesPerDay, i, interval);
    SlotStartFormula(startTimeInMinutes, interval, i);
    SlotStartFormula(startTimeInMinutes, interval, timesPerDay);
  }

  /** Consecutive slots meet, and a later slot starts no earlier than an earlier one ends:
      the slots do not overlap. */
  lemma SlotsDisjoint(start: int, interval: int, i: nat, j: nat)
    requires i < j && interval >= 0
    ensures SlotStart(start, interval, i + 1) == SlotStart(start, interval, i) + interval
    ensures SlotStart(start, interval, i) + interval <= SlotStart(start, interval, j)
  {
    SlotStartFormula(start, interval, i);
    SlotStartFormula(start, interval, j);
    MulLeft(i + 1, j, interval);
    assert (i + 1) * interval == i * interval + interval;
  }

  /** The `k`-th minute the inner loop of a slot visits. */
  function Candidate(slotStart: int, k: int): int {
    slotStart + 60 * k
  }

  /** How many candidates `slotStart, slotStart + 60, ...` lie below `slotEnd`. */
  function CandidateCount(slotStart: int, slotEnd: int): (n: nat)
    ensures forall k: nat :: k < n <==> Candidate(slotStart, k) < slotEnd
  {
    if slotEnd <= slotStart then 0 else (slotEnd - slotStart + 59) / 60
  }

  /** The precipitation looked up for the `k`-th candidate, at hour `Math.floor(minute / 60)`. */
  function Level(weatherData: seq<real>, slotStart: int, k: int): Option<real> {
    Lookup(weatherData, Candidate(slotStart, k) / 60)
  }

  /** None of the first `n` candidates has a number below `bound`. */
  predicate NoneBelow(weatherData: seq<real>, slotStart: int, n: int, bound: real) {
    forall k :: 0 <= k < n ==> !Below(Level(weatherData, slotStart, k), bound)
  }

  /** None of the first `n` candidates has a number at most `bound`. */
  predicate NoneAtMost(weatherData: seq<real>, slotStart: int, n: int, bound: real) {
    forall k :: 0 <= k < n ==> !AtMost(Level(weatherData, slotStart, k), bound)
  }

  /**
   * What the scan of the first `n` candidates must end with. If none of them has a
   * number below `Number.MAX_VALUE`, the initial values stay: the slot start and
   * `MAX_VALUE`. Otherwise the pick is the candidate `K` with the lowest number, no
   * candidate has a lower one, and every earlier candidate has a strictly higher one
   * (or none): ties go to the earliest.
   */
  predicate IsFirstMinimum(weatherData: seq<real>, slotStart: int, n: nat, p: Pick) {
    if NoneBelow(weatherData, slotStart, n, MaxValue) then
      p == Pick(slotStart, MaxValue)
    else
      var K := (p.time - slotStart) / 60;
      0 <= K < n && p.time == Candidate(slotStart, K) &&
      Level(weatherData, slotStart, K) == Some(p.lowest) &&
      NoneBelow(weatherData, slotStart, n, p.lowest) &&
      NoneAtMost(weatherData, slotStart, K, p.lowest)
  }

  /** The inner loop of `getRecommendations` over the first `n` candidates of a slot,
      as a left-to-right fold keeping the first strict minimum. */
  function ScanCandidates(weatherData: seq<real>, slotStart: int, n: nat): (p: Pick)
    ensures p.lowest <= MaxValue
  {
    if n == 0 then Pick(slotStart, MaxValue)
    else
      var prev := ScanCandidates(weatherData, slotStart, n - 1);
      var v := Level(weatherData, slotStart, n - 1);
      if Below(v, prev.lowest) then Pick(Candidate(slotStart, n - 1), v.value) else prev
  }

  /** The candidate index is read back from a candidate minute. */
  lemma CandidateIndex(slotStart: int, k: int)
    ensures (Candidate(slotStart, k) - slotStart) / 60 == k
  {
  }

  /** A candidate strictly below the best so far becomes the first minimum of one more candidate. */
  lemma ScanStepTaken(weatherData: seq<real>, slotStart: int, n: nat, prev: Pick)
    requires n > 0 && prev.lowest <= MaxValue
    requires IsFirstMinimum(weatherData, slotStart, n - 1, prev)
    requires Below(Level(weatherData, slotStart, n - 1), prev.lowest)
    ensures IsFirstMinimum(weatherData, slotStart, n,
                           Pick(Candidate(slotStart, n - 1), Level(weatherData, slotStart, n - 1).value))
  {
    var v := Level(weatherData, slotStart, n - 1).value;
    CandidateIndex(slotStart, n - 1);
    assert Below(Level(weatherData, slotStart, n - 1), MaxValue);
    forall k | 0 <= k < n - 1
      ensures !AtMost(Level(weatherData, slotStart, k), v)
    {
      if NoneBelow(weatherData, slotStart, n - 1, MaxValue) {
        assert !Below(Level(weatherData, slotStart, k), MaxValue);
      } else {
        assert !Below(Level(weatherData, slotStart, k), prev.lowest);
      }
    }
    assert NoneAtMost(weatherData, slotStart, n - 1, v);
    assert NoneBelow(weatherData, slotStart, n, v);
  }

  /** While no candidate had a number, one more without a lower one keeps the initial pick. */
  lemma ScanStepKeptInitial(weatherData: seq<real>, slotStart: int, n: nat)
    requires n > 0
    requires NoneBelow(weatherData, slotStart, n - 1, MaxValue)
    requires !Below(Level(weatherData, slotStart, n - 1), MaxValue)
    ensures NoneBelow(weatherData, slotStart, n, MaxValue)
  {
    forall k | 0 <= k < n
      ensures !Below(Level(weatherData, slotStart, k), MaxValue)
    {
      if k < n - 1 {
        assert !Below(Level(weatherData, slotStart, k), MaxValue);
      }
    }
  }

  /** Once a candidate had a number, one more not strictly lower keeps the pick. */
  lemma ScanStepKeptFound(weatherData: seq<real>, slotStart: int, n: nat, prev: Pick)
    requires n > 0
    requires !NoneBelow(weatherData, slotStart, n - 1, MaxValue)
    requires NoneBelow(weatherData, slotStart, n - 1, prev.lowest)
    requires !Below(Level(weatherData, slotStart, n - 1), prev.lowest)
    ensures !NoneBelow(weatherData, slotStart, n, MaxValue)
    ensures NoneBelow(weatherData, slotStart, n, prev.lowest)
  {
    var j :| 0 <= j < n - 1 && Below(Level(weatherData, slotStart, j), MaxValue);
    assert 0 <= j < n;
    forall k | 0 <= k < n
      ensures !Below(Level(weatherData, slotStart, k), prev.lowest)
    {
      if k < n - 1 {
        assert !Below(Level(weatherData, slotStart, k), prev.lowest);
      }
    }
  }

  /** A candidate not strictly below the best so far leaves the first minimum as it was. */
  lemma ScanStepKept(weatherData: seq<real>, slotStart: int, n: nat, prev: Pick)
    requires n > 0
    requires IsFirstMinimum(weatherData, slotStart, n - 1, prev)
    requires !Below(Level(weatherData, slotStart, n - 1), prev.lowest)
    ensures IsFirstMinimum(weatherData, slotStart, n, prev)
  {
    if NoneBelow(weatherData, slotStart, n - 1, MaxValue) {
      ScanStepKeptInitial(weatherData, slotStart, n);
    } else {
      ScanStepKeptFound(weatherData, slotStart, n, prev);
    }
  }

  /** The scan ends with the first strict minimum of the candidates it visits. */
  lemma {:induction false} ScanIsFirstMinimum(weatherData: seq<real>, slotStart: int, n: nat)
    ensures IsFirstMinimum(weatherData, slotStart, n, ScanCandidates(weatherData, slotStart, n))
  {
    if n > 0 {
      ScanIsFirstMinimum(weatherData, slotStart, n - 1);
      var prev := ScanCandidates(weatherData, slotStart, n - 1);
      if Below(Level(weatherData, slotStart, n - 1), prev.lowest) {
        ScanStepTaken(weatherData, slotStart, n, prev);
      } else {
        ScanStepKept(weatherData, slotStart, n, prev);
      }
    }
  }

  /** `IsFirstMinimum` pins the pick down: two picks meeting it are the same. */
  lemma FirstMinimumIsUnique(weatherData: seq<real>, slotStart: int, n: nat, p: Pick, q: Pick)
    requires IsFirstMinimum(weatherData, slotStart, n, p)
    requires IsFirstMinimum(weatherData, slotStart, n, q)
    ensures p == q
  {
    if !NoneBelow(weatherData, slotStart, n, MaxValue) {
      var kp, kq := (p.time - slotStart) / 60, (q.time - slotStart) / 60;
      assert !Below(Level(weatherData, slotStart, kp), q.lowest);
      assert !Below(Level(weatherData, slotStart, kq), p.lowest);
      assert AtMost(Level(weatherData, slotStart, kq), p.lowest);
      assert AtMost(Level(weatherData, slotStart, kp), q.lowest);
    }
  }

  /** `t` is a minute the inner loop visits for the slot `[slotStart, slotEnd)`. */
  predicate IsCandidate(slotStart: int, slotEnd: int, t: int) {
    slotStart <= t < slotEnd && (t - slotStart) % 60 == 0
  }

  /** No minute the slot visits has a number below `bound`. */
  ghost predicate NoMinuteBelow(weatherData: seq<real>, slotStart: int, slotEnd: int, bound: real) {
    forall t :: IsCandidate(slotStart, slotEnd, t) ==> !Below(Lookup(weatherData, t / 60), bound)
  }

  /** No minute the slot visits before `u` has a number at most `bound`. */
  ghost predicate NoMinuteAtMostBefore(weatherData: seq<real>, slotStart: int, slotEnd: int, u: int, bound: real) {
    forall t :: IsCandidate(slotStart, slotEnd, t) && t < u ==> !AtMost(Lookup(weatherData, t / 60), bound)
  }

  /**
   * The slot-level reading of the scan, in minutes: when no visited minute has a
   * number below `Number.MAX_VALUE`, the slot start with `MAX_VALUE`; otherwise a
   * visited minute whose hour has the number reported, no visited minute with a lower
   * number, and no earlier visited minute with one as low.
   */
  ghost predicate IsSlotMinimum(weatherData: seq<real>, slotStart: int, slotEnd: int, p: Pick) {
    if NoMinuteBelow(weatherData, slotStart, slotEnd, MaxValue) then
      p == Pick(slotStart, MaxValue)
    else
      IsCandidate(slotStart, slotEnd, p.time) &&
      Lookup(weatherData, p.time / 60) == Some(p.lowest) &&
      NoMinuteBelow(weatherData, slotStart, slotEnd, p.lowest) &&
      NoMinuteAtMostBefore(weatherData, slotStart, slotEnd, p.time, p.lowest)
  }

  /** The candidate minutes are exactly `Candidate(slotStart, k)` for `k` below the count. */
  lemma CandidateMinute(slotStart: int, slotEnd: int, t: int)
    ensures IsCandidate(slotStart, slotEnd, t) <==>
            var k := (t - slotStart) / 60;
            0 <= k < CandidateCount(slotStart, slotEnd) && t == Candidate(slotStart, k)
  {
    var k := (t - slotStart) / 60;
    assert t - slotStart == 60 * k + (t - slotStart) % 60;
  }

  lemma CandidateOfIndex(slotStart: int, slotEnd: int, k: int)
    requires 0 <= k < CandidateCount(slotStart, slotEnd)
    ensures IsCandidate(slotStart, slotEnd, Candidate(slotStart, k))
    ensures (Candidate(slotStart, k) - slotStart) / 60 == k
  {
    CandidateMinute(slotStart, slotEnd, Candidate(slotStart, k));
  }

  lemma MinuteBelowIff(weatherData: seq<real>, slotStart: int, slotEnd: int, bound: real)
    ensures NoMinuteBelow(weatherData, slotStart, slotEnd, bound) <==>
            NoneBelow(weatherData, slotStart, CandidateCount(slotStart, slotEnd), bound)
  {
    var n := CandidateCount(slotStart, slotEnd);
    if NoMinuteBelow(weatherData, slotStart, slotEnd, bound) {
      forall k | 0 <= k < n
        ensures !Below(Level(weatherData, slotStart, k), bound)
      {
        CandidateOfIndex(slotStart, slotEnd, k);
        var t := Candidate(slotStart, k);
        assert !Below(Lookup(weatherData, t / 60), bound);
      }
    }
    if NoneBelow(weatherData, slotStart, n, bound) {
      forall t | IsCandidate(slotStart, slotEnd, t)
        ensures !Below(Lookup(weatherData, t / 60), bound)
      {
        CandidateMinute(slotStart, slotEnd, t);
        var k := (t - slotStart) / 60;
        assert !Below(Level(weatherData, slotStart, k), bound);
      }
    }
  }

  lemma MinuteAtMostIff(weatherData: seq<real>, slotStart: int, slotEnd: int, k0: nat, bound: real)
    requires k0 <= CandidateCount(slotStart, slotEnd)
    ensures NoMinuteAtMostBefore(weatherData, slotStart, slotEnd, Candidate(slotStart, k0), bound) <==>
            NoneAtMost(weatherData, slotStart, k0, bound)
  {
    var u := Candidate(slotStart, k0);
    if NoMinuteAtMostBefore(weatherData, slotStart, slotEnd, u, bound) {
      forall k | 0 <= k < k0
        ensures !AtMost(Level(weatherData, slotStart, k), bound)
      {
        CandidateOfIndex(slotStart, slotEnd, k);
        var t := Candidate(slotStart, k);
        assert t < u;
        assert !AtMost(Lookup(weatherData, t / 60), bound);
      }
    }
    if NoneAtMost(weatherData, slotStart, k0, bound) {
      forall t | IsCandidate(slotStart, slotEnd, t) && t < u
        ensures !AtMost(Lookup(weatherData, t / 60), bound)
      {
        CandidateMinute(slotStart, slotEnd, t);
        var k := (t - slotStart) / 60;
        assert k < k0;
        assert !AtMost(Level(weatherData, slotStart, k), bound);
      }
    }
  }

  /** The pick of a slot is its first strict minimum, stated over minutes. */
  lemma SlotPickIsSlotMinimum(weatherData: seq<real>, slotStart: int, slotEnd: int)
    ensures IsSlotMinimum(weatherData, slotStart, slotEnd, SlotPick(weatherData, slotStart, slotEnd))
  {
    var n := CandidateCount(slotStart, slotEnd);
    var p := SlotPick(weatherData, slotStart, slotEnd);
    ScanIsFirstMinimum(weatherData, slotStart, n);
    MinuteBelowIff(weatherData, slotStart, slotEnd, MaxValue);
    if !NoneBelow(weatherData, slotStart, n, MaxValue) {
      var K := (p.time - slotStart) / 60;
      CandidateOfIndex(slotStart, slotEnd, K);
      MinuteBelowIff(weatherData, slotStart, slotEnd, p.lowest);
      MinuteAtMostIff(weatherData, slotStart, slotEnd, K, p.lowest);
    }
  }

  /** The pick of a slot is one of its candidate minutes when the slot is not empty (its
      start when it is), and a precipitation other than `MAX_VALUE` is the forecast for
      the pick's hour. */
  lemma PickInSlot(weatherData: seq<real>, slotStart: int, slotEnd: int)
    requires slotStart <= slotEnd
    ensures var p := SlotPick(weatherData, slotStart, slotEnd);
            slotStart <= p.time <= slotEnd &&
            (slotStart < slotEnd ==> IsCandidate(slotStart, slotEnd, p.time)) &&
            (p.lowest != MaxValue ==> Lookup(weatherData, p.time / 60) == Some(p.lowest))
  {
    SlotPickIsSlotMinimum(weatherData, slotStart, slotEnd);
  }

  /** The pick for the slot `[slotStart, slotEnd)`. */
  function SlotPick(weatherData: seq<real>, slotStart: int, slotEnd: int): Pick {
    ScanCandidates(weatherData, slotStart, CandidateCount(slotStart, slotEnd))
  }

  /** The pick of slot `i` of the range cut into slots `interval` minutes wide. */
  function SlotPickAt(weatherData: seq<real>, start: int, interval: int, i: nat): Pick {
    var slotStart := SlotStart(start, interval, i);
    SlotPick(weatherData, slotStart, slotStart + interval)
  }

  /** The picks of slots `0 .. n - 1`, in slot order. */
  function SlotPicks(weatherData: seq<real>, start: int, interval: int, n: nat): (picks: seq<Pick>)
    ensures |picks| == n
  {
    if n == 0 then []
    else SlotPicks(weatherData, start, interval, n - 1) + [SlotPickAt(weatherData, start, interval, n - 1)]
  }

  lemma {:induction false} SlotPicksAt(weatherData: seq<real>, start: int, interval: int, n: nat)
    ensures forall j :: 0 <= j < n ==>
      SlotPicks(weatherData, start, interval, n)[j] == SlotPickAt(weatherData, start, interval, j)
  {
    if n > 0 {
      SlotPicksAt(weatherData, start, interval, n - 1);
    }
  }

  /** The entry pushed for a slot: the pick's minute written as a clock time. */
  function Render(p: Pick): Recommendation {
    Recommendation(MinutesToTime(p.time), p.lowest)
  }

  /** An entry with a minute from midnight on reads back, through `timeToMinutes`, as its pick. */
  lemma ReadRender(r: Recommendation, p: Pick)
    requires r == Render(p) && p.time >= 0
    ensures IsClockText(r.time) && Pick(TimeToMinutes(r.time), r.precipitation) == p
  {
    assert r.time == MinutesToTime(p.time);
    RoundTrip(p.time);
  }

  /** The entries for a list of picks, in the same order. */
  function RenderAll(picks: seq<Pick>): (recommendations: seq<Recommendation>)
    ensures |recommendations| == |picks|
  {
    seq(|picks|, j requires 0 <= j < |picks| => Render(picks[j]))
  }

  /** Rendering one more pick appends its entry. */
  lemma RenderAllAppend(picks: seq<Pick>, p: Pick)
    ensures RenderAll(picks + [p]) == RenderAll(picks) + [Render(p)]
  {
    assert forall j :: 0 <= j < |picks| ==> (picks + [p])[j] == picks[j];
  }

  /** The list `getRecommendations` must return: no entry for a count of zero or less,
      otherwise the slot picks written out in slot order. */
  function Recommendations(weatherData: seq<real>, timesPerDay: int,
                           startTimeInMinutes: int, endTimeInMinutes: int): (recommendations: seq<Recommendation>)
    ensures |recommendations| == if timesPerDay > 0 then timesPerDay else 0
  {
    if timesPerDay <= 0 then []
    else RenderAll(SlotPicks(weatherData, startTimeInMinutes,
                             Interval(endTimeInMinutes - startTimeInMinutes, timesPerDay), timesPerDay))
  }

  /** Entry `i` is the rendering of the pick of slot `i`. */
  lemma RecommendationAt(weatherData: seq<real>, timesPerDay: int,
                         startTimeInMinutes: int, endTimeInMinutes: int, i: nat)
    requires i < timesPerDay
    ensures Recommendations(weatherData, timesPerDay, startTimeInMinutes, endTimeInMinutes)[i] ==
            Render(SlotPickAt(weatherData, startTimeInMinutes,
                              Interval(endTimeInMinutes - startTimeInMinutes, timesPerDay), i))
  {
    var interval := Interval(endTimeInMinutes - startTimeInMinutes, timesPerDay);
    var picks := SlotPicks(weatherData, startTimeInMinutes, interval, timesPerDay);
    SlotPicksAt(weatherData, startTimeInMinutes, interval, timesPerDay);
    var recommendations := RenderAll(picks);
    assert recommendations[i] == Render(picks[i]);
  }

  /** The entry for a slot starting at or after midnight reads back as the slot's first
      strict minimum. */
  lemma RenderedSlotMinimum(weatherData: seq<real>, slotStart: int, slotEnd: int, r: Recommendation)
    requires 0 <= slotStart <= slotEnd
    requires r == Render(SlotPick(weatherData, slotStart, slotEnd))
    ensures IsClockText(r.time)
    ensures IsSlotMinimum(weatherData, slotStart, slotEnd, Pick(TimeToMinutes(r.time), r.precipitation))
  {
    var p := SlotPick(weatherData, slotStart, slotEnd);
    PickInSlot(weatherData, slotStart, slotEnd);
    ReadRender(r, p);
    SlotPickIsSlotMinimum(weatherData, slotStart, slotEnd);
  }

  /**
   * For a range that starts at or after midnight and does not end before it starts,
   * slot `i` lies inside the range, and entry `i` reads back (through `timeToMinutes`)
   * as the first strict minimum of that slot, with the slot start and `MAX_VALUE` when
   * no visited hour has a number.
   */
  lemma RecommendationInSlot(weatherData: seq<real>, timesPerDay: int,
                             startTimeInMinutes: int, endTimeInMinutes: int, i: nat)
    requires 0 <= startTimeInMinutes <= endTimeInMinutes
    requires i < timesPerDay
    ensures var interval := Interval(endTimeInMinutes - startTimeInMinutes, timesPerDay);
            var slotStart := SlotStart(startTimeInMinutes, interval, i);
            var r := Recommendations(weatherData, timesPerDay, startTimeInMinutes, endTimeInMinutes)[i];
            startTimeInMinutes <= slotStart && slotStart + interval <= endTimeInMinutes &&
            IsClockText(r.time) &&
            IsSlotMinimum(weatherData, slotStart, slotStart + interval, Pick(TimeToMinutes(r.time), r.precipitation))
  {
    var interval := Interval(endTimeInMinutes - startTimeInMinutes, timesPerDay);
    var slotStart := SlotStart(startTimeInMinutes, interval, i);
    SlotInsideRange(startTimeInMinutes, endTimeInMinutes, timesPerDay, i);
    RecommendationAt(weatherData, timesPerDay, startTimeInMinutes, endTimeInMinutes, i);
    RenderedSlotMinimum(weatherData, slotStart, slotStart + interval,
                        Recommendations(weatherData, timesPerDay, startTimeInMinutes, endTimeInMinutes)[i]);
  }

  lemma ZeroWidthSlots(span: int, timesPerDay: int, i: int)
    requires 0 <= span < timesPerDay
    ensures Interval(span, timesPerDay) == 0 && i * Interval(span, timesPerDay) == 0
  {
    var q := Interval(span, timesPerDay);
    IntervalBounds(span, timesPerDay);
    MulBeyondOne(timesPerDay, q);
    assert timesPerDay * (q + 1) == timesPerDay * q + timesPerDay;
    assert q == 0;
  }

  lemma DegenerateSlots(weatherData: seq<real>, timesPerDay: int,
                        startTimeInMinutes: int, endTimeInMinutes: int, i: nat)
    requires 0 <= endTimeInMinutes - startTimeInMinutes < timesPerDay
    requires i < timesPerDay
    ensures var r := Recommendations(weatherData, timesPerDay, startTimeInMinutes, endTimeInMinutes)[i];
            r.time == MinutesToTime(startTimeInMinutes) && r.precipitation == MaxValue
  {
    var interval := Interval(endTimeInMinutes - startTimeInMinutes, timesPerDay);
    ZeroWidthSlots(endTimeInMinutes - startTimeInMinutes, timesPerDay, i);
    SlotStartFormula(startTimeInMinutes, interval, i);
    var slotStart := SlotStart(startTimeInMinutes, interval, i);
    var p := SlotPick(weatherData, slotStart, slotStart + interval);
    assert CandidateCount(slotStart, slotStart + interval) == 0;
    assert p == Pick(startTimeInMinutes, MaxValue);
    RecommendationAt(weatherData, timesPerDay, startTimeInMinutes, endTimeInMinutes, i);
  }

  /**
   * The inner loop of `getRecommendations`: the candidates `slotStart, slotStart + 60, ...`
   * below `slotEnd` are visited in order, and a candidate replaces the best one so far
   * only when its precipitation is strictly lower.
   */
  method ScanSlot(weatherData: seq<real>, timeSlotStart: int, timeSlotEnd: int)
    returns (bestTime: int, lowestPrecipitation: real)
    ensures Pick(bestTime, lowestPrecipitation) == SlotPick(weatherData, timeSlotStart, timeSlotEnd)
  {
    bestTime := timeSlotStart;
    lowestPrecipitation := MaxValue;
    var time := timeSlotStart;
    ghost var k: nat := 0;
    while time < timeSlotEnd
      invariant time == Candidate(timeSlotStart, k)
      invariant k <= CandidateCount(timeSlotStart, timeSlotEnd)
      invariant Pick(bestTime, lowestPrecipitation) == ScanCandidates(weatherData, timeSlotStart, k)
      decreases timeSlotEnd - time
    {
      var precipitation := Lookup(weatherData, time / 60);
      if Below(precipitation, lowestPrecipitation) {
        lowestPrecipitation := precipitation.value;
        bestTime := time;
      }
      time := time + 60;
      k := k + 1;
    }
    assert k == CandidateCount(timeSlotStart, timeSlotEnd);
  }

  /**
   * `getRecommendations`. `timesPerDay` is compared numerically with the loop counter,
   * so a count of zero or less gives no recommendation; otherwise there is one per slot,
   * in slot order.
   */
  method GetRecommendations(weatherData: seq<real>, timesPerDay: int,
                            startTimeInMinutes: int, endTimeInMinutes: int)
    returns (recommendations: seq<Recommendation>)
    ensures recommendations == Recommendations(weatherData, timesPerDay, startTimeInMinutes, endTimeInMinutes)
  {
    // When timesPerDay <= 0 the quotient is never read: the slot loop does not run.
    var interval := if timesPerDay > 0
      then Interval(endTimeInMinutes - startTimeInMinutes, timesPerDay) else 0;
    recommendations := [];
    ghost var picks: seq<Pick> := [];
    var i := 0;
    while i < timesPerDay
      invariant 0 <= i <= if timesPerDay > 0 then timesPerDay else 0
      invariant picks == SlotPicks(weatherData, startTimeInMinutes, interval, i)
      invariant recommendations == RenderAll(picks)
    {
      var timeSlotStart := startTimeInMinutes + i * interval;
      var timeSlotEnd := timeSlotStart + interval;
      var bestTime, lowestPrecipitation := ScanSlot(weatherData, timeSlotStart, timeSlotEnd);
      SlotStartFormula(startTimeInMinutes, interval, i);
      ghost var pick := Pick(bestTime, lowestPrecipitation);
      assert pick == SlotPickAt(weatherData, startTimeInMinutes, interval, i);
      assert SlotPicks(weatherData, startTimeInMinutes, interval, i + 1) == picks + [pick];
      var recommendation := Recommendation(MinutesToTime(bestTime), lowestPrecipitation);
      RenderAllAppend(picks, pick);
      recommendations := recommendations + [recommendation];
      picks := picks + [pick];
      i := i + 1;
    }
  }
}
