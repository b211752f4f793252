/**
 * The highlight step of `plotRainProbability` in script.js: the 24 hour labels of the
 * chart axis, the hour read back out of each recommended "HH:MM", the label found for
 * it by prefix, and the per-point style arrays of the chart's dataset, written in place
 * at that label's index.
 */
module ChartHighlight {
  import opened Wrappers
  import opened JsText
  import opened TimeCodec
  import opened Recommender

  /** Points on the hour axis, one per hour of the day. */
  const HourCount := 24

  /** The fill and border colour of an emphasized point. */
  const HighlightColor: string := "rgba(255, 99, 132, 1)"
  const HighlightBorderWidth := 2
  const HighlightRadius := 5

  /** `String(hour).padStart(2, "0")`, the prefix a label is matched against. */
  function HourPrefix(hour: int): string {
    PadStart(IntString(hour), 2, '0')
  }

  /** The axis label of hour `index`: its two-place numeral followed by ":00". */
  function HourLabel(index: int): string {
    HourPrefix(index) + ":00"
  }

  /** `hoursOfDay`: the labels "00:00" to "23:00". */
  function HourLabels(): (labels: seq<string>)
    ensures |labels| == HourCount
    ensures forall i :: 0 <= i < HourCount ==> labels[i] == MinutesToTime(60 * i)
  {
    HourLabelsAreClockTexts();
    seq(HourCount, i => HourLabel(i))
  }

  /** The label of an hour is the clock text `minutesToTime` gives for the hour's first minute. */
  lemma HourLabelIsClockText(index: int)
    ensures HourLabel(index) == MinutesToTime(60 * index)
  {
    assert (60 * index) / 60 == index && JsRemainder60(60 * index) == 0;
    assert PadStart(IntString(0), 2, '0') == "00";
  }

  lemma HourLabelsAreClockTexts()
    ensures forall i :: 0 <= i < HourCount ==> HourLabel(i) == MinutesToTime(60 * i)
  {
    forall i | 0 <= i < HourCount {
      HourLabelIsClockText(i);
    }
  }

  /** The hour `plotRainProbability` reads back from a recommended time: the number
      before the first ':'. */
  function RecommendedHour(time: string): int
    requires IsClockText(time)
  {
    NumberValue(Split(time, ':')[0])
  }

  /** The hour read back from `minutesToTime(m)` is `Math.floor(m / 60)`, for every `m`. */
  lemma RecommendedHourOfClock(m: int)
    ensures IsClockText(MinutesToTime(m))
    ensures RecommendedHour(MinutesToTime(m)) == m / 60
  {
    var hh := PadStart(IntString(m / 60), 2, '0');
    var mm := PadStart(IntString(JsRemainder60(m)), 2, '0');
    PaddedIntValue(m / 60);
    PaddedIntValue(JsRemainder60(m));
    SplitClock(hh, mm);
    ReadBack(m);
  }

  /** `labels.findIndex(label => label.startsWith(prefix))`: the first label that starts
      with `prefix`, or -1 when there is none. */
  function FindIndex(labels: seq<string>, prefix: string): (r: int)
    ensures -1 <= r < |labels|
    ensures r == -1 <==> forall j :: 0 <= j < |labels| ==> !StartsWith(labels[j], prefix)
    ensures r >= 0 ==> StartsWith(labels[r], prefix) &&
                       forall j :: 0 <= j < r ==> !StartsWith(labels[j], prefix)
  {
    if labels == [] then -1
    else if StartsWith(labels[0], prefix) then 0
    else
      var r := FindIndex(labels[1..], prefix);
      if r == -1 then -1 else r + 1
  }

  /** Up to two digits read as less than 100. */
  lemma ShortDigitsValue(s: string)
    requires AllDigits(s) && |s| <= 2
    ensures DigitsValue(s) < 100
  {
    if |s| == 2 {
      assert DigitsValue(s[..1]) == DigitsValue(s[..1][..0]) * 10 + (s[0] as int - '0' as int);
    }
  }

  /** The prefix of a hour from 0 on is a numeral reading as the hour, two digits long
      below 100 and longer from 100 on; the prefix of a negative hour starts with '-'. */
  lemma HourPrefixShape(hour: int)
    ensures hour >= 0 ==> AllDigits(HourPrefix(hour)) && DigitsValue(HourPrefix(hour)) == hour
    ensures 0 <= hour < 100 ==> |HourPrefix(hour)| == 2
    ensures hour >= 100 ==> |HourPrefix(hour)| >= 3
    ensures hour < 0 ==> |HourPrefix(hour)| >= 2 && HourPrefix(hour)[0] == '-'
  {
    if hour >= 0 {
      assert IntString(hour) == NatString(hour);
      ZeroPaddedValue(hour, 2);
      NatStringDigits(hour);
      PadStartShape(NatString(hour), 2, '0');
      if hour < 100 {
        TwoDigits(hour);
      } else if |NatString(hour)| <= 2 {
        ShortDigitsValue(NatString(hour));
      }
    } else {
      NatStringDigits(-hour);
      assert IntString(-hour) == NatString(-hour);
      assert |IntString(hour)| >= 2;
    }
  }

  /** The label of hour `index` starts with the prefix of `hour` exactly when the two
      hours are the same. */
  lemma LabelMatchesOnlyItsHour(index: int, hour: int)
    requires 0 <= index < HourCount
    ensures StartsWith(HourLabel(index), HourPrefix(hour)) <==> hour == index
  {
    var text, own, p := HourLabel(index), HourPrefix(index), HourPrefix(hour);
    HourPrefixShape(index);
    HourPrefixShape(hour);
    assert text[..2] == own && text[2] == ':';
    if hour < 0 {
      assert IsDigit(text[0]) && !IsDigit(p[0]);
      assert |text| < |p| || text[..|p|][0] != p[0];
    } else if hour >= 100 {
      assert IsDigit(p[2]);
      assert |text| < |p| || text[..|p|][2] != p[2];
    } else if hour != index {
      assert text[..|p|] != p;
    }
  }

  /** Looking an hour up among the axis labels by prefix finds the hour itself when it
      is on the axis, and -1 otherwise. */
  lemma HourIndexLookup(hour: int)
    ensures FindIndex(HourLabels(), HourPrefix(hour)) == if 0 <= hour < HourCount then hour else -1
  {
    var labels := HourLabels();
    var p := HourPrefix(hour);
    forall j | 0 <= j < HourCount
      ensures StartsWith(labels[j], p) <==> j == hour
    {
      LabelMatchesOnlyItsHour(j, hour);
    }
    var r := FindIndex(labels, p);
    if 0 <= hour < HourCount {
      assert StartsWith(labels[hour], p);
      assert r >= 0 && StartsWith(labels[r], p);
    } else {
      assert forall j :: 0 <= j < |labels| ==> !StartsWith(labels[j], p);
    }
  }

  /** A style array once the first highlight has created it: `undefined` becomes 24 `null`s. */
  function Created<T>(style: Option<seq<Option<T>>>): seq<Option<T>> {
    if style.Some? then style.value else seq(HourCount, _ => None)
  }

  /** The style arrays that fit a 24-point dataset: absent, or one entry per hour. */
  predicate FitsAxis<T>(style: Option<seq<Option<T>>>) {
    style.Some? ==> |style.value| == HourCount
  }

  /** A style array after the hours in `hours` have been emphasized with `v`, one after
      the other: an hour on the axis creates the array if needed and sets its entry,
      an hour off the axis is skipped. */
  function Emphasized<T>(style: Option<seq<Option<T>>>, hours: seq<int>, v: T): (r: Option<seq<Option<T>>>)
    requires FitsAxis(style)
    ensures FitsAxis(r)
  {
    if hours == [] then style
    else
      var before := Emphasized(style, hours[..|hours| - 1], v);
      var hour := hours[|hours| - 1];
      if 0 <= hour < HourCount then Some(Created(before)[hour := Some(v)]) else before
  }

  /** After emphasizing `hours`, a style array is still absent exactly when it was and no
      hour lies on the axis; otherwise its entry at an hour is `v` when that hour was
      emphasized and what it was before (or `null`) when not. */
  lemma {:induction false} EmphasizedEntries<T>(style: Option<seq<Option<T>>>, hours: seq<int>, v: T)
    requires FitsAxis(style)
    ensures var r := Emphasized(style, hours, v);
            (r.None? <==> style.None? && forall h :: h in hours ==> !(0 <= h < HourCount)) &&
            (r.Some? ==> forall j :: 0 <= j < HourCount ==>
                           r.value[j] == if j in hours then Some(v) else Created(style)[j])
  {
    if hours != [] {
      var init, hour := hours[..|hours| - 1], hours[|hours| - 1];
      EmphasizedEntries(style, init, v);
      assert hours == init + [hour];
      forall h
        ensures h in hours <==> h in init || h == hour
      {
      }
      if 0 <= hour < HourCount {
        assert hour in hours;
      } else {
        assert (forall h :: h in hours ==> !(0 <= h < HourCount)) <==>
               (forall h :: h in init ==> !(0 <= h < HourCount));
      }
    }
  }

  /** `dataset.data[i] || rainProbabilities[i]`: a zero (falsy) value is replaced. */
  function Backfill(current: real, original: real): real {
    if current != 0.0 then current else original
  }

  /**
   * The chart's one dataset. `data` is the array the dataset was built with, which is
   * `rainProbabilities` itself. The four per-point style arrays are `undefined` (None)
   * until the first highlight creates all of them at once.
   */
  class Dataset {
    var data: array<real>
    var pointBackgroundColor: Option<seq<Option<string>>>
    var pointBorderColor: Option<seq<Option<string>>>
    var pointBorderWidth: Option<seq<Option<int>>>
    var pointRadius: Option<seq<Option<int>>>

    /** One value per hour, and the four style arrays absent or present together, 24 long. */
    ghost predicate Valid()
      reads this
    {
      data.Length == HourCount &&
      (pointBackgroundColor.None? ==>
         pointBorderColor.None? && pointBorderWidth.None? && pointRadius.None?) &&
      (pointBackgroundColor.Some? ==>
         pointBorderColor.Some? && pointBorderWidth.Some? && pointRadius.Some? &&
         |pointBackgroundColor.value| == HourCount && |pointBorderColor.value| == HourCount &&
         |pointBorderWidth.value| == HourCount && |pointRadius.value| == HourCount)
    }

    /** The dataset `new Chart` is given: the percentages and no per-point styles. */
    constructor(rainProbabilities: array<real>)
      requires rainProbabilities.Length == HourCount
      ensures Valid() && data == rainProbabilities
      ensures pointBackgroundColor.None?
    {
      data := rainProbabilities;
      pointBackgroundColor := None;
      pointBorderColor := None;
      pointBorderWidth := None;
      pointRadius := None;
    }

    /**
     * The body of `chart.data.datasets.forEach` for a found label index: create the
     * style arrays if `pointBackgroundColor` is missing, set the four styles at
     * `hourIndex`, and back-fill a zero value from `rainProbabilities`.
     */
    method Emphasize(hourIndex: int, rainProbabilities: array<real>)
      requires Valid() && 0 <= hourIndex < HourCount && rainProbabilities.Length == HourCount
      modifies this, data
      ensures Valid() && data == old(data)
      ensures pointBackgroundColor == Some(Created(old(pointBackgroundColor))[hourIndex := Some(HighlightColor)])
      ensures pointBorderColor == Some(Created(old(pointBorderColor))[hourIndex := Some(HighlightColor)])
      ensures pointBorderWidth == Some(Created(old(pointBorderWidth))[hourIndex := Some(HighlightBorderWidth)])
      ensures pointRadius == Some(Created(old(pointRadius))[hourIndex := Some(HighlightRadius)])
      ensures data[..] == old(data[..])[hourIndex := Backfill(old(data[hourIndex]), old(rainProbabilities[hourIndex]))]
    {
      if pointBackgroundColor.None? {
        pointBackgroundColor := Some(seq(HourCount, _ => None));
        pointBorderColor := Some(seq(HourCount, _ => None));
        pointBorderWidth := Some(seq(HourCount, _ => None));
        pointRadius := Some(seq(HourCount, _ => None));
      }
      pointBackgroundColor := Some(pointBackgroundColor.value[hourIndex := Some(HighlightColor)]);
      pointBorderColor := Some(pointBorderColor.value[hourIndex := Some(HighlightColor)]);
      pointBorderWidth := Some(pointBorderWidth.value[hourIndex := Some(HighlightBorderWidth)]);
      pointRadius := Some(pointRadius.value[hourIndex := Some(HighlightRadius)]);
      data[hourIndex] := Backfill(data[hourIndex], rainProbabilities[hourIndex]);
    }
  }

  /** `hoursOfDay.findIndex(label => label.startsWith(prefix))` for the prefix of `hour`:
      the hour itself when it is on the axis, -1 otherwise. */
  method FindHourIndex(hoursOfDay: seq<string>, hour: int) returns (hourIndex: int)
    requires hoursOfDay == HourLabels()
    ensures hourIndex == if 0 <= hour < HourCount then hour else -1
  {
    hourIndex := FindIndex(hoursOfDay, HourPrefix(hour));
    HourIndexLookup(hour);
  }

  /**
   * `recommendedTimes.forEach` over the chart's dataset, whose `data` is
   * `rainProbabilities` itself: every recommended hour on the axis is emphasized in all
   * four style arrays, nothing else is styled, and the back-fill leaves the values as
   * they were (a zero value is replaced by the same zero).
   */
  method HighlightRecommended(dataset: Dataset, rainProbabilities: array<real>, recommendedHours: seq<int>)
    requires dataset.Valid() && dataset.data == rainProbabilities
    modifies dataset, dataset.data
    ensures dataset.Valid() && dataset.data == rainProbabilities
    ensures rainProbabilities[..] == old(rainProbabilities[..])
    ensures dataset.pointBackgroundColor == Emphasized(old(dataset.pointBackgroundColor), recommendedHours, HighlightColor)
    ensures dataset.pointBorderColor == Emphasized(old(dataset.pointBorderColor), recommendedHours, HighlightColor)
    ensures dataset.pointBorderWidth == Emphasized(old(dataset.pointBorderWidth), recommendedHours, HighlightBorderWidth)
    ensures dataset.pointRadius == Emphasized(old(dataset.pointRadius), recommendedHours, HighlightRadius)
  {
    var hoursOfDay := HourLabels();
    var k := 0;
    while k < |recommendedHours|
      invariant 0 <= k <= |recommendedHours|
      invariant dataset.Valid() && dataset.data == rainProbabilities
      invariant rainProbabilities[..] == old(rainProbabilities[..])
      invariant dataset.pointBackgroundColor == Emphasized(old(dataset.pointBackgroundColor), recommendedHours[..k], HighlightColor)
      invariant dataset.pointBorderColor == Emphasized(old(dataset.pointBorderColor), recommendedHours[..k], HighlightColor)
      invariant dataset.pointBorderWidth == Emphasized(old(dataset.pointBorderWidth), recommendedHours[..k], HighlightBorderWidth)
      invariant dataset.pointRadius == Emphasized(old(dataset.pointRadius), recommendedHours[..k], HighlightRadius)
    {
      var hour := recommendedHours[k];
      var hourIndex := FindHourIndex(hoursOfDay, hour);
      assert recommendedHours[..k + 1][..k] == recommendedHours[..k];
      if hourIndex != -1 {
        dataset.Emphasize(hourIndex, rainProbabilities);
      }
      k := k + 1;
    }
    assert recommendedHours[..k] == recommendedHours;
  }

  /** `weatherData.map(p => p * 100)`: precipitation probabilities as percentages
      (exact here; see the notes on floating point). */
  function Percentages(weatherData: seq<real>): (rainProbabilities: seq<real>)
    ensures |rainProbabilities| == |weatherData|
    ensures forall i :: 0 <= i < |weatherData| ==> rainProbabilities[i] / 100.0 == weatherData[i]
  {
    seq(|weatherData|, i requires 0 <= i < |weatherData| => weatherData[i] * 100.0)
  }

  /** `recommendations.map(({ time }) => Number(time.split(":")[0]))`. */
  function RecommendedHours(recommendations: seq<Recommendation>): (hours: seq<int>)
    requires forall r :: r in recommendations ==> IsClockText(r.time)
    ensures |hours| == |recommendations|
  {
    seq(|recommendations|, i requires 0 <= i < |recommendations| => RecommendedHour(recommendations[i].time))
  }

  /**
   * `plotRainProbability` for one day of hourly data: a fresh dataset holds the
   * percentages, and its style arrays are those of an unstyled dataset after every
   * recommended hour on the axis has been emphasized.
   */
  method PlotRainProbability(weatherData: seq<real>, recommendations: seq<Recommendation>)
    returns (dataset: Dataset)
    requires |weatherData| == HourCount
    requires forall r :: r in recommendations ==> IsClockText(r.time)
    ensures fresh(dataset) && fresh(dataset.data) && dataset.Valid()
    ensures dataset.data[..] == Percentages(weatherData)
    ensures dataset.pointBackgroundColor == Emphasized(None, RecommendedHours(recommendations), HighlightColor)
    ensures dataset.pointBorderColor == Emphasized(None, RecommendedHours(recommendations), HighlightColor)
    ensures dataset.pointBorderWidth == Emphasized(None, RecommendedHours(recommendations), HighlightBorderWidth)
    ensures dataset.pointRadius == Emphasized(None, RecommendedHours(recommendations), HighlightRadius)
  {
    var percentages := Percentages(weatherData);
    var rainProbabilities := new real[HourCount](i requires 0 <= i < HourCount => percentages[i]);
    assert rainProbabilities[..] == percentages;
    var recommendedTimes := RecommendedHours(recommendations);
    dataset := new Dataset(rainProbabilities);
    HighlightRecommended(dataset, rainProbabilities, recommendedTimes);
  }

  /** The hour read back from the entry written for a slot is the hour of the slot's pick,
      and the entry reports the pick's precipitation. */
  lemma RecommendedHourOfEntry(weatherData: seq<real>, slotStart: int, slotEnd: int, r: Recommendation)
    requires r == Render(SlotPick(weatherData, slotStart, slotEnd))
    ensures IsClockText(r.time)
    ensures RecommendedHour(r.time) == SlotPick(weatherData, slotStart, slotEnd).time / 60
    ensures r.precipitation == SlotPick(weatherData, slotStart, slotEnd).lowest
  {
    RecommendedHourOfClock(SlotPick(weatherData, slotStart, slotEnd).time);
  }

  /** The entry written for slot `i` of a range from midnight on: its hour holds the
      precipitation it reports whenever a minimum was found, and lies on the axis when
      the range ends before midnight. */
  lemma HighlightedHourOfSlot(weatherData: seq<real>, timesPerDay: int,
                              startTimeInMinutes: int, endTimeInMinutes: int, i: nat, r: Recommendation)
    requires 0 <= startTimeInMinutes <= endTimeInMinutes
    requires i < timesPerDay
    requires r == Render(SlotPickAt(weatherData, startTimeInMinutes,
                                    Interval(endTimeInMinutes - startTimeInMinutes, timesPerDay), i))
    ensures IsClockText(r.time)
    ensures r.precipitation != MaxValue ==> Lookup(weatherData, RecommendedHour(r.time)) == Some(r.precipitation)
    ensures endTimeInMinutes < HourCount * 60 ==> 0 <= RecommendedHour(r.time) < HourCount
  {
    var interval := Interval(endTimeInMinutes - startTimeInMinutes, timesPerDay);
    var slotStart := SlotStart(startTimeInMinutes, interval, i);
    SlotInsideRange(startTimeInMinutes, endTimeInMinutes, timesPerDay, i);
    PickInSlot(weatherData, slotStart, slotStart + interval);
    RecommendedHourOfEntry(weatherData, slotStart, slotStart + interval, r);
  }

  /**
   * The point the chart emphasizes for a recommendation is the hour whose forecast the
   * recommendation reports: reading the hour back from the recommended time gives the
   * hour of the chosen minute, which holds that precipitation whenever a minimum was
   * found at all, and the hour is on the 24-point axis when the range ends before
   * midnight.
   */
  lemma HighlightedHourHasRecommendedRain(weatherData: seq<real>, timesPerDay: int,
                                          startTimeInMinutes: int, endTimeInMinutes: int, i: nat)
    requires 0 <= startTimeInMinutes <= endTimeInMinutes
    requires i < timesPerDay
    ensures var r := Recommendations(weatherData, timesPerDay, startTimeInMinutes, endTimeInMinutes)[i];
            IsClockText(r.time) &&
            (r.precipitation != MaxValue ==>
               Lookup(weatherData, RecommendedHour(r.time)) == Some(r.precipitation)) &&
            (endTimeInMinutes < HourCount * 60 ==> 0 <= RecommendedHour(r.time) < HourCount)
  {
    RecommendationAt(weatherData, timesPerDay, startTimeInMinutes, endTimeInMinutes, i);
    HighlightedHourOfSlot(weatherData, timesPerDay, startTimeInMinutes, endTimeInMinutes, i,
                          Recommendations(weatherData, timesPerDay, startTimeInMinutes, endTimeInMinutes)[i]);
  }

  /** On the plotted chart, the point of the hour read back from a recommendation shows,
      as a percentage, exactly the precipitation the recommendation reports, whenever a
      minimum was found. */
  lemma HighlightedPointShowsRecommendedRain(weatherData: seq<real>, timesPerDay: int,
                                             startTimeInMinutes: int, endTimeInMinutes: int, i: nat,
                                             r: Recommendation)
    requires 0 <= startTimeInMinutes <= endTimeInMinutes
    requires i < timesPerDay
    requires r == Recommendations(weatherData, timesPerDay, startTimeInMinutes, endTimeInMinutes)[i]
    requires r.precipitation != MaxValue
    ensures IsClockText(r.time)
    ensures var hour := RecommendedHour(r.time);
            0 <= hour < |weatherData| && Percentages(weatherData)[hour] / 100.0 == r.precipitation
  {
    HighlightedHourHasRecommendedRain(weatherData, timesPerDay, startTimeInMinutes, endTimeInMinutes, i);
  }
}
