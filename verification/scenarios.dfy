/**
 * Two worked runs of the recommender over a 24-hour forecast, with every entry
 * written out.
 */
module Scenarios {
  import opened Wrappers
  import opened JsText
  import opened TimeCodec
  import opened Recommender

  lemma ClockText540()
    ensures MinutesToTime(540) == "09:00"
  {
    assert IntString(9) == "9" && IntString(0) == "0";
  }

  lemma ClockText480()
    ensures MinutesToTime(480) == "08:00"
  {
    assert IntString(8) == "8" && IntString(0) == "0";
  }

  lemma ClockText840()
    ensures MinutesToTime(840) == "14:00"
  {
    assert NatString(14) == NatString(1) + [DigitChar(4)];
    assert IntString(14) == "14" && IntString(0) == "0";
  }

  /** One walk between 08:00 and 10:00 with 20% at 08:00 and 10% at 09:00: the
      single entry is "09:00" with 0.1. */
  lemma OneWalkMorning(weatherData: seq<real>)
    requires |weatherData| == 24 && weatherData[8] == 0.2 && weatherData[9] == 0.1
    ensures Recommendations(weatherData, 1, 480, 600) == [Recommendation("09:00", 0.1)]
  {
    assert CandidateCount(480, 600) == 2;
    assert Level(weatherData, 480, 0) == Some(0.2) && Level(weatherData, 480, 1) == Some(0.1);
    assert ScanCandidates(weatherData, 480, 1) == Pick(480, 0.2);
    assert ScanCandidates(weatherData, 480, 2) == Pick(540, 0.1);
    assert SlotPick(weatherData, 480, 600) == Pick(540, 0.1);
    assert SlotPicks(weatherData, 480, 120, 1) == [Pick(540, 0.1)];
    ClockText540();
    assert Render(Pick(540, 0.1)) == Recommendation("09:00", 0.1);
    assert RenderAll([Pick(540, 0.1)]) == [Render(Pick(540, 0.1))];
  }

  /** Two walks between 08:00 and 18:00, 50% every hour except 5% at 14:00: the slots
      are 08:00-13:00 and 13:00-18:00; the first is a five-way tie won by its first
      hour, the second picks 14:00. */
  lemma TwoWalksDay(weatherData: seq<real>)
    requires |weatherData| == 24
    requires forall h :: 0 <= h < 24 ==> weatherData[h] == if h == 14 then 0.05 else 0.5
    ensures Recommendations(weatherData, 2, 480, 1080) ==
            [Recommendation("08:00", 0.5), Recommendation("14:00", 0.05)]
  {
    assert Interval(600, 2) == 300;
    assert CandidateCount(480, 780) == 5 && CandidateCount(780, 1080) == 5;
    assert ScanCandidates(weatherData, 480, 1) == Pick(480, 0.5);
    assert ScanCandidates(weatherData, 480, 2) == Pick(480, 0.5);
    assert ScanCandidates(weatherData, 480, 3) == Pick(480, 0.5);
    assert ScanCandidates(weatherData, 480, 4) == Pick(480, 0.5);
    assert ScanCandidates(weatherData, 480, 5) == Pick(480, 0.5);
    assert ScanCandidates(weatherData, 780, 1) == Pick(780, 0.5);
    assert ScanCandidates(weatherData, 780, 2) == Pick(840, 0.05);
    assert ScanCandidates(weatherData, 780, 3) == Pick(840, 0.05);
    assert ScanCandidates(weatherData, 780, 4) == Pick(840, 0.05);
    assert ScanCandidates(weatherData, 780, 5) == Pick(840, 0.05);
    assert SlotStart(480, 300, 1) == 780;
    assert SlotPicks(weatherData, 480, 300, 2) == [Pick(480, 0.5), Pick(840, 0.05)];
    ClockText480();
    ClockText840();
    assert Render(Pick(480, 0.5)) == Recommendation("08:00", 0.5);
    assert Render(Pick(840, 0.05)) == Recommendation("14:00", 0.05);
    assert RenderAll([Pick(480, 0.5), Pick(840, 0.05)]) == [Render(Pick(480, 0.5)), Render(Pick(840, 0.05))];
  }
}
