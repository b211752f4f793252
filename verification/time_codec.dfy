/**
 * Conversion between the "HH:MM" text of the form's time fields and a count of
 * minutes since midnight (`timeToMinutes` and `minutesToTime` in script.js).
 */
module TimeCodec {
  import opened JsText

  /** The texts `timeToMinutes` turns into a number: the first two pieces around ':'
      are numerals (any further pieces are split off and ignored). */
  predicate IsClockText(time: string) {
    var parts := Split(time, ':');
    |parts| >= 2 && IsNumeral(parts[0]) && IsNumeral(parts[1])
  }

  /** `timeToMinutes`: hours times 60 plus minutes, with no range check. */
  function TimeToMinutes(time: string): int
    requires IsClockText(time)
  {
    var parts := Split(time, ':');
    NumberValue(parts[0]) * 60 + NumberValue(parts[1])
  }

  /** JavaScript's `a % 60`: the remainder keeps the sign of `a`. */
  function JsRemainder60(a: int): (r: int)
    ensures a >= 0 ==> 0 <= r < 60
    ensures a < 0 ==> -60 < r <= 0
    ensures (a - r) % 60 == 0
  {
    if a >= 0 then a % 60 else -((-a) % 60)
  }

  /** `minutesToTime`: `Math.floor(minutes / 60)` and `minutes % 60`, each written with
      `String` and padded to two characters with '0'. Dafny's `/` by a positive divisor
      rounds down, as `Math.floor` does. */
  function MinutesToTime(minutes: int): string {
    var hours := minutes / 60;
    var mins := JsRemainder60(minutes);
    PadStart(IntString(hours), 2, '0') + ":" + PadStart(IntString(mins), 2, '0')
  }

  /** A number below 100, written and padded to two places, is two digits that read back as it. */
  lemma TwoDigits(n: nat)
    requires n < 100
    ensures var p := PadStart(NatString(n), 2, '0');
            |p| == 2 && AllDigits(p) && DigitsValue(p) == n
  {
    if n >= 10 {
      assert NatString(n) == NatString(n / 10) + [DigitChar(n % 10)];
    }
    ZeroPaddedValue(n, 2);
  }

  lemma ClockParts(hh: string, mm: string)
    requires |hh| == 2
    ensures var r := hh + ":" + mm;
            |r| == 3 + |mm| && r[..2] == hh && r[2] == ':' && r[3..] == mm
  {
  }

  /** A numeral holds no ':', so it is one whole piece of a split on ':'. */
  lemma NumeralHasNoColon(s: string)
    requires IsNumeral(s)
    ensures ':' !in s
  {
    if AllDigits(s) {
      assert forall i :: 0 <= i < |s| ==> s[i] != ':';
    } else {
      assert forall i :: 1 <= i < |s| ==> s[1..][i - 1] == s[i] && s[i] != ':';
    }
  }

  /** Two numerals joined by ':' split back into exactly those two pieces. */
  lemma SplitClock(hh: string, mm: string)
    requires IsNumeral(hh) && IsNumeral(mm)
    ensures Split(hh + ":" + mm, ':') == [hh, mm]
  {
    NumeralHasNoColon(hh);
    NumeralHasNoColon(mm);
    SplitAtFirst(hh, mm, ':');
    SplitWithoutSeparator(mm, ':');
    assert hh + ":" + mm == hh + [':'] + mm;
  }

  /** Two numerals joined by ':' are read as the first times 60 plus the second. */
  lemma ReadClock(hh: string, mm: string)
    requires IsNumeral(hh) && IsNumeral(mm)
    ensures IsClockText(hh + ":" + mm)
    ensures TimeToMinutes(hh + ":" + mm) == NumberValue(hh) * 60 + NumberValue(mm)
  {
    SplitClock(hh, mm);
  }

  /** A well-formed "HH:MM" is read as HH * 60 + MM. */
  lemma TimeToMinutesOfClock(hh: string, mm: string)
    requires AllDigits(hh) && AllDigits(mm)
    ensures IsClockText(hh + ":" + mm)
    ensures TimeToMinutes(hh + ":" + mm) == DigitsValue(hh) * 60 + DigitsValue(mm)
  {
    ReadClock(hh, mm);
  }

  /** `String(i).padStart(2, "0")` is a numeral that reads back as `i`, negative or not. */
  lemma PaddedIntValue(i: int)
    ensures IsNumeral(PadStart(IntString(i), 2, '0'))
    ensures NumberValue(PadStart(IntString(i), 2, '0')) == i
  {
    if i >= 0 {
      ZeroPaddedValue(i, 2);
    } else {
      NatStringDigits(-i);
      var s := IntString(i);
      assert IntString(-i) == NatString(-i);
      assert s[1..] == NatString(-i);
      assert PadStart(s, 2, '0') == s;
    }
  }

  /** What `timeToMinutes` reads back from any `minutesToTime` output: the floored hours
      times 60 plus the remainder with the sign of the input. */
  lemma ReadBack(m: int)
    ensures IsClockText(MinutesToTime(m))
    ensures TimeToMinutes(MinutesToTime(m)) == (m / 60) * 60 + JsRemainder60(m)
  {
    var hh := PadStart(IntString(m / 60), 2, '0');
    var mm := PadStart(IntString(JsRemainder60(m)), 2, '0');
    PaddedIntValue(m / 60);
    PaddedIntValue(JsRemainder60(m));
    ReadClock(hh, mm);
  }

  /** For a minute count below 100 hours, `minutesToTime` gives five characters
      "HH:MM" whose hour part reads as `m / 60` and whose minute part reads as `m % 60`. */
  lemma MinutesToTimeShape(m: int)
    requires 0 <= m < 6000
    ensures var r := MinutesToTime(m);
            |r| == 5 && r[2] == ':' && AllDigits(r[..2]) && AllDigits(r[3..]) &&
            DigitsValue(r[..2]) == m / 60 && DigitsValue(r[3..]) == m % 60
  {
    var h, mi := m / 60, m % 60;
    TwoDigits(h);
    TwoDigits(mi);
    var hh := PadStart(NatString(h), 2, '0');
    var mm := PadStart(NatString(mi), 2, '0');
    assert IntString(h) == NatString(h) && IntString(JsRemainder60(m)) == NatString(mi);
    assert MinutesToTime(m) == hh + ":" + mm;
    ClockParts(hh, mm);
  }

  /** Every non-negative minute count survives `minutesToTime` then `timeToMinutes`
      (beyond 23:59 too: hours past 99 just take more digits). */
  lemma RoundTrip(m: int)
    requires m >= 0
    ensures IsClockText(MinutesToTime(m))
    ensures TimeToMinutes(MinutesToTime(m)) == m
  {
    ReadBack(m);
  }

  lemma NegativeRemainder(m: int)
    requires m < 0
    ensures (m / 60) * 60 + JsRemainder60(m) == if m % 60 == 0 then m else m - 60
  {
    var n := -m;
    var q, r := n / 60, n % 60;
    assert n == 60 * q + r && 0 <= r < 60;
    if r == 0 {
      assert m == 60 * (-q) + 0;
      assert m / 60 == -q && m % 60 == 0;
    } else {
      assert m == 60 * (-q - 1) + (60 - r);
      assert m / 60 == -q - 1 && m % 60 == 60 - r;
    }
  }

  /** Before midnight the round trip fails unless `m` is a whole number of hours:
      -30 minutes is written "-1:-30" and read back as -90. */
  lemma NegativeRoundTrip(m: int)
    requires m < 0
    ensures IsClockText(MinutesToTime(m))
    ensures TimeToMinutes(MinutesToTime(m)) == if m % 60 == 0 then m else m - 60
  {
    ReadBack(m);
    NegativeRemainder(m);
  }
}
