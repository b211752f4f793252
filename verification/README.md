# Walk planner core: slot recommender, time codec and chart highlight

This project models the computational core of a small browser app that suggests the
best times of day for a walk. The app takes an hourly precipitation forecast, a number
of walks per day and a preferred time range. It cuts the range into equal slots. In each
slot it visits the minutes `slotStart`, `slotStart + 60`, … and recommends the driest of
them, judged by the forecast of the hour each minute falls in. These minutes are on the
hour only when the slot start is. It then marks the recommended hours on a chart of the
day's forecast.

The model covers the functions of `script.js` that do this work.

- **Time codec** (`TimeCodec`, built on the string operations in `JsText`).
  - `timeToMinutes` reads `"HH:MM"` as `HH * 60 + MM`.
  - `minutesToTime` writes `Math.floor(m / 60)` and JavaScript's sign-keeping `m % 60`.
    Each part goes through `String(...)` and `padStart(2, "0")`.
  - The codec is defined on every integer, negative ones included. It matches JavaScript's
    doubles only on safe integers (see "## Left out").
- **Recommender** (`Recommender`).
  - `getRecommendations` is a method with the source's two nested loops. The inner loop
    is `ScanSlot`.
  - Both loops are proved equal to a functional specification: the fold
    `ScanCandidates` and the list `Recommendations`.
  - The specification is then characterised by lemmas. Each slot lies inside the
    range, and the slots do not overlap. The pick of a slot is the *first* strict
    minimum over the visited minutes, and that minimum is unique. The degenerate slot
    width 0 yields the range start with `Number.MAX_VALUE`.
  - A forecast index outside the array is JavaScript's `undefined`. It is modelled as
    `None`, which never compares below anything.
- **Chart highlight** (`ChartHighlight`).
  - The axis labels are `"00:00"` to `"23:00"`.
  - The hour is read back from each recommended time.
  - `findIndex` looks the hour up by label prefix. The model proves this finds exactly
    the hour when it lies in 0..23, and -1 otherwise.
  - The in-place update of the dataset's four per-point style arrays is modelled as a
    class (`Dataset`) with methods.
  - The back-fill `dataset.data[i] || rainProbabilities[i]` reads the very array the
    chart was given as `data`, so it never changes a value. `HighlightRecommended`
    proves this. A prose reading of the app suggests a real back-fill. The model
    follows the code.
- **Scenarios** (`Scenarios`): two complete runs of the recommender with every entry
  written out. One of them is a five-way tie, won by the first hour.

Precipitation values are only compared with `<` (and multiplied by 100 for the chart).
They are modelled as `real`, and `Number.MAX_VALUE` is written out exactly.

## Model

| member | source | states |
|---|---|---|
| JsText.NatString | script.js:149 | no contract; `String(n)` of a natural number below 10^21 (where JavaScript writes plain digits), characterised by JsText.NatStringDigits |
| JsText.IntString | script.js:149 | no contract; `String(i)` of any integer, a '-' before the numeral of a negative one; characterised by TimeCodec.PaddedIntValue |
| JsText.PadStart | script.js:149 | no contract; `padStart(width, fill)`, characterised by JsText.PadStartShape and JsText.ZeroPaddedValue |
| JsText.NumberValue | script.js:94 | no contract; `Number` of a numeral, characterised by JsText.NatStringDigits, TimeCodec.PaddedIntValue and JsText.LeadingZerosValue |
| JsText.StartsWith | script.js:228 | no contract; `startsWith`, characterised by ChartHighlight.LabelMatchesOnlyItsHour |
| JsText.NatStringDigits | script.js:149 | `String(n)` of a natural number is a non-empty string of digits without a leading zero that reads back as `n`; it is one character long exactly when `n < 10` |
| JsText.PadStartShape | script.js:149 | `padStart(width, fill)` keeps the string as a suffix, prefixes only `fill`, and the result is `max(length, width)` long |
| JsText.ZeroPaddedValue | script.js:149 | a number written with `String` and padded with '0' still reads back as the number |
| JsText.LeadingZerosValue | script.js:149 | leading zeros do not change the value of a numeral |
| JsText.Split | script.js:94 | `split(":")` always yields at least one piece and no piece contains the separator |
| JsText.JoinSplit | script.js:94 | joining the pieces of a split with the separator gives back the original text, so split loses nothing |
| JsText.SplitWithoutSeparator | script.js:94 | a text without the separator splits into itself alone |
| JsText.SplitAtFirst | script.js:94 | splitting at the first separator peels off exactly the text before it |
| TimeCodec.TimeToMinutes | script.js:93-96 | no contract; characterised by TimeCodec.TimeToMinutesOfClock and TimeCodec.ReadClock, and as the inverse of TimeCodec.MinutesToTime by TimeCodec.RoundTrip |
| TimeCodec.MinutesToTime | script.js:146-150 | no contract; characterised by TimeCodec.MinutesToTimeShape, TimeCodec.ReadBack, TimeCodec.RoundTrip and TimeCodec.NegativeRoundTrip |
| TimeCodec.JsRemainder60 | script.js:148 | JavaScript's `% 60` lies in 0..59 for non-negative input and in -59..0 for negative input, and differs from the input by a multiple of 60 |
| TimeCodec.TwoDigits | script.js:149 | a number below 100 padded to two places is exactly two digits reading back as the number |
| TimeCodec.SplitClock | script.js:94 | two numerals joined by ':' split back into exactly those two pieces |
| TimeCodec.ReadClock | script.js:93-96 | two numerals joined by ':' are read as the first times 60 plus the second |
| TimeCodec.TimeToMinutesOfClock | script.js:93-96 | a well-formed "HH:MM" of digits is accepted and read as HH * 60 + MM |
| TimeCodec.PaddedIntValue | script.js:149 | every integer written with `String` and padded to two places is a numeral that `Number` reads back as the integer, negative ones included |
| TimeCodec.ReadBack | script.js:146-150 | `timeToMinutes(minutesToTime(m))` is the floored hours times 60 plus the sign-keeping remainder, for every m |
| TimeCodec.MinutesToTimeShape | script.js:146-150 | below 100 hours the output is five characters "HH:MM" whose parts read as `m / 60` and `m % 60` |
| TimeCodec.RoundTrip | script.js:146-150 | every minute count from 0 on survives `minutesToTime` then `timeToMinutes` (in JavaScript's doubles this holds below 2^53, which covers the 0..1439 of a day) |
| TimeCodec.NegativeRoundTrip | script.js:146-150 | before midnight the round trip gives back m only for whole hours and m - 60 otherwise |
| Recommender.Interval | script.js:115-117 | no contract; `Math.floor((end - start) / timesPerDay)`, characterised by Recommender.IntervalBounds and Recommender.ZeroWidthSlots |
| Recommender.SlotStart | script.js:121 | no contract; the start of slot i, characterised by Recommender.SlotStartFormula, Recommender.SlotInsideRange and Recommender.SlotsDisjoint |
| Recommender.IntervalBounds | script.js:115-117 | the slot width is the largest whose `timesPerDay` copies fit into the range |
| Recommender.SlotStartFormula | script.js:121 | slot i starts at `start + i * interval` |
| Recommender.SlotInsideRange | script.js:115-122 | for a range that does not end before it starts, the width is non-negative, slot i lies in the range, the slots end where a slot number `timesPerDay` would start, and fewer than `timesPerDay` minutes are left over |
| Recommender.SlotsDisjoint | script.js:121-122 | each slot ends where the next begins and no later slot starts before an earlier one ends |
| Recommender.ZeroWidthSlots | script.js:115-117 | a range shorter than `timesPerDay` minutes gives width 0 |
| Recommender.Candidate | script.js:127 | no contract; the k-th minute the inner loop visits, characterised by Recommender.CandidateCount and Recommender.CandidateMinute |
| Recommender.Lookup | script.js:128-129 | no contract; `weatherData[hour]`, `undefined` (None) outside the array; characterised by Recommender.PickInSlot |
| Recommender.Below | script.js:130 | no contract; `precipitation < lowestPrecipitation`, false for `undefined`; characterised by Recommender.ScanIsFirstMinimum |
| Recommender.CandidateCount | script.js:127 | the k-th visited minute `slotStart + 60k` is below the slot end exactly when k is below the count |
| Recommender.CandidateMinute | script.js:127 | a minute is visited exactly when it is `slotStart + 60k` for a k below the count |
| Recommender.ScanCandidates | script.js:124-134 | the lowest precipitation a scan reports never exceeds `Number.MAX_VALUE` |
| Recommender.ScanStepTaken | script.js:130-133 | a candidate strictly below the best so far becomes the first minimum of the longer prefix |
| Recommender.ScanStepKept | script.js:130-133 | a candidate not strictly below the best so far leaves the first minimum unchanged |
| Recommender.ScanIsFirstMinimum | script.js:124-134 | the scan ends with the first strict minimum of the visited candidates, or the slot start with `MAX_VALUE` when none has a number below it |
| Recommender.FirstMinimumIsUnique | script.js:130-133 | the first strict minimum is unique: ties go to the earliest candidate, so two picks meeting it are equal |
| Recommender.SlotPick | script.js:124-134 | no contract; the inner loop's result for one slot, characterised by Recommender.SlotPickIsSlotMinimum, Recommender.PickInSlot and Recommender.ScanSlot |
| Recommender.SlotPickIsSlotMinimum | script.js:124-134 | stated over minutes: the pick is a visited minute, no visited minute has a lower value, and no earlier visited minute has one as low |
| Recommender.PickInSlot | script.js:124-134 | the pick is a visited minute of a non-empty slot (the slot start otherwise), and a precipitation other than `MAX_VALUE` is the forecast of the pick's hour |
| Recommender.ScanSlot | script.js:124-134 | the inner loop ends with the best time and lowest precipitation of the fold over the visited minutes |
| Recommender.Render | script.js:136-139 | no contract; the entry pushed for a pick, characterised by Recommender.ReadRender |
| Recommender.RenderAll | script.js:136-139 | the entries are as many as the picks; their contents are characterised by Recommender.RenderAllAppend and Recommender.RecommendationAt |
| Recommender.ReadRender | script.js:136-139 | an entry pushed for a pick at or after midnight reads back through `timeToMinutes` as the pick |
| Recommender.RenderAllAppend | script.js:136-139 | pushing one more entry appends the rendering of its pick |
| Recommender.Recommendations | script.js:118-142 | the list has `timesPerDay` entries, and none when the count is zero or less |
| Recommender.RecommendationAt | script.js:120-140 | entry i is the rendering of the pick of slot i |
| Recommender.RenderedSlotMinimum | script.js:136-139 | the entry written for a slot starting at or after midnight reads back as that slot's first strict minimum |
| Recommender.RecommendationInSlot | script.js:109-143 | for a range from midnight on, slot i lies in the range and entry i reads back as the first strict minimum of slot i |
| Recommender.DegenerateSlots | script.js:115-139 | when the range is shorter than `timesPerDay` minutes every entry is the range start with `MAX_VALUE` |
| Recommender.GetRecommendations | script.js:109-143 | the nested loops return exactly the specified list, one entry per slot in slot order |
| ChartHighlight.HourLabels | script.js:167-170 | there are 24 labels, and label i is `minutesToTime(60 * i)`, the clock text of hour i's first minute |
| ChartHighlight.HourLabelIsClockText | script.js:167-170 | the label of hour i is `minutesToTime(60 * i)` |
| ChartHighlight.HourLabelsAreClockTexts | script.js:167-170 | every one of the 24 labels is the clock text of its hour's first minute |
| ChartHighlight.RecommendedHour | script.js:175-178 | no contract; the number before the first ':', characterised by ChartHighlight.RecommendedHourOfClock and ChartHighlight.RecommendedHourOfEntry |
| ChartHighlight.RecommendedHourOfClock | script.js:175-178 | the hour read back from `minutesToTime(m)` is `Math.floor(m / 60)`, for every m |
| ChartHighlight.FindIndex | script.js:226-229 | `findIndex` returns -1 exactly when no label starts with the prefix, and otherwise the first label that does |
| ChartHighlight.HourPrefix | script.js:228 | no contract; `String(hour).padStart(2, "0")`, characterised by ChartHighlight.HourPrefixShape |
| ChartHighlight.HourPrefixShape | script.js:228 | the padded hour is a numeral reading as the hour, two digits below 100 and longer from 100 on; a negative hour's prefix starts with '-' |
| ChartHighlight.LabelMatchesOnlyItsHour | script.js:226-229 | the label of hour i starts with the padded hour h exactly when h is i |
| ChartHighlight.HourIndexLookup | script.js:226-229 | the lookup finds the hour itself when it is in 0..23, and -1 otherwise |
| ChartHighlight.FindHourIndex | script.js:226-229 | the lookup as the method performs it, with the same result |
| ChartHighlight.Created | script.js:232-239 | no contract; a missing style array becomes 24 `null` entries, an existing one is kept; characterised by ChartHighlight.EmphasizedEntries |
| ChartHighlight.Emphasized | script.js:232-244 | every style array it yields is absent or has one entry per hour of the axis; the entries are characterised by ChartHighlight.EmphasizedEntries |
| ChartHighlight.Backfill | script.js:245-246 | no contract; JavaScript's logical or on numbers: `current` unless it is zero (falsy), then `original`; ChartHighlight.HighlightRecommended shows it never changes a value here |
| ChartHighlight.EmphasizedEntries | script.js:225-248 | after highlighting a list of hours, a style array is still missing exactly when it was and no hour is on the axis; otherwise each entry is the highlight value for a highlighted hour and what it was (or `null`) for the others |
| ChartHighlight.Dataset.constructor | script.js:190-199 | the dataset starts with the percentages and no per-point styles |
| ChartHighlight.Dataset.Emphasize | script.js:232-246 | creates the four style arrays when the first is missing, sets all four at the index only, and back-fills a zero value |
| ChartHighlight.HighlightRecommended | script.js:225-248 | the four style arrays end as specified by the list of hours, and the values are unchanged |
| ChartHighlight.Percentages | script.js:171-173 | each percentage divided by 100 is the forecast value; used by ChartHighlight.HighlightedPointShowsRecommendedRain |
| ChartHighlight.RecommendedHours | script.js:175-178 | one hour per recommendation; each is the hour read by ChartHighlight.RecommendedHour, characterised by ChartHighlight.RecommendedHourOfClock |
| ChartHighlight.PlotRainProbability | script.js:166-252 | a fresh dataset holds the percentages, and its styles are an unstyled dataset's after the recommended hours are highlighted |
| ChartHighlight.RecommendedHourOfEntry | script.js:175-178 | the hour read back from a slot's entry is the hour of the slot's pick, and the entry carries the pick's precipitation |
| ChartHighlight.HighlightedHourOfSlot | script.js:175-229 | the entry written for slot i of a range from midnight on reads back as an hour holding the precipitation it reports, whenever one was found, on the axis when the range ends before midnight |
| ChartHighlight.HighlightedHourHasRecommendedRain | script.js:175-229 | the highlighted hour of entry i holds the precipitation entry i reports, whenever one was found, and lies on the axis when the range ends before midnight |
| ChartHighlight.HighlightedPointShowsRecommendedRain | script.js:171-178 | for a range from midnight on, when a recommendation found a minimum, the chart value at the hour read back from it is that precipitation as a percentage |
| Scenarios.ClockText480 | script.js:146-150 | 480 minutes is written "08:00" |
| Scenarios.ClockText540 | script.js:146-150 | 540 minutes is written "09:00" |
| Scenarios.ClockText840 | script.js:146-150 | 840 minutes is written "14:00" |
| Scenarios.OneWalkMorning | script.js:109-143 | one walk from 08:00 to 10:00 with 20% then 10% gives exactly ["09:00", 0.1] |
| Scenarios.TwoWalksDay | script.js:109-143 | two walks from 08:00 to 18:00 over a flat 50% with 5% at 14:00 give exactly ["08:00", 0.5] and ["14:00", 0.05] |

## Left out

- The page wiring is not modelled: DOM events, checkbox toggling, form reading and alert dialogs (script.js:1-69). It is user-interface glue.
- The network and platform calls are not modelled: geocoding, the forecast `fetch`, the JSON parsing and `navigator.geolocation` (script.js:38-57, 63-68, 99-106). They are I/O. The forecast is a parameter instead.
- The host clock (`new Date()`, script.js:100) and the Promise chain that sequences the steps (script.js:72-89) are not modelled.
- `displayRecommendations` (script.js:153-163) is not modelled. It only formats DOM text with `Math.round`.
- Floating point is not modelled. Precipitation values are exact reals. The `* 100` of the chart data is exact multiplication. `NaN` does not occur.
- A `null` entry in the forecast is not modelled. JavaScript compares `null` as 0. Entries are numbers, and only indexes outside the array are `undefined`.
- Minute counts and hours are unbounded integers here. They agree with JavaScript's doubles only below 2^53. From 10^21 on, `String` switches to exponent notation ("1e+21"), which `NatString` does not model. The app's minute counts stay below 1440.
- `Number` is modelled on numerals only. Malformed times, which JavaScript reads as `NaN`, are excluded by `IsClockText`.
- `timesPerDay` is an integer. The source takes the form's string, and fractional counts are not modelled.
- Chart.js is a foreign library, and its part is not modelled: the chart's construction options, `destroy`, `update` and the module-level `chart` handle (script.js:165, 180-223, 251). The model keeps only the single dataset that the highlight loop visits.
- The four style arrays are `seq` fields that `Emphasize` reassigns. JavaScript writes into one array in place. Each array is created fresh and is never shared, so no aliasing is lost.
- ChartHighlight.Dataset.Valid: the dataset always holds 24 values, so other forecast lengths are not modelled. JavaScript handles the two cases differently.
  - Shorter than 24: a highlighted hour past its end is written as `undefined || undefined`, which extends the array.
  - Longer than 24: the array is never written past its end, and only its first 24 points lie on the axis.
- Recommender.ScanSlot: the inner loop is a separate method here, while the source writes it inline. Its behaviour is the same.
- Recommender.RecommendationInSlot: stated only for ranges starting at or after midnight. Before midnight the written time does not read back as the pick (TimeCodec.NegativeRoundTrip).
- TimeCodec.RoundTrip: stated for m from 0 on. Negative minutes are covered separately by TimeCodec.NegativeRoundTrip.
