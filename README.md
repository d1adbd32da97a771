# ErgFilePlot core, modelled in Dafny

This project models the parts of the workout plot in `src/Train/ErgFilePlot.cpp` that
are computation rather than drawing. It has four pieces:

- **LapRows**: `LapRowDistributor` lays lap markers out into display rows.
  - Part 1 folds the lap list into a map from lap range id to the indices of the
    range's first (smallest x) and last (largest x) lap.
  - Part 2 is a greedy packer. Each range start frees the rows whose range has already
    ended, then takes the first free row or opens a new one.
  - `GetInfo` classifies a lap and reports its range's row.
- **Curves**: `CurveData` holds the parallel x/y sample buffers of one telemetry
  curve. The logical count is kept apart from the storage size, and storage grows in
  blocks of 1000 samples.
- **Telemetry**: the averaging window of `performancePlot` and `reset`.
  - Five running sums (power, heart rate, cadence, speed, W'bal) collect 26 ticks.
  - Each full window's mean is committed to each curve. An empty curve is first seeded
    with a point at x = 0.
- **TimeText**: `secsToString` shows a number of seconds as `Hh Mm Ss`, `Hh Mm`, `Mm Ss`,
  `Mm` or `Ss`.

Each loop of the source is a Dafny method, and each method's contract ties its result
or its new state to a specification function:

- `BuildRangeMap` (the Part 1 loop) returns exactly `RangeMapOf`. That is the fold of
  `Absorb` over the laps, defined by recursion on the prefix in `RangeMapUpTo`.
- `DistributeRows` (the Part 2 loop) returns exactly `RowsOf`, defined by recursion on
  the prefix in `PackUpTo`.
- `PlaceStart` (the inner loop over the live rows) returns exactly `Place`, the
  placement of one range start. `Place` is not recursive.
- `ErgFilePlot.PerformancePlot` handles one tick. It moves the accumulator by one
  `Tick` step and changes each curve as `Committed` says. `Committed` is not recursive.
  `Feed` is the run of `Tick` over a sequence of ticks. No method is tied to `Feed`;
  it carries the lemmas about many calls.
- `CurveData.Append` and its copy loop `CopySamples` have no specification function.
  Their contracts state the new buffers directly: the old samples followed by the inputs.

The properties the code promises are proved as lemmas about those functions:

- the min/max meaning of the range map;
- that rows are given exactly to range starts;
- that ranges sharing a row do not overlap;
- that a new row is opened only when every existing row holds a range still open at that x;
- the window bookkeeping after any number of ticks;
- that the duration text reads back as the number it came from.

The three stateful objects are classes with `seq` fields. `CurveData` has `dataX`,
`dataY` and `dataCount`. `ErgFilePlot` has the counter, the five sums and its five
curves. `LapRowDistributor` keeps its map and row vector as fields, filled in by its
constructor.

`ParseDuration` in TimeText has no counterpart in the source. It is an independent
reader of the duration format, and `SecsToStringRoundTrip` proves that `SecsToString`
is correct against it.

## Model

| member | source | states |
|---|---|---|
| LapRows.BuildRangeMap | src/Train/ErgFilePlot.cpp:375-393 | The Part 1 loop builds exactly the fold `RangeMapOf` of the whole lap list. |
| LapRows.Absorb | src/Train/ErgFilePlot.cpp:380-392 | One Part 1 iteration changes only lap i's id's entry, and adds it when missing. Each of its two indices is either i or the old one. Lap i's x lies between the x of the new start and the x of the new end. |
| LapRows.RangeMapUpTo | src/Train/ErgFilePlot.cpp:377-393 | After any number n of Part 1 iterations, each of the first n laps' ids is a key, and every recorded index is below n. |
| LapRows.RangeMapOf | src/Train/ErgFilePlot.cpp:377-393 | Every lap's id is a key, and every recorded index is an index of the list. |
| LapRows.RangeMapCorrect | src/Train/ErgFilePlot.cpp:377-393 | For every id, both recorded indices carry that id. The start has the minimum x of the id's laps and every earlier member is strictly larger. The end has the maximum x and every earlier member is strictly smaller. Id 0 is one range like any other. |
| LapRows.RangeMapKeys | src/Train/ErgFilePlot.cpp:377-393 | The map's keys are exactly the set of ids in the lap list. |
| LapRows.RangeEndsCharacterised | src/Train/ErgFilePlot.cpp:380-392 | Lap i is the recorded start of its range iff it is the earliest lap with the minimum x. It is the recorded end iff it is the earliest lap with the maximum x. |
| LapRows.AgeOut | src/Train/ErgFilePlot.cpp:419-426 | A row entry either keeps its occupant or becomes -1. A kept occupant's range ends after the new start's x, and an occupant whose range ends after it is always kept. |
| LapRows.Aged | src/Train/ErgFilePlot.cpp:418-427 | Ageing the live rows keeps their number. A row stays occupied only by its old occupant, and only when that range ends after the new start's x. Every occupant whose range ends after that x is kept. |
| LapRows.FirstFree | src/Train/ErgFilePlot.cpp:429-432 | Returns the lowest free (negative) entry, or the length when every row is taken. Every entry before it is occupied. |
| LapRows.Place | src/Train/ErgFilePlot.cpp:413-439 | After placing range start i, it occupies its row. The row is the lowest one free after aging out ranges that end at or before lap i's x. When no row is free, the row equals the old row count and the vector grows by one; otherwise the length is kept. Every other row holds its aged value. |
| LapRows.PlaceStart | src/Train/ErgFilePlot.cpp:413-439 | The single pass over the live rows, ageing and taking the first free row, produces exactly `Place`. |
| LapRows.PackUpTo | src/Train/ErgFilePlot.cpp:405-442 | After any number of Part 2 iterations, every live-row entry is -1 or a lap index, and the row map has one entry per lap. |
| LapRows.RowsOf | src/Train/ErgFilePlot.cpp:404-443 | The row map has one entry per lap. What the entries are is stated by `RowsOfShape`, `RowOfStart` and `NoOverlap`. |
| LapRows.DistributeRows | src/Train/ErgFilePlot.cpp:404-443 | The Part 2 loop produces exactly the row map `RowsOf` of the lap list and the range map. |
| LapRows.RowsOfShape | src/Train/ErgFilePlot.cpp:405-411 | A lap's row is >= 0 iff the lap is the recorded start of its range; every other entry stays -1. |
| LapRows.RowOfStart | src/Train/ErgFilePlot.cpp:405-442 | The row finally recorded for a range start is the one `Place` gave it when it was visited; later iterations do not change it. |
| LapRows.PackRowsStable | src/Train/ErgFilePlot.cpp:442 | Iterations after the n-th never change the row entries of the first n laps. |
| LapRows.LiveRowsNeverShrink | src/Train/ErgFilePlot.cpp:417-439 | The live-row vector never gets shorter from one iteration to a later one. |
| LapRows.NoOverlap | src/Train/ErgFilePlot.cpp:418-433 | When range starts come in non-decreasing x order, two ranges given the same row do not overlap: the earlier ends at or before the later starts. |
| LapRows.PackUpToLive | src/Train/ErgFilePlot.cpp:417-439 | After n Part 2 iterations, every occupied row holds a range start among the first n laps, and no range start holds two rows. |
| LapRows.NewRowWitnesses | src/Train/ErgFilePlot.cpp:429-439 | When range starts come in non-decreasing x order and range start i opens a new row, every existing row is held by a distinct earlier range start. Each of those ranges starts at or before lap i's x and ends after it. So with range i, one more range covers lap i's x than there were rows. |
| LapRows.UnsortedStartsShareRow | src/Train/ErgFilePlot.cpp:418-433 | The no-overlap guarantee needs starts in x order. On five laps whose starts are out of order, id 2 (x 0 to 12) and id 4 (starting at x 5) both get row 1. |
| LapRows.UnsortedRanges | src/Train/ErgFilePlot.cpp:377-393 | Part 1 on that example gives one range per id, with id 2 running from lap 1 (x 0) to lap 2 (x 12). |
| LapRows.UnsortedFirstRow | src/Train/ErgFilePlot.cpp:436-442 | On that example, lap 0 finds no rows and opens row 0. |
| LapRows.UnsortedFirstRows | src/Train/ErgFilePlot.cpp:418-439 | Lap 1 then opens row 1, because id 1 ends at x 1, after lap 1's x 0. |
| LapRows.UnsortedFourthLap | src/Train/ErgFilePlot.cpp:418-439 | Lap 3 at x 50 frees both rows and takes row 0, leaving row 1 free. |
| LapRows.UnsortedRows | src/Train/ErgFilePlot.cpp:404-443 | Part 2 on that example gives rows [0, 1, -1, 0, 1]: lap 4 at x 5 takes the free row 1. |
| LapRows.ExampleRanges | src/Train/ErgFilePlot.cpp:377-393 | On a four-lap example, the simple laps (id 0) form one range from x 0 to x 15 and id 1 spans laps 1 to 2. |
| LapRows.ExampleFirstRow | src/Train/ErgFilePlot.cpp:436-442 | In the example's first iteration, lap 0 finds no rows and opens row 0. |
| LapRows.ExampleSecondRow | src/Train/ErgFilePlot.cpp:418-439 | In the example's second iteration, lap 0's range is still open at x 10, so lap 1 opens row 1. |
| LapRows.ExampleRows | src/Train/ErgFilePlot.cpp:404-443 | Part 2 on the example gives rows [0, 1, -1, -1]. |
| LapRows.ExampleLayout | src/Train/ErgFilePlot.cpp:367-444 | Part 1 followed by Part 2 on the example gives that map and those rows. |
| LapRows.LapRowDistributor.constructor | src/Train/ErgFilePlot.cpp:367-444 | The new object holds the lap list, the Part 1 map of it and the Part 2 rows of it. |
| LapRows.GuardAdmitsOnePastEnd | src/Train/ErgFilePlot.cpp:348-349 | The bounds test as written accepts i == count, which is not an index of the list (see Findings). |
| LapRows.LapRowDistributor.GetInfo | src/Train/ErgFilePlot.cpp:346-365 | Returns Failed iff i is outside the list; in that case the caller's row is left unchanged. Otherwise: the kind is SimpleLap iff the id is 0, and the row is the one recorded for the range's start. Uses the corrected bound. |
| LapRows.GetInfoRow | src/Train/ErgFilePlot.cpp:351-353 | Every lap in the list reports a row >= 0. Two laps with the same id report the same row. |
| LapRows.GetInfoKind | src/Train/ErgFilePlot.cpp:355-362 | For a non-zero id, the kind is StartOfRange iff the lap is the earliest minimum of its range. It is EndOfRange iff the lap is not that but is the earliest maximum. It is InternalRange iff it is neither. |
| Curves.GrownSize | src/Train/ErgFilePlot.cpp:1079 | The size asked for is a multiple of 1000, strictly above the new count, and at most 1000 above it. |
| Curves.Resized | src/Train/ErgFilePlot.cpp:1080-1083 | Resizing a buffer keeps its old elements and reaches the requested length. |
| Curves.CurveData.constructor | src/Train/ErgFilePlot.cpp:1075 | A new curve has count 0 and size 0. |
| Curves.CurveData.Count | src/Train/ErgFilePlot.cpp:1092-1095 | The count never exceeds the length of either buffer. |
| Curves.CurveData.Size | src/Train/ErgFilePlot.cpp:1097-1100 | The size is a multiple of 1000, at or above the count, and both buffers have it as their length. |
| Curves.CurveData.Xs | src/Train/ErgFilePlot.cpp:1102-1105 | The visible x samples are as many as the count. |
| Curves.CurveData.Ys | src/Train/ErgFilePlot.cpp:1107-1110 | The visible y samples are as many as the count. |
| Curves.CurveData.Append | src/Train/ErgFilePlot.cpp:1077-1090 | The count grows by exactly n. The old samples are kept and are followed by the n inputs in order, in both buffers. The size becomes the next block above the new count only when that exceeds the old size, so it never shrinks and ends strictly above the count. The size stays a multiple of 1000 at or above the count. |
| Curves.CurveData.CopySamples | src/Train/ErgFilePlot.cpp:1085-1088 | The copy loop leaves the buffers' lengths alone. Their prefixes up to start + n are the old prefixes followed by the first n inputs. |
| Curves.CurveData.Clear | src/Train/ErgFilePlot.cpp:1112-1117 | Count and size both become 0. |
| Telemetry.Tick | src/Train/ErgFilePlot.cpp:722-738 | A tick closes the window iff the counter was at least 25. An open window advances the counter by one and adds the tick to the sums. A closing tick resets to zero and emits the mean of the sums including this tick: 26 times the mean equals the sum on every channel. A counter in 0..25 stays in 0..25. |
| Telemetry.Feed | src/Train/ErgFilePlot.cpp:722-738 | After any run of ticks from reset, the counter is in 0..25, and no more means were emitted than ticks were fed. |
| Telemetry.TickWithinWindow | src/Train/ErgFilePlot.cpp:722-730 | A tick with the counter below 25 only advances the counter and adds to the sums, and the window bookkeeping still holds. |
| Telemetry.TickClosesWindow | src/Train/ErgFilePlot.cpp:722-738 | The 26th tick of a window commits the mean of exactly that window's 26 ticks and restarts from zero, and the bookkeeping still holds. |
| Telemetry.TickWindows | src/Train/ErgFilePlot.cpp:722-738 | Every accepted tick keeps the window bookkeeping. |
| Telemetry.FeedWindows | src/Train/ErgFilePlot.cpp:722-738 | After n accepted ticks from reset: the counter is n mod 26 and exactly n div 26 means were committed. The k-th mean is the mean of ticks 26k to 26k+25, and the sums hold the ticks of the unfinished window. |
| Telemetry.SumOfConstant | src/Train/ErgFilePlot.cpp:722-726 | The sums of n equal ticks are n times that tick on every channel. |
| Telemetry.ConstantWindow | src/Train/ErgFilePlot.cpp:728-738 | 26 identical ticks commit exactly that reading and leave the accumulator at zero. |
| Telemetry.CommitAllSeeded | src/Train/ErgFilePlot.cpp:741-744 | The values committed to a curve from empty are the first mean twice (seed and point) followed by every later mean once. The first commit adds two points and each later one adds one. |
| Telemetry.CommitAllAtSeeded | src/Train/ErgFilePlot.cpp:741-744 | The x coordinates committed from empty are 0 followed by every commit position. |
| Telemetry.AppendPoint | src/Train/ErgFilePlot.cpp:743-744 | One series commit seeds an empty curve with (0, v) and then appends (x, v). |
| Telemetry.ErgFilePlot.constructor | src/Train/ErgFilePlot.cpp:198-300 | The plot starts with five distinct empty curves and a zero accumulator. The curves are created at lines 198-251. The zero accumulator comes from the `setData` call at line 300, whose first statement (line 450) is `reset()`, which zeroes the counter and sums (line 774). |
| Telemetry.ErgFilePlot.PerformancePlot | src/Train/ErgFilePlot.cpp:700-761 | While not running or paused, nothing changes. Otherwise the accumulator takes one `Tick` step. The curves are untouched unless the window closed, in which case each of the five gets its channel's mean at x, seeded at 0 when empty. The counter stays in 0..25. |
| Telemetry.ErgFilePlot.CommitMeans | src/Train/ErgFilePlot.cpp:741-760 | Each of the five curves receives its channel of the mean at x, after a seed at 0 if it was empty. |
| Telemetry.ErgFilePlot.Reset | src/Train/ErgFilePlot.cpp:771-792 | The counter and sums become zero, and every curve has count 0 and size 0. |
| TimeText.CppDiv | src/Train/ErgFilePlot.cpp:967-968 | C++ int division by a positive divisor rounds toward zero. For a >= 0 the quotient times b is the largest multiple of b at or below a. For a < 0 it is the smallest multiple of b at or above a, and the quotient is not positive. |
| TimeText.CppRem | src/Train/ErgFilePlot.cpp:966-967 | C++ remainder: quotient times b plus remainder gives back a, the remainder lies strictly between -b and b, and it is non-negative for a >= 0 and non-positive for a < 0. |
| TimeText.NatToStringNoLeadingZero | src/Train/ErgFilePlot.cpp:972-983 | The decimal text of n starts with '0' only when n is 0. |
| TimeText.IntToString | src/Train/ErgFilePlot.cpp:972-983 | The text is non-empty and starts with '-' iff n is negative. The rest is a run of decimal digits whose value is the absolute value of n, with no leading zero unless it is the single digit of 0. |
| TimeText.SecsToString | src/Train/ErgFilePlot.cpp:963-986 | The text ends in 'm' or 's'. It ends in 'm' iff the input is a positive whole number of minutes. It starts with '-' iff the input is negative and not a whole number of minutes. |
| TimeText.NatToStringNumeral | src/Train/ErgFilePlot.cpp:972-983 | The decimal text of n is a non-empty run of digits whose value is n. |
| TimeText.ShownPartsTotal | src/Train/ErgFilePlot.cpp:966-968 | The hours, minutes and seconds shown add back up to the input, whichever fields are shown. |
| TimeText.RendersHoursMinutesSeconds | src/Train/ErgFilePlot.cpp:970-972 | With hours and seconds both positive, the text is "Hh Mm Ss". |
| TimeText.RendersHoursMinutes | src/Train/ErgFilePlot.cpp:970-975 | With hours positive and seconds 0, the text is "Hh Mm", showing the minutes even when they are 0. |
| TimeText.RendersWithoutHours | src/Train/ErgFilePlot.cpp:976-984 | Under an hour the text is "Mm Ss", "Mm" or "Ss", as minutes and seconds are positive or not. |
| TimeText.SecsToStringRenders | src/Train/ErgFilePlot.cpp:963-986 | For s >= 0 the text is the rendering of the parts chosen from hours, minutes and seconds. |
| TimeText.ScanDigits | src/Train/ErgFilePlot.cpp:972-983 | A run of digits followed by a unit letter is scanned as that field's number of seconds, and the rest is left over. |
| TimeText.ParseLastField | src/Train/ErgFilePlot.cpp:983 | A single numeral with a unit letter reads back as its seconds. |
| TimeText.ParseFieldThen | src/Train/ErgFilePlot.cpp:972 | A field, a space and a readable rest read back as the field's seconds plus the rest's. |
| TimeText.ParseRender | src/Train/ErgFilePlot.cpp:970-984 | Any non-empty list of h/m/s fields, rendered with single spaces, reads back as its total number of seconds. |
| TimeText.SecsToStringRoundTrip | src/Train/ErgFilePlot.cpp:963-986 | For every s >= 0, reading the text back gives s. |
| TimeText.SecsToStringNegative | src/Train/ErgFilePlot.cpp:966-984 | For s < 0, truncating arithmetic makes hours and minutes non-positive. Only the non-positive remainder of seconds is shown, followed by "s". |
| TimeText.SecsToStringExamples | src/Train/ErgFilePlot.cpp:963-986 | 0 gives "0s", 45 gives "45s", 120 gives "2m", 3605 gives "1h 0m 5s" and -65 gives "-5s". |

## Left out

- Widget construction, axes, palettes, fonts, signal wiring, hover tooltips, section highlighting and the W'bal prediction. They are drawing code against Qt/Qwt classes that are not part of this model.
- `setData` and its marker set-up. It only consumes `GetInfo`.
- The `ErgFileData` and `NowData` bridges, the clock read by `context->getNow()`, and the `MILES_PER_KM` conversion. `PerformancePlot` takes the plot position x as a parameter.
- Telemetry.ErgFilePlot.PerformancePlot: omits the run-time x-axis extension when no workout is loaded (src/Train/ErgFilePlot.cpp:708-714). That is an axis-scale call with no effect on the accumulator or the curves.
- The `setSamples` calls that hand a curve's buffers to Qwt after each commit and in `reset`. `Xs()`/`Ys()` stand for the `x()`/`y()` buffer accessors together with the count.
- Telemetry: sums and means are `real`. IEEE rounding of the doubles is not modelled, and no floating-point tolerance is claimed.
- LapRows: lap positions are `int` rather than `double`. The code only compares them with `<`, `>` and `<=`.
- LapRows.LapRowDistributor.GetInfo: the `find` at src/Train/ErgFilePlot.cpp:356 can never miss, because every lap's id is a key (`RangeMapKeys`). The fallback to InternalRange after a miss is therefore not modelled as a separate branch.
- Curves.CurveData.Append: the count is a `nat`. A negative count, which makes the C++ loop do nothing while still moving `d_count` backwards, is outside the model, and so is `int` overflow of the count.
- Curves.CurveData.Clear: `clear` empties both vectors, so their element count, which `size()` reports, becomes 0. Any capacity the vectors keep is not modelled.
- TimeText.IntToString: `QString::arg` formatting is modelled only for plain decimal integers without field width or fill. Those are the only forms `secsToString` uses.
- TimeText.ParseDuration: this reader is a reference partner for the round trip and has no counterpart in the source.

## Findings

| source | as written | input that shows it | evidently intended | confidence | as-written member | corrected member |
|---|---|---|---|---|---|---|
| src/Train/ErgFilePlot.cpp:348 | `GetInfo` rejects `i < 0 \|\| i > laps.count()`, so `i == laps.count()` passes and `laps.at(i)` reads one past the end | any lap list, with `i` equal to its length | reject `i >= laps.count()` | not executed | LapRows.GuardAdmitsOnePastEnd | LapRows.LapRowDistributor.GetInfo |
