# ltask availability calendar, modelled in Dafny

ltask keeps a weekly availability calendar in `src/schedule.rs`. Each day is a grid of 96
fifteen-minute blocks, and each block is either `Free` or `Busy`. A week maps each of the seven
weekdays to a day of its own. There are four operations:

- a point query: the status of the block that holds a given time;
- a half-open range write: every block from the index of a start time up to, but not including,
  the index of an end time gets a new status;
- `index_to_time_range`: from a block index to its start and end times;
- `time_to_range_index`: from a time of day to the index of its block.

The project has four modules:

- `Clock` (`clock.dfy`) stands in for the two chrono types the calendar uses. `NaiveTime` is an
  hour, minute and second in range, and `Weekday` is the enumeration of the seven days.
- `Intervals` (`intervals.dfy`) models the two conversions as functions. They work for any
  positive interval size. Their three `panic!` calls become two `Err` values. The module proves that the
  conversions round-trip, that floor bucketing is unique, that consecutive blocks meet, and the
  values the unit tests fix.
- `Day` (`day.dfy`) models `DaySchedule` as a class:
  - the block vector is an array whose elements are rewritten in place;
  - the range write is a `while` loop, proved against the recursive specification function
    `SetRange` and its pointwise characterisation `SetRangeAt`;
  - the invariant `Valid` says the day is a well-formed 96-block grid.
- `Week` (`week.dfy`) models `WeekSchedule` as a class holding a map from weekday to day
  schedule. Its invariant says that all seven days are present and well formed, and that no two
  days share their blocks. That last part is what lets a write to one day leave the other six
  alone.

Two choices of the code are kept as written:

- the clamp gives the last block of the day the end 11:59:59 (`src/schedule.rs:42`, asserted at
  `src/schedule.rs:148`), so that block "ends" before it starts, as
  `Intervals.ClampedEndPrecedesStart` proves;
- new blocks are `Busy` (`src/schedule.rs:72`, asserted at `src/schedule.rs:173` and
  `src/schedule.rs:189`).

Two more consequences of the code are proved:

- `Day.WriteRangeKeepsLastBlock`: no range write can change the last block (23:45-24:00). The
  index of any time of day is at most 95, and the range excludes its end index.
- `Day.BlockIndexInDay`: the index lookup in `get_time_status` can never go past the end of the
  block vector.

## Model

| member | source | states |
|---|---|---|
| Intervals.AtMinute | src/schedule.rs:33-39 | the time built from `m / 60` and `m % 60` has exactly `m` minutes past midnight and zero seconds |
| Intervals.IndexToTimeRange | src/schedule.rs:25-53 | error exactly when the index is at or past `1440 / s` or the size exceeds 60, with the index error taking precedence; otherwise the start is `index * s` minutes with zero seconds, and the end is `(index + 1) * s` minutes, or 11:59:59 once that reaches 1440 |
| Intervals.TimeToRangeIndex | src/schedule.rs:55-61 | error exactly when the size exceeds 60; otherwise an index `q` with `q * s <= minutes < q * s + s`, the floor bucket of the time's minutes |
| Intervals.BucketUnique | src/schedule.rs:59-60 | the bucket is unique: any `k` whose window `[k * s, k * s + s)` holds the time's minutes is the index returned |
| Intervals.IgnoresSeconds | src/schedule.rs:59 | two times with the same hour and minute get the same index, whatever their seconds |
| Intervals.StartRoundTrip | src/schedule.rs:25-61 | for every valid index, converting the index to its range and the range's start back to an index gives the index again |
| Intervals.WithinBlockRoundTrip | src/schedule.rs:25-61 | every time between a block's start and the start plus `s` minutes maps back to that block's index |
| Intervals.IndexInGrid | src/schedule.rs:55-61 | for a size that divides the day, every time of day has an index below `1440 / s` |
| Intervals.ConsecutiveBlocksMeet | src/schedule.rs:32-50 | below the clamp, block `i` ends exactly where block `i + 1` starts, so the blocks tile the day |
| Intervals.ClampedEndPrecedesStart | src/schedule.rs:40-42 | the clamped end of the last block is earlier in the day than that block's start |
| Intervals.RangeDeterminedByMinutes | src/schedule.rs:25-53 | any pair of times with the promised minutes, seconds and clamp is the result of `index_to_time_range` |
| Intervals.IndexToTimeRangeExamples | src/schedule.rs:128-151 | index 0 is 00:00-00:15, index 9 is 02:15-02:30, index 95 is 23:45-11:59:59 (15-minute blocks) |
| Intervals.TimeToRangeIndexExamples | src/schedule.rs:153-167 | 00:00 maps to 0, 02:15 to 9 and 23:45 to 95 (15-minute blocks) |
| Day.BlockIndexInDay | src/schedule.rs:82-85 | the index of every time of day on the 15-minute grid is below 96, so the block lookup stays in bounds |
| Day.CoveringBlock | src/schedule.rs:82-85 | in a well-formed day exactly one block holds each time: the block at the time's index holds it, and no other block does |
| Day.DefaultBlocks | src/schedule.rs:64-81 | the blocks of a new day (each built by `NewBlock`, the `map` closure at lines 67-74) form a well-formed 96-block grid, each block placed where the indexer puts it, and every block is busy |
| Day.SetRange | src/schedule.rs:89-91 | a write over indices `[lo, hi)` keeps the number of blocks |
| Day.SetRangeAt | src/schedule.rs:86-92 | after the write, a block in `[lo, hi)` has only its status changed, to the new one, and every other block is unchanged |
| Day.SetRangeKeepsGrid | src/schedule.rs:89-91 | a range write keeps every block's start and end, so the day stays well formed |
| Day.SetRangeIdempotent | src/schedule.rs:89-91 | writing the same range twice gives the same blocks as writing it once |
| Day.SetRangeAdjacent | src/schedule.rs:89-91 | writing `[lo, mid)` and then `[mid, hi)` gives the same blocks as writing `[lo, hi)` |
| Day.WriteRange | src/schedule.rs:86-92 | the blocks after a range write: the day stays well formed, blocks from the start time's index up to, not including, the end time's index get the status, and all others are unchanged |
| Day.WriteRangeKeepsLastBlock | src/schedule.rs:86-92 | no range write can change the last block of the day, since the end index is at most 95 and excluded |
| Day.DaySchedule.constructor | src/schedule.rs:64-81 | a new day has interval size 15 and 96 busy blocks placed by `index_to_time_range`, in a fresh array |
| Day.DaySchedule.GetTimeStatus | src/schedule.rs:82-85 | the result is the status of a block that holds the time |
| Day.DaySchedule.SetTimeStatus | src/schedule.rs:86-92 | the loop leaves the blocks equal to `WriteRange` of the old blocks and keeps the day well formed; an empty or reversed range changes nothing; afterwards a time whose index is in the range reads the new status and every other time reads what it read before |
| Day.NewDayIsBusy | src/schedule.rs:72 | a new day answers `Busy` at every time of day |
| Day.BlockSetExample | src/schedule.rs:169-181 | a new day is busy at 02:17; after 02:15-03:15 is set free it is free at 02:17 and 02:48, and still busy at 03:15, the excluded end |
| Week.NewDaysMakeWholeWeek | src/schedule.rs:95-107 | seven new days, one per weekday and with distinct blocks, form a whole week: every weekday present and every day new |
| Week.WeekSchedule.constructor | src/schedule.rs:95-107 | `default` gives a week with all seven weekdays, each a new day with blocks of its own |
| Week.WeekSchedule.GetTimeStatus | src/schedule.rs:111-113 | the result is the status of a block of the named day that holds the time |
| Week.WeekSchedule.SetTimeStatus | src/schedule.rs:114-125 | the named day's blocks become `WriteRange` of its old blocks; every other day's blocks are unchanged; the week stays whole; afterwards only the named day's times inside the range read the new status |
| Week.WeekBlockSetExample | src/schedule.rs:183-220 | Tuesday is busy at 02:17; after Tuesday's 02:15-03:15 is set free, Tuesday is free at 02:17 and 02:48, while Monday and Wednesday stay busy at both |

## Left out

- `src/task/bash.rs` and `src/task/tasks.rs` are not part of this model. Both wrap a shell script
  in a process that they spawn, poll and kill (`BashScriptTask` and its `Runnable` operations);
  `src/task/tasks.rs` is an older version of `src/task/bash.rs`. They do process I/O and do not
  touch the calendar.
- chrono's `NaiveTime` is reduced to hour, minute and second. Nanoseconds, leap seconds and
  chrono's own arithmetic are not modelled, and neither are `Timelike` accessors beyond `hour()`
  and `minute()`.
- The `HashMap` of `WeekSchedule` is a Dafny `map`. Hashing, insertion order and the `unwrap` on
  a missing weekday are not modelled: the invariant guarantees that all seven weekdays are
  present, so that `unwrap` can never fail.
- `Intervals.IndexToTimeRange` and `Intervals.TimeToRangeIndex`: an interval size of 0 panics in
  the code by dividing by zero. The model excludes it with `requires 0 < s` rather than giving it
  an error value. The three explicit panics become two error values: the index check
  at `src/schedule.rs:28` becomes `Err(IndexOutOfRange)`, and the size checks at
  `src/schedule.rs:30` and `src/schedule.rs:57` both become `Err(IntervalTooLarge)`.
- `Day.DaySchedule.Valid`: the invariant fixes the interval size at 15 minutes. `DaySchedule::new`
  is the only way the code builds a day, and it always uses 15.
  - The conversions in `Intervals` are still modelled and proved for every positive interval size.
  - The code never checks that an interval size divides the day. With 7-minute blocks, 23:59
    would map to index 205 = 1440 / 7, which `index_to_time_range` rejects. This cannot arise
    for a day the code builds.
- Integer widths (`usize`, `u32`, and the `as` casts between them) are unbounded integers here. No
  value in the calendar exceeds 1440, so no wrap-around or truncation is reachable.
- The `Debug`, `Clone` and `PartialEq` derives are not modelled. Datatype equality stands in for
  `PartialEq`.
