/**
 * The interval indexer: conversion between a grid index and the time range of its block,
 * and between a time of day and the index of the block that contains it.
 */
module Intervals {
  import opened Clock

  /** Minutes in a day. */
  const DayMinutes: nat := 1440

  /** The end the last block of a day is given: 11:59:59, as the code writes it. */
  const ClampedEnd: NaiveTime := Time(11, 59, 59)

  /**
   * The three panics of the indexer, surfaced as values: the index check of `index_to_time_range`
   * gives `IndexOutOfRange`; the size checks of both conversions give `IntervalTooLarge`.
   */
  datatype ConfigError = IndexOutOfRange | IntervalTooLarge

  datatype Result<+T> = Ok(value: T) | Err(error: ConfigError)

  /** The time `m` minutes past midnight, with zero seconds. */
  function AtMinute(m: nat): (t: NaiveTime)
    requires m < DayMinutes
    ensures MinutesOf(t) == m && t.second == 0
  {
    Time(m / 60, m % 60, 0)
  }

  /** A time of day with zero seconds is determined by its minutes past midnight. */
  lemma MinutesDetermine(t: NaiveTime, u: NaiveTime)
    requires MinutesOf(t) == MinutesOf(u) && t.second == u.second
    ensures t == u
  {
  }

  /** Multiplying both sides of an inequality by a non-negative number keeps it. */
  lemma MulMono(a: nat, b: nat, s: nat)
    ensures a <= b ==> a * s <= b * s
  {
  }

  /** Consecutive multiples of `s` are `s` apart, so a smaller factor leaves a gap of at least `s`. */
  lemma {:induction false} MulStep(a: nat, b: nat, s: nat)
    ensures a < b ==> a * s + s <= b * s
    decreases b - a
  {
    if a + 1 < b {
      MulStep(a + 1, b, s);
    }
  }

  /** At most one multiple of `s` lies in any window of `s` consecutive numbers below `m + 1`. */
  lemma {:induction false} FloorUnique(m: nat, s: nat, q: nat, k: nat)
    requires q * s <= m < q * s + s
    requires k * s <= m < k * s + s
    ensures q == k
  {
    MulStep(q, k, s);
    MulStep(k, q, s);
  }

  /** A valid index's block ends no later than the end of the day. */
  lemma BlockWithinDay(i: nat, s: nat)
    requires 0 < s && i < DayMinutes / s
    ensures (i + 1) * s <= DayMinutes
  {
    MulMono(i + 1, DayMinutes / s, s);
  }

  /**
   * `index_to_time_range`: the start and end of block `index` on a grid of `s`-minute blocks.
   * The index check comes before the interval-size check; an end at or past midnight is
   * replaced by 11:59:59.
   */
  function IndexToTimeRange(index: nat, s: nat): (r: Result<(NaiveTime, NaiveTime)>)
    requires 0 < s
    ensures r.Err? <==> index >= DayMinutes / s || s > 60
    ensures index >= DayMinutes / s ==> r == Err(IndexOutOfRange)
    ensures index < DayMinutes / s && s > 60 ==> r == Err(IntervalTooLarge)
    ensures r.Ok? ==> MinutesOf(r.value.0) == index * s && r.value.0.second == 0
    ensures r.Ok? && (index + 1) * s < DayMinutes ==>
              MinutesOf(r.value.1) == (index + 1) * s && r.value.1.second == 0
    ensures r.Ok? && (index + 1) * s >= DayMinutes ==> r.value.1 == Time(11, 59, 59)
  {
    if index >= DayMinutes / s then Err(IndexOutOfRange)
    else if s > 60 then Err(IntervalTooLarge)
    else
      BlockWithinDay(index, s);
      var startMinute := index * s;
      var endMinute := (index + 1) * s;
      var start := AtMinute(startMinute);
      var end: NaiveTime := if endMinute >= DayMinutes then ClampedEnd else AtMinute(endMinute);
      Ok((start, end))
  }

  /**
   * `time_to_range_index`: the index of the `s`-minute block that holds `t`, by floor division
   * of its minutes past midnight; seconds play no part.
   */
  function TimeToRangeIndex(t: NaiveTime, s: nat): (r: Result<nat>)
    requires 0 < s
    ensures r.Ok? <==> s <= 60
    ensures s > 60 ==> r == Err(IntervalTooLarge)
    ensures r.Ok? ==> r.value * s <= MinutesOf(t) < r.value * s + s
  {
    if s > 60 then Err(IntervalTooLarge)
    else Ok(MinutesOf(t) / s)
  }

  /** The floor bucket is unique: a time whose minutes lie in `[k*s, k*s+s)` has index `k`. */
  lemma {:induction false} BucketUnique(t: NaiveTime, s: nat, k: nat)
    requires 0 < s <= 60
    requires k * s <= MinutesOf(t) < k * s + s
    ensures TimeToRangeIndex(t, s) == Ok(k)
  {
    FloorUnique(MinutesOf(t), s, TimeToRangeIndex(t, s).value, k);
  }

  /** Two times with the same hour and minute fall in the same block, whatever their seconds. */
  lemma IgnoresSeconds(t: NaiveTime, u: NaiveTime, s: nat)
    requires 0 < s
    requires t.hour == u.hour && t.minute == u.minute
    ensures TimeToRangeIndex(t, s) == TimeToRangeIndex(u, s)
  {
  }

  /** Round trip: the start of block `i` maps back to `i`. */
  lemma {:induction false} StartRoundTrip(i: nat, s: nat)
    requires 0 < s <= 60 && i < DayMinutes / s
    ensures IndexToTimeRange(i, s).Ok?
    ensures TimeToRangeIndex(IndexToTimeRange(i, s).value.0, s) == Ok(i)
  {
    BucketUnique(IndexToTimeRange(i, s).value.0, s, i);
  }

  /** Every time within a block maps back to that block's index (many-to-one bucketing). */
  lemma {:induction false} WithinBlockRoundTrip(i: nat, s: nat, t: NaiveTime)
    requires 0 < s <= 60 && i < DayMinutes / s
    requires MinutesOf(IndexToTimeRange(i, s).value.0) <= MinutesOf(t)
    requires MinutesOf(t) < MinutesOf(IndexToTimeRange(i, s).value.0) + s
    ensures TimeToRangeIndex(t, s) == Ok(i)
  {
    BucketUnique(t, s, i);
  }

  /**
   * On a grid whose interval size divides the day, every time of day has an index inside
   * the grid: at most `DayMinutes / s - 1` (95 for 15-minute blocks).
   */
  lemma {:induction false} IndexInGrid(t: NaiveTime, s: nat)
    requires 0 < s <= 60 && DayMinutes % s == 0
    ensures TimeToRangeIndex(t, s).Ok?
    ensures TimeToRangeIndex(t, s).value < DayMinutes / s
  {
    var q, k := TimeToRangeIndex(t, s).value, DayMinutes / s;
    assert k * s == DayMinutes;
    MulMono(k, q, s);
  }

  /** Blocks tile the day: an unclamped block ends exactly where the next one starts. */
  lemma {:induction false} ConsecutiveBlocksMeet(i: nat, s: nat)
    requires 0 < s <= 60 && (i + 2) * s <= DayMinutes
    ensures i + 1 < DayMinutes / s
    ensures IndexToTimeRange(i, s).Ok? && IndexToTimeRange(i + 1, s).Ok?
    ensures IndexToTimeRange(i, s).value.1 == IndexToTimeRange(i + 1, s).value.0
  {
    var k := DayMinutes / s;
    assert DayMinutes < k * s + s;
    MulStep(k, i + 2, s);
    MinutesDetermine(IndexToTimeRange(i, s).value.1, IndexToTimeRange(i + 1, s).value.0);
  }

  /**
   * The clamped end of the last block precedes its start: the block starts at 23:00 or later
   * but is said to end at 11:59:59.
   */
  lemma ClampedEndPrecedesStart(i: nat, s: nat)
    requires 0 < s <= 60 && i < DayMinutes / s && (i + 1) * s >= DayMinutes
    ensures IndexToTimeRange(i, s).Ok?
    ensures MinutesOf(IndexToTimeRange(i, s).value.1) < MinutesOf(IndexToTimeRange(i, s).value.0)
  {
  }

  /**
   * The contract of `IndexToTimeRange` pins its result down: a pair of times with the promised
   * minutes and seconds is the result.
   */
  lemma {:induction false} RangeDeterminedByMinutes(i: nat, s: nat, start: NaiveTime, end: NaiveTime)
    requires 0 < s <= 60 && i < DayMinutes / s
    requires MinutesOf(start) == i * s && start.second == 0
    requires if (i + 1) * s < DayMinutes then MinutesOf(end) == (i + 1) * s && end.second == 0
             else end == ClampedEnd
    ensures IndexToTimeRange(i, s) == Ok((start, end))
  {
    var r := IndexToTimeRange(i, s);
    MinutesDetermine(r.value.0, start);
    if (i + 1) * s < DayMinutes {
      MinutesDetermine(r.value.1, end);
    }
  }

  /** The values fixed by the unit test of `index_to_time_range` on 15-minute blocks. */
  lemma IndexToTimeRangeExamples()
    ensures IndexToTimeRange(0, 15) == Ok((Time(0, 0, 0), Time(0, 15, 0)))
    ensures IndexToTimeRange(9, 15) == Ok((Time(2, 15, 0), Time(2, 30, 0)))
    ensures IndexToTimeRange(95, 15) == Ok((Time(23, 45, 0), Time(11, 59, 59)))
  {
    assert DayMinutes / 15 == 96;
    RangeDeterminedByMinutes(0, 15, Time(0, 0, 0), Time(0, 15, 0));
    RangeDeterminedByMinutes(9, 15, Time(2, 15, 0), Time(2, 30, 0));
    RangeDeterminedByMinutes(95, 15, Time(23, 45, 0), Time(11, 59, 59));
  }

  /** The values fixed by the unit test of `time_to_range_index` on 15-minute blocks. */
  lemma TimeToRangeIndexExamples()
    ensures TimeToRangeIndex(Time(0, 0, 0), 15) == Ok(0)
    ensures TimeToRangeIndex(Time(2, 15, 0), 15) == Ok(9)
    ensures TimeToRangeIndex(Time(23, 45, 0), 15) == Ok(95)
  {
    assert MinutesOf(Time(2, 15, 0)) / 15 == 135 / 15 == 9;
    assert MinutesOf(Time(23, 45, 0)) / 15 == 1425 / 15 == 95;
  }
}
