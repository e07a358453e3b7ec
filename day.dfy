/**
 * One day's availability: a grid of fixed-width time blocks, each free or busy, with a point
 * query and a half-open range write that rewrites block statuses in place.
 */
module Day {
  import opened Clock
  import opened Intervals

  datatype TimeStatus = Free | Busy

  /** One cell of the grid. Its start and end are fixed when it is made; only its status changes. */
  datatype TimeBlock = TimeBlock(start: NaiveTime, end: NaiveTime, blockType: TimeStatus)

  /** The interval size every day schedule is built with. */
  const DefaultIntervalSize: nat := 15

  /** The number of blocks a day schedule is built with. */
  const DefaultBlockCount: nat := 96

  /** Block `b` has the start and end the indexer gives index `i` on the 15-minute grid. */
  ghost predicate PlacedAt(b: TimeBlock, i: nat)
  {
    IndexToTimeRange(i, DefaultIntervalSize).Ok? && (b.start, b.end) == IndexToTimeRange(i, DefaultIntervalSize).value
  }

  /** A well-formed day: 96 blocks, each where the indexer places its index. */
  ghost predicate Grid(bs: seq<TimeBlock>)
  {
    && |bs| == DefaultBlockCount
    && forall i :: 0 <= i < |bs| ==> PlacedAt(bs[i], i)
  }

  /**
   * Block `b` holds time `t`: `t` lies within 15 minutes from the block's start. The block's
   * stored end is not used, since the last block's end is clamped to 11:59:59.
   */
  predicate Covers(b: TimeBlock, t: NaiveTime)
  {
    MinutesOf(b.start) <= MinutesOf(t) < MinutesOf(b.start) + DefaultIntervalSize
  }

  /** The index `time_to_range_index` gives `t` on the 15-minute grid. */
  function BlockIndex(t: NaiveTime): nat
  {
    TimeToRangeIndex(t, DefaultIntervalSize).value
  }

  /** Every time of day has an index inside the day: at most 95. */
  lemma BlockIndexInDay(t: NaiveTime)
    ensures BlockIndex(t) < DefaultBlockCount
  {
    IndexInGrid(t, DefaultIntervalSize);
  }

  /** In a well-formed day exactly one block holds each time of day: the block at its index. */
  lemma {:induction false} CoveringBlock(bs: seq<TimeBlock>, t: NaiveTime)
    requires Grid(bs)
    ensures BlockIndex(t) < |bs| && Covers(bs[BlockIndex(t)], t)
    ensures forall i :: 0 <= i < |bs| && Covers(bs[i], t) ==> i == BlockIndex(t)
  {
    BlockIndexInDay(t);
    forall i | 0 <= i < |bs| && Covers(bs[i], t)
      ensures i == BlockIndex(t)
    {
      BucketUnique(t, DefaultIntervalSize, i);
    }
  }

  /** The block `DaySchedule::new` makes for index `i`: the indexer's range, and busy. */
  function NewBlock(i: nat): TimeBlock
    requires i < DefaultBlockCount
  {
    var range := IndexToTimeRange(i, DefaultIntervalSize).value;
    TimeBlock(range.0, range.1, Busy)
  }

  /** The blocks of a fresh day: a well-formed 15-minute grid of 96 blocks, every one busy. */
  function DefaultBlocks(): (bs: seq<TimeBlock>)
    ensures Grid(bs)
    ensures forall i :: 0 <= i < |bs| ==> bs[i].blockType == Busy
  {
    seq(DefaultBlockCount, i requires 0 <= i < DefaultBlockCount => NewBlock(i))
  }

  /**
   * The blocks after statuses `lo`, `lo + 1`, ..., `hi - 1` were set to `st`, one at a time and
   * in that order; nothing is written when `hi <= lo`.
   */
  function SetRange(bs: seq<TimeBlock>, lo: nat, hi: nat, st: TimeStatus): (r: seq<TimeBlock>)
    requires hi <= |bs|
    ensures |r| == |bs|
    decreases hi
  {
    if hi <= lo then bs
    else
      var done := SetRange(bs, lo, hi - 1, st);
      done[hi - 1 := done[hi - 1].(blockType := st)]
  }

  /**
   * A range write changes exactly the blocks of `[lo, hi)`, and in those only the status, to
   * `st`; every other block is as it was.
   */
  lemma {:induction false} SetRangeAt(bs: seq<TimeBlock>, lo: nat, hi: nat, st: TimeStatus, k: nat)
    requires hi <= |bs| && k < |bs|
    ensures SetRange(bs, lo, hi, st)[k] == if lo <= k < hi then bs[k].(blockType := st) else bs[k]
    decreases hi
  {
    if lo < hi {
      SetRangeAt(bs, lo, hi - 1, st, k);
    }
  }

  /** A range write keeps the day well formed: no block moves. */
  lemma {:induction false} SetRangeKeepsGrid(bs: seq<TimeBlock>, lo: nat, hi: nat, st: TimeStatus)
    requires Grid(bs) && hi <= |bs|
    ensures Grid(SetRange(bs, lo, hi, st))
  {
    forall k | 0 <= k < |bs|
      ensures PlacedAt(SetRange(bs, lo, hi, st)[k], k)
    {
      SetRangeAt(bs, lo, hi, st, k);
    }
  }

  /** Writing the same range twice is writing it once. */
  lemma {:induction false} SetRangeIdempotent(bs: seq<TimeBlock>, lo: nat, hi: nat, st: TimeStatus)
    requires hi <= |bs|
    ensures SetRange(SetRange(bs, lo, hi, st), lo, hi, st) == SetRange(bs, lo, hi, st)
  {
    var once := SetRange(bs, lo, hi, st);
    forall k | 0 <= k < |bs|
      ensures SetRange(once, lo, hi, st)[k] == once[k]
    {
      SetRangeAt(bs, lo, hi, st, k);
      SetRangeAt(once, lo, hi, st, k);
    }
  }

  /**
   * Half-open ranges compose: writing `[lo, mid)` and then `[mid, hi)` is writing `[lo, hi)`,
   * with no block written by both.
   */
  lemma {:induction false} SetRangeAdjacent(bs: seq<TimeBlock>, lo: nat, mid: nat, hi: nat, st: TimeStatus)
    requires lo <= mid <= hi <= |bs|
    ensures SetRange(SetRange(bs, lo, mid, st), mid, hi, st) == SetRange(bs, lo, hi, st)
  {
    var first := SetRange(bs, lo, mid, st);
    forall k | 0 <= k < |bs|
      ensures SetRange(first, mid, hi, st)[k] == SetRange(bs, lo, hi, st)[k]
    {
      SetRangeAt(bs, lo, mid, st, k);
      SetRangeAt(first, mid, hi, st, k);
      SetRangeAt(bs, lo, hi, st, k);
    }
  }

  /**
   * The blocks after `set_time_status(startTime, endTime, st)`: the blocks from the index of
   * `startTime` up to, not including, the index of `endTime` get status `st`.
   */
  function WriteRange(bs: seq<TimeBlock>, startTime: NaiveTime, endTime: NaiveTime, st: TimeStatus)
    : (r: seq<TimeBlock>)
    requires Grid(bs)
    ensures Grid(r)
    ensures forall k :: 0 <= k < |r| ==>
              r[k] == if BlockIndex(startTime) <= k < BlockIndex(endTime) then bs[k].(blockType := st) else bs[k]
  {
    BlockIndexInDay(endTime);
    var lo, hi := BlockIndex(startTime), BlockIndex(endTime);
    SetRangeKeepsGrid(bs, lo, hi, st);
    forall k | 0 <= k < |bs|
      ensures SetRange(bs, lo, hi, st)[k] == if lo <= k < hi then bs[k].(blockType := st) else bs[k]
    {
      SetRangeAt(bs, lo, hi, st, k);
    }
    SetRange(bs, lo, hi, st)
  }

  /**
   * The last block of a day can never be written by a range write: the index of any time of
   * day is at most the last index, and the range excludes its end.
   */
  lemma {:induction false} WriteRangeKeepsLastBlock(
    bs: seq<TimeBlock>, startTime: NaiveTime, endTime: NaiveTime, st: TimeStatus)
    requires Grid(bs)
    ensures WriteRange(bs, startTime, endTime, st)[DefaultBlockCount - 1] == bs[DefaultBlockCount - 1]
  {
    BlockIndexInDay(endTime);
  }

  /** `DaySchedule`: the blocks of one day, kept in an array whose elements are rewritten in place. */
  class DaySchedule {
    const blocks: array<TimeBlock>
    const intervalSize: nat

    ghost predicate Valid()
      reads blocks
    {
      intervalSize == DefaultIntervalSize && Grid(blocks[..])
    }

    /** The state `DaySchedule::new` leaves: 15-minute blocks as `DefaultBlocks` gives them. */
    ghost predicate IsNew()
      reads blocks
    {
      intervalSize == DefaultIntervalSize && blocks[..] == DefaultBlocks()
    }

    /** `DaySchedule::new`: 96 fifteen-minute blocks, all busy. */
    constructor ()
      ensures Valid() && IsNew() && fresh(blocks)
    {
      intervalSize := DefaultIntervalSize;
      blocks := new TimeBlock[DefaultBlockCount](i requires 0 <= i < DefaultBlockCount => NewBlock(i));
      new;
      assert blocks[..] == DefaultBlocks();
    }

    /** `get_time_status`: the status of the block that holds `t`. */
    function GetTimeStatus(t: NaiveTime): (r: TimeStatus)
      reads blocks
      requires Valid()
      ensures exists i :: 0 <= i < blocks.Length && Covers(blocks[i], t) && r == blocks[i].blockType
    {
      CoveringBlock(blocks[..], t);
      blocks[TimeToRangeIndex(t, intervalSize).value].blockType
    }

    /**
     * `set_time_status`: every block from the index of `startTime` up to, not including, the
     * index of `endTime` gets `status`; nothing else changes.
     */
    method SetTimeStatus(startTime: NaiveTime, endTime: NaiveTime, status: TimeStatus)
      requires Valid()
      modifies blocks
      ensures Valid()
      ensures blocks[..] == WriteRange(old(blocks[..]), startTime, endTime, status)
      ensures BlockIndex(endTime) <= BlockIndex(startTime) ==> blocks[..] == old(blocks[..])
      ensures forall t: NaiveTime :: GetTimeStatus(t) ==
                if BlockIndex(startTime) <= BlockIndex(t) < BlockIndex(endTime) then status else old(GetTimeStatus(t))
    {
      BlockIndexInDay(endTime);
      var startIndex := TimeToRangeIndex(startTime, intervalSize).value;
      var endIndex := TimeToRangeIndex(endTime, intervalSize).value;
      var i := startIndex;
      while i < endIndex
        invariant startIndex <= i <= if startIndex <= endIndex then endIndex else startIndex
        invariant blocks[..] == SetRange(old(blocks[..]), startIndex, i, status)
      {
        blocks[i] := blocks[i].(blockType := status);
        i := i + 1;
      }
      ghost var was := old(blocks[..]);
      assert blocks[..] == WriteRange(was, startTime, endTime, status);
      forall t: NaiveTime
        ensures GetTimeStatus(t) == if startIndex <= BlockIndex(t) < endIndex then status else old(GetTimeStatus(t))
      {
        BlockIndexInDay(t);
        var k := BlockIndex(t);
        assert GetTimeStatus(t) == blocks[k].blockType;
        assert old(GetTimeStatus(t)) == was[k].blockType;
      }
    }
  }

  /** Blocks start out busy: a new day answers `Busy` at every time of day. */
  lemma NewDayIsBusy(day: DaySchedule, t: NaiveTime)
    requires day.IsNew()
    ensures day.Valid() && day.GetTimeStatus(t) == Busy
  {
  }

  /**
   * The unit test on one day: a fresh day is busy at 02:17; after 02:15-03:15 is set free it is
   * free at 02:17 and at 02:48, and 03:15, the excluded end, is still busy.
   */
  method BlockSetExample() returns (before: TimeStatus, at0217: TimeStatus, at0248: TimeStatus, at0315: TimeStatus)
    ensures before == Busy
    ensures at0217 == Free && at0248 == Free
    ensures at0315 == Busy
  {
    var day := new DaySchedule();
    before := day.GetTimeStatus(Time(2, 17, 0));
    day.SetTimeStatus(Time(2, 15, 0), Time(3, 15, 0), Free);
    at0217 := day.GetTimeStatus(Time(2, 17, 0));
    at0248 := day.GetTimeStatus(Time(2, 48, 0));
    at0315 := day.GetTimeStatus(Time(3, 15, 0));
  }
}
