/**
 * The week's availability: one day schedule per weekday, with reads and writes forwarded to the
 * named day.
 */
module Week {
  import opened Clock
  import opened Intervals
  import opened Day

  /** The arrays holding the blocks of the days in `m`. */
  ghost function Blocks(m: map<Weekday, DaySchedule>): set<object>
  {
    set d | d in m :: m[d].blocks
  }

  /** All seven weekdays are present, each with a well-formed day, and no two share their blocks. */
  ghost predicate WholeWeek(m: map<Weekday, DaySchedule>)
    reads Blocks(m)
  {
    && (forall d: Weekday :: d in m)
    && (forall d :: d in m ==> m[d].Valid())
    && (forall d, e :: d in m && e in m && d != e ==> m[d].blocks != m[e].blocks)
  }

  /** Seven new days, one per weekday and each with blocks of its own, make a whole week. */
  lemma NewDaysMakeWholeWeek(
    m: map<Weekday, DaySchedule>,
    mon: DaySchedule, tue: DaySchedule, wed: DaySchedule, thu: DaySchedule,
    fri: DaySchedule, sat: DaySchedule, sun: DaySchedule)
    requires m == map[Mon := mon, Tue := tue, Wed := wed, Thu := thu, Fri := fri, Sat := sat, Sun := sun]
    requires mon.IsNew() && tue.IsNew() && wed.IsNew() && thu.IsNew()
    requires fri.IsNew() && sat.IsNew() && sun.IsNew()
    // Each day's blocks differ from those of every later day.
    requires mon.blocks !in {tue.blocks, wed.blocks, thu.blocks, fri.blocks, sat.blocks, sun.blocks}
    requires tue.blocks !in {wed.blocks, thu.blocks, fri.blocks, sat.blocks, sun.blocks}
    requires wed.blocks !in {thu.blocks, fri.blocks, sat.blocks, sun.blocks}
    requires thu.blocks !in {fri.blocks, sat.blocks, sun.blocks}
    requires fri.blocks !in {sat.blocks, sun.blocks}
    requires sat.blocks != sun.blocks
    ensures WholeWeek(m)
    ensures forall d: Weekday :: m[d].IsNew()
  {
    forall d: Weekday
      ensures d in m
    {
      match d
      case Mon => case Tue => case Wed => case Thu => case Fri => case Sat => case Sun =>
    }
  }

  /** `WeekSchedule`: a map from each weekday to a day schedule that only that weekday uses. */
  class WeekSchedule {
    const days: map<Weekday, DaySchedule>

    /** The arrays holding the blocks of the seven days. */
    ghost function Repr(): set<object>
    {
      Blocks(days)
    }

    ghost predicate Valid()
      reads Repr()
    {
      WholeWeek(days)
    }

    /** `WeekSchedule::default`: a new day schedule inserted for each of the seven weekdays. */
    constructor ()
      ensures Valid() && fresh(Repr())
      ensures forall d: Weekday :: days[d].IsNew()
    {
      var m: map<Weekday, DaySchedule> := map[];
      var mon := new DaySchedule();
      m := m[Mon := mon];
      var tue := new DaySchedule();
      m := m[Tue := tue];
      var wed := new DaySchedule();
      m := m[Wed := wed];
      var thu := new DaySchedule();
      m := m[Thu := thu];
      var fri := new DaySchedule();
      m := m[Fri := fri];
      var sat := new DaySchedule();
      m := m[Sat := sat];
      var sun := new DaySchedule();
      m := m[Sun := sun];
      NewDaysMakeWholeWeek(m, mon, tue, wed, thu, fri, sat, sun);
      assert WholeWeek(m) && fresh(Blocks(m));
      days := m;
    }

    /** `get_time_status`: on the named day, the status of the block that holds `t`. */
    function GetTimeStatus(day: Weekday, t: NaiveTime): (r: TimeStatus)
      reads Repr()
      requires Valid()
      ensures exists i :: 0 <= i < days[day].blocks.Length &&
                Covers(days[day].blocks[i], t) && r == days[day].blocks[i].blockType
    {
      days[day].GetTimeStatus(t)
    }

    /**
     * `set_time_status`: the named day takes the range write; every other day, and every block
     * of the named day outside the range, keeps its status.
     */
    method SetTimeStatus(day: Weekday, startTime: NaiveTime, endTime: NaiveTime, status: TimeStatus)
      requires Valid()
      modifies days[day].blocks
      ensures Valid()
      ensures days[day].blocks[..] ==
                WriteRange(old(days[day].blocks[..]), startTime, endTime, status)
      ensures forall d :: d != day ==> days[d].blocks[..] == old(days[d].blocks[..])
      ensures forall d, t: NaiveTime :: GetTimeStatus(d, t) ==
                if d == day && BlockIndex(startTime) <= BlockIndex(t) < BlockIndex(endTime) then status else old(GetTimeStatus(d, t))
    {
      days[day].SetTimeStatus(startTime, endTime, status);
    }
  }

  /**
   * The unit test on a week: Tuesday starts busy at 02:17; after Tuesday's 02:15-03:15 is set
   * free, Tuesday is free at 02:17 and 02:48 while Monday and Wednesday stay busy at both.
   */
  method WeekBlockSetExample()
    returns (tueBefore: TimeStatus, tue0217: TimeStatus, tue0248: TimeStatus,
             mon0217: TimeStatus, mon0248: TimeStatus, wed0217: TimeStatus, wed0248: TimeStatus)
    ensures tueBefore == Busy
    ensures tue0217 == Free && tue0248 == Free
    ensures mon0217 == Busy && mon0248 == Busy
    ensures wed0217 == Busy && wed0248 == Busy
  {
    var week := new WeekSchedule();
    NewDayIsBusy(week.days[Tue], Time(2, 17, 0));
    NewDayIsBusy(week.days[Mon], Time(2, 17, 0));
    NewDayIsBusy(week.days[Mon], Time(2, 48, 0));
    NewDayIsBusy(week.days[Wed], Time(2, 17, 0));
    NewDayIsBusy(week.days[Wed], Time(2, 48, 0));
    tueBefore := week.GetTimeStatus(Tue, Time(2, 17, 0));
    assert week.days[Tue].blocks in week.Repr();
    assert BlockIndex(Time(2, 15, 0)) == 9 && BlockIndex(Time(3, 15, 0)) == 13;
    assert BlockIndex(Time(2, 17, 0)) == 9 && BlockIndex(Time(2, 48, 0)) == 11;
    week.SetTimeStatus(Tue, Time(2, 15, 0), Time(3, 15, 0), Free);
    tue0217 := week.GetTimeStatus(Tue, Time(2, 17, 0));
    tue0248 := week.GetTimeStatus(Tue, Time(2, 48, 0));
    mon0217 := week.GetTimeStatus(Mon, Time(2, 17, 0));
    mon0248 := week.GetTimeStatus(Mon, Time(2, 48, 0));
    wed0217 := week.GetTimeStatus(Wed, Time(2, 17, 0));
    wed0248 := week.GetTimeStatus(Wed, Time(2, 48, 0));
  }
}
