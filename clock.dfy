/** Stand-ins for the two chrono types the calendar uses: a time of day and a weekday. */
module Clock {

  /** A time of day as hour, minute and second; nanoseconds and leap seconds are not modelled. */
  datatype Time = Time(hour: nat, minute: nat, second: nat)
  {
    /** The range chrono's `from_hms_opt` accepts. */
    predicate Valid() {
      hour < 24 && minute < 60 && second < 60
    }
  }

  /** A `NaiveTime` is a time of day that chrono would construct. */
  type NaiveTime = t: Time | t.Valid() witness Time(0, 0, 0)

  /** Minutes past midnight, the quantity the calendar works in (seconds are dropped). */
  function MinutesOf(t: Time): nat
  {
    t.hour * 60 + t.minute
  }

  /** The seven days of the week, a closed enumeration. */
  datatype Weekday = Mon | Tue | Wed | Thu | Fri | Sat | Sun
}
