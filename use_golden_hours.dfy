/** The `useGoldenHours` hook: the clock state it keeps (`currentTime`,
    replaced every second, and `goldenHours`, overwritten by the effect that
    reruns when the location or the time changes) and the three values it
    derives from that state. Its windows run from sunrise to sunset. */
module UseGoldenHours {
  import opened GoldenHourTypes
  import opened GoldenHour

  class GoldenHoursHook {
    /** `SunCalc.getTimes`. */
    const sun: SunCalc
    /** `currentTime.getTime()`. */
    var currentTime: int
    /** The local calendar day `currentTime` falls on. */
    var currentDay: int
    /** The location the hook was last rendered with. */
    var location: Option<Location>
    var goldenHours: Option<Windows>

    /** The effect has run for the current location and time. With no location
        the effect returns early and leaves the last windows in place. */
    ghost predicate Valid()
      reads this
    {
      location.Some? ==> goldenHours == Some(SunriseSunsetWindows(sun(currentDay, location.value)))
    }

    /** The first render and its effect: no windows until a location is known. */
    constructor (sun: SunCalc, now: int, day: int, location: Option<Location>)
      ensures Valid()
      ensures this.sun == sun && currentTime == now && currentDay == day && this.location == location
      ensures goldenHours == if location.Some? then Some(SunriseSunsetWindows(sun(day, location.value))) else None
    {
      this.sun := sun;
      currentTime := now;
      currentDay := day;
      this.location := location;
      if location.Some? {
        goldenHours := Some(SunriseSunsetWindows(sun(day, location.value)));
      } else {
        goldenHours := None;
      }
    }

    /** One second: the interval replaces the time, then the effect recomputes
        the windows for that time when a location is known. */
    method Tick(now: int, day: int, location: Option<Location>)
      requires Valid()
      modifies this
      ensures Valid()
      ensures currentTime == now && currentDay == day && this.location == location
      ensures location.Some? ==> goldenHours == Some(SunriseSunsetWindows(sun(day, location.value)))
      ensures location.None? ==> goldenHours == old(goldenHours)
    {
      currentTime := now;
      currentDay := day;
      this.location := location;
      if location.Some? {
        var times := sun(day, location.value);
        goldenHours := Some(SunriseSunsetWindows(times));
      }
    }

    /** `nextGoldenHour`: none without windows or without a location; otherwise
        the first of today's starts strictly after now, or tomorrow's sunrise. */
    function Next(): (r: Option<NextGoldenHour>)
      reads this
      ensures r.None? <==> goldenHours.None? || location.None?
      ensures r.Some? && currentTime < goldenHours.value.morningStart ==>
        r.value == NextGoldenHour(goldenHours.value.morningStart, Morning)
      ensures r.Some? && goldenHours.value.morningStart <= currentTime < goldenHours.value.eveningStart ==>
        r.value == NextGoldenHour(goldenHours.value.eveningStart, Evening)
      ensures r.Some? && goldenHours.value.morningStart <= currentTime && goldenHours.value.eveningStart <= currentTime ==>
        r.value == NextGoldenHour(sun(currentDay + 1, location.value).sunrise, Morning)
    {
      if goldenHours.None? || location.None? then None
      else
        var tomorrow := sun(currentDay + 1, location.value);
        Some(Resolve(goldenHours.value, currentTime, SunriseSunsetWindows(tomorrow).morningStart))
    }

    /** `countdown`: none exactly when `nextGoldenHour` is none. */
    function Remaining(): (r: Option<Countdown>)
      reads this
      ensures r.None? <==> Next().None?
      ensures r.Some? ==> r.value.period == Next().value.period
    {
      CountdownTo(Next(), currentTime)
    }

    /** `isInGoldenHour`: reads the windows only, not the location. */
    function IsActive(): (active: bool)
      reads this
      ensures active ==> goldenHours.Some?
      ensures (goldenHours.Some? && Ordered(goldenHours.value) &&
               (currentTime == goldenHours.value.morningStart || currentTime == goldenHours.value.eveningEnd))
              ==> active
    {
      IsInGoldenHour(goldenHours, currentTime)
    }
  }

  /** With a location and a clock that has not reached tomorrow's sunrise,
      the hook always has a countdown, and it is in range and within one
      second of the true gap. */
  lemma CountdownInRange(h: GoldenHoursHook)
    requires h.Valid() && h.location.Some?
    requires h.currentTime < h.sun(h.currentDay + 1, h.location.value).sunrise
    ensures h.Remaining().Some?
    ensures var c := h.Remaining().value;
      c.hours >= 0 && 0 <= c.minutes <= 59 && 0 <= c.seconds <= 59 &&
      CountdownMillis(c) <= h.Next().value.time - h.currentTime < CountdownMillis(c) + MsPerSecond
  {
  }

  /** Outside golden hour, with ordered windows and tomorrow's sunrise still
      ahead, the countdown's target is the next instant at which golden hour
      begins: nothing before it today is golden hour, and the target itself
      is (unless it is tomorrow's). */
  lemma CountdownTargetsNextStart(h: GoldenHoursHook)
    requires h.Valid() && h.location.Some? && Ordered(h.goldenHours.value)
    requires h.currentTime < h.sun(h.currentDay + 1, h.location.value).sunrise
    requires !h.IsActive()
    ensures h.Next().Some? && h.Next().value.time > h.currentTime
    ensures forall x :: h.currentTime <= x < h.Next().value.time ==> !InWindows(h.goldenHours.value, x)
    ensures h.Next().value.time != h.sun(h.currentDay + 1, h.location.value).sunrise ==>
      InWindows(h.goldenHours.value, h.Next().value.time)
  {
  }
}
