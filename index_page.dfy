/** The `Index` page: its own copy of the clock state (`currentTime`,
    `location`, `goldenHours`, `locationError`), the callbacks that update it,
    the three derivations it computes on every render, and the choice of what
    the page shows. Its windows run from dawn to dusk. */
module IndexPage {
  import opened GoldenHourTypes
  import opened GoldenHour
  import opened TimeFormat

  /** What the page shows: the "location_required" notice, the two windows
      (only once a location and windows exist), the "active" badge and the
      countdown. */
  datatype View = View(
    locationRequired: bool,
    windows: Option<Windows>,
    active: bool,
    countdown: Option<Countdown>)

  class GoldenHourPage {
    /** `SunCalc.getTimes`. */
    const sun: SunCalc
    /** `currentTime.getTime()`. */
    var currentTime: int
    /** The local calendar day `currentTime` falls on. */
    var currentDay: int
    var location: Option<Location>
    var goldenHours: Option<Windows>
    var locationError: bool

    /** Windows exist exactly when a location does, and they are the dawn/dusk
        windows of the current day there. This is what makes the page's
        `location!` in the rollover safe. */
    ghost predicate Valid()
      reads this
    {
      (goldenHours.Some? <==> location.Some?) &&
      (location.Some? ==> goldenHours == Some(DawnDuskWindows(sun(currentDay, location.value))))
    }

    /** The first render: no location, no windows, no error. */
    constructor (sun: SunCalc, now: int, day: int)
      ensures Valid()
      ensures this.sun == sun && currentTime == now && currentDay == day
      ensures location.None? && goldenHours.None? && !locationError
    {
      this.sun := sun;
      currentTime := now;
      currentDay := day;
      location := None;
      goldenHours := None;
      locationError := false;
    }

    /** The position callback: store the location, clear the error, and the
        effect computes the windows for the current time there. */
    method OnPosition(loc: Location)
      requires Valid()
      modifies this
      ensures Valid()
      ensures location == Some(loc) && !locationError
      ensures goldenHours == Some(DawnDuskWindows(sun(currentDay, loc)))
      ensures currentTime == old(currentTime) && currentDay == old(currentDay)
    {
      location := Some(loc);
      locationError := false;
      goldenHours := Some(DawnDuskWindows(sun(currentDay, loc)));
    }

    /** The error callback: raise the error flag, nothing else. */
    method OnPositionError()
      requires Valid()
      modifies this
      ensures Valid()
      ensures locationError
      ensures location == old(location) && goldenHours == old(goldenHours)
      ensures currentTime == old(currentTime) && currentDay == old(currentDay)
    {
      locationError := true;
    }

    /** One second: the interval replaces the time, then the effect recomputes
        the windows when a location is known. */
    method Tick(now: int, day: int)
      requires Valid()
      modifies this
      ensures Valid()
      ensures currentTime == now && currentDay == day
      ensures location == old(location) && locationError == old(locationError)
      ensures location.Some? ==> goldenHours == Some(DawnDuskWindows(sun(day, location.value)))
    {
      currentTime := now;
      currentDay := day;
      if location.Some? {
        var times := sun(day, location.value);
        goldenHours := Some(DawnDuskWindows(times));
      }
    }

    /** `getNextGoldenHour`: none without windows; otherwise the first of
        today's starts strictly after now, or tomorrow's dawn. */
    function GetNextGoldenHour(): (r: Option<NextGoldenHour>)
      reads this
      requires Valid()
      ensures r.None? <==> goldenHours.None?
      ensures r.Some? && currentTime < goldenHours.value.morningStart ==>
        r.value == NextGoldenHour(goldenHours.value.morningStart, Morning)
      ensures r.Some? && goldenHours.value.morningStart <= currentTime < goldenHours.value.eveningStart ==>
        r.value == NextGoldenHour(goldenHours.value.eveningStart, Evening)
      ensures r.Some? && goldenHours.value.morningStart <= currentTime && goldenHours.value.eveningStart <= currentTime ==>
        r.value == NextGoldenHour(sun(currentDay + 1, location.value).dawn, Morning)
    {
      if goldenHours.None? then None
      else
        var tomorrow := sun(currentDay + 1, location.value);
        Some(Resolve(goldenHours.value, currentTime, DawnDuskWindows(tomorrow).morningStart))
    }

    /** `getCountdown`: none exactly when `getNextGoldenHour` is none. */
    function GetCountdown(): (r: Option<Countdown>)
      reads this
      requires Valid()
      ensures r.None? <==> GetNextGoldenHour().None?
      ensures r.Some? ==> r.value.period == GetNextGoldenHour().value.period
    {
      CountdownTo(GetNextGoldenHour(), currentTime)
    }

    /** `isInGoldenHour`. */
    function IsActive(): (active: bool)
      reads this
      ensures active ==> goldenHours.Some?
      ensures (goldenHours.Some? && Ordered(goldenHours.value) &&
               (currentTime == goldenHours.value.morningStart || currentTime == goldenHours.value.eveningEnd))
              ==> active
    {
      IsInGoldenHour(goldenHours, currentTime)
    }

    /** What the page renders. Once a location is known the page shows
        exactly one of "active" and the countdown. */
    function Render(): (v: View)
      reads this
      requires Valid()
      ensures v.locationRequired == locationError
      ensures v.windows.Some? <==> location.Some?
      ensures v.active <==> location.Some? && IsActive()
      ensures v.countdown.Some? <==> location.Some? && !IsActive()
      ensures !(v.active && v.countdown.Some?)
      ensures v.windows.Some? ==> v.windows == goldenHours
      ensures v.countdown.Some? ==> v.countdown == GetCountdown()
    {
      var shown := location.Some? && goldenHours.Some?;
      var countdown := GetCountdown();
      View(
        locationError,
        if shown then goldenHours else None,
        shown && IsActive(),
        if shown && !IsActive() && countdown.Some? then countdown else None)
    }
  }

  /** The countdown as the page prints it: each part through
      `String(x).padStart(2, '0')`, joined by colons. */
  function CountdownText(c: Countdown): (t: string)
    ensures |t| >= 8
  {
    PadNumber(c.hours) + ":" + PadNumber(c.minutes) + ":" + PadNumber(c.seconds)
  }

  /** For a countdown under 100 hours the text is `HH:MM:SS`: eight
      characters, colons at positions 2 and 5, and each field reads back as
      its number. */
  lemma CountdownTextShape(c: Countdown)
    requires 0 <= c.hours <= 99 && 0 <= c.minutes <= 59 && 0 <= c.seconds <= 59
    ensures var t := CountdownText(c);
      |t| == 8 && t[2] == ':' && t[5] == ':' &&
      AllDigits(t[0..2]) && AllDigits(t[3..5]) && AllDigits(t[6..8]) &&
      DecimalValue(t[0..2]) == c.hours && DecimalValue(t[3..5]) == c.minutes &&
      DecimalValue(t[6..8]) == c.seconds
  {
    var h, m, s := PadNumber(c.hours), PadNumber(c.minutes), PadNumber(c.seconds);
    PadTwoDigits(c.hours);
    PadTwoDigits(c.minutes);
    PadTwoDigits(c.seconds);
    PadNumberRoundTrip(c.hours, 2);
    PadNumberRoundTrip(c.minutes, 2);
    PadNumberRoundTrip(c.seconds, 2);
    TwoCharFieldsJoined(h, m, s);
  }

  /** Three two-character fields joined by colons sit at fixed positions. */
  lemma TwoCharFieldsJoined(h: string, m: string, s: string)
    requires |h| == 2 && |m| == 2 && |s| == 2
    ensures var t := h + ":" + m + ":" + s;
      |t| == 8 && t[2] == ':' && t[5] == ':' && t[0..2] == h && t[3..5] == m && t[6..8] == s
  {
  }

  /** With a location and a clock that has not reached tomorrow's dawn, the
      page always has a countdown, in range and within one second of the
      true gap. */
  lemma PageCountdownInRange(p: GoldenHourPage)
    requires p.Valid() && p.location.Some?
    requires p.currentTime < p.sun(p.currentDay + 1, p.location.value).dawn
    ensures p.GetCountdown().Some?
    ensures var c := p.GetCountdown().value;
      c.hours >= 0 && 0 <= c.minutes <= 59 && 0 <= c.seconds <= 59 &&
      CountdownMillis(c) <= p.GetNextGoldenHour().value.time - p.currentTime < CountdownMillis(c) + MsPerSecond
  {
  }
}
