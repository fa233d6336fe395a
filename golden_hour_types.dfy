/** The shapes the golden-hour clock passes around: instants are integer
    milliseconds since the epoch (what `Date.getTime()` returns), labels are
    the two-valued union "morning" | "evening". */
module GoldenHourTypes {

  /** A value that may be absent (the source's `T | null`). */
  datatype Option<+T> = None | Some(value: T)

  /** The label union "morning" | "evening" (the source's `label` field). */
  datatype Period = Morning | Evening

  /** A geographic coordinate. Latitude and longitude are only passed through
      to the sun-times library, never inspected. */
  datatype Location = Location(lat: real, lon: real)

  /** The fields of `SunCalc.getTimes` the clock reads, for one calendar day
      at one location, each as an instant. */
  datatype SunTimes = SunTimes(
    dawn: int,
    sunrise: int,
    goldenHourEnd: int,
    goldenHour: int,
    sunset: int,
    dusk: int)

  /** `SunCalc.getTimes`: a local calendar day and a location to that day's
      sun times. The astronomy is not modelled; every use takes it as a value. */
  type SunCalc = (int, Location) -> SunTimes

  /** Today's two golden-hour windows (`GoldenHourTimes`). */
  datatype Windows = Windows(morningStart: int, morningEnd: int, eveningStart: int, eveningEnd: int)

  /** The next window start and its label (`NextGoldenHour`). */
  datatype NextGoldenHour = NextGoldenHour(time: int, period: Period)

  /** The remaining time split into hours, minutes and seconds (`Countdown`). */
  datatype Countdown = Countdown(hours: int, minutes: int, seconds: int, period: Period)

  /** The order the astronomy is assumed to deliver: each window is non-empty
      and the morning window ends no later than the evening one starts.
      Nothing in the source checks it. */
  ghost predicate Ordered(w: Windows)
  {
    w.morningStart <= w.morningEnd <= w.eveningStart <= w.eveningEnd
  }

  /** The order of the sun-time fields for a day on which the sun rises and sets. */
  ghost predicate SunOrdered(t: SunTimes)
  {
    t.dawn <= t.sunrise <= t.goldenHourEnd <= t.goldenHour <= t.sunset <= t.dusk
  }
}
