/** The golden-hour logic that the hook and the page both carry: the mapping
    of sun times to windows (one per edge definition), the next-occurrence
    resolver, the countdown decomposition and the active check. Each is
    written once here, over `Windows`, and used by both copies. */
module GoldenHour {
  import opened GoldenHourTypes

  /* ---------------------------------------------------------------------
     Window mapping
     --------------------------------------------------------------------- */

  /** The hook's windows: sunrise and sunset are the outer edges. */
  function SunriseSunsetWindows(t: SunTimes): (w: Windows)
    ensures w.morningStart == t.sunrise && w.morningEnd == t.goldenHourEnd
    ensures w.eveningStart == t.goldenHour && w.eveningEnd == t.sunset
    ensures SunOrdered(t) ==> Ordered(w)
  {
    Windows(t.sunrise, t.goldenHourEnd, t.goldenHour, t.sunset)
  }

  /** The page's windows: dawn and dusk are the outer edges. */
  function DawnDuskWindows(t: SunTimes): (w: Windows)
    ensures w.morningStart == t.dawn && w.morningEnd == t.goldenHourEnd
    ensures w.eveningStart == t.goldenHour && w.eveningEnd == t.dusk
    ensures SunOrdered(t) ==> Ordered(w)
  {
    Windows(t.dawn, t.goldenHourEnd, t.goldenHour, t.dusk)
  }

  /* ---------------------------------------------------------------------
     Active check
     --------------------------------------------------------------------- */

  /** `now` lies in the morning or the evening window, both ends included. */
  predicate InWindows(w: Windows, now: int)
  {
    (now >= w.morningStart && now <= w.morningEnd) ||
    (now >= w.eveningStart && now <= w.eveningEnd)
  }

  /** `isInGoldenHour`: false without windows, otherwise the inclusive check. */
  function IsInGoldenHour(windows: Option<Windows>, now: int): (active: bool)
    ensures active ==> windows.Some?
  {
    windows.Some? && InWindows(windows.value, now)
  }

  /** Every edge of a non-empty window counts as inside it. */
  lemma WindowEdgesAreActive(w: Windows)
    requires Ordered(w)
    ensures IsInGoldenHour(Some(w), w.morningStart) && IsInGoldenHour(Some(w), w.morningEnd)
    ensures IsInGoldenHour(Some(w), w.eveningStart) && IsInGoldenHour(Some(w), w.eveningEnd)
    ensures !IsInGoldenHour(Some(w), w.morningStart - 1)
    ensures !IsInGoldenHour(Some(w), w.eveningEnd + 1)
  {
  }

  /** Wherever the hook's sunrise/sunset windows are active, the page's
      dawn/dusk windows are active too (dawn comes before sunrise and dusk
      after sunset). */
  lemma DawnDuskCoversSunriseSunset(t: SunTimes, now: int)
    requires SunOrdered(t)
    requires IsInGoldenHour(Some(SunriseSunsetWindows(t)), now)
    ensures IsInGoldenHour(Some(DawnDuskWindows(t)), now)
  {
  }

  /** The two edge definitions disagree: at dawn, before sunrise, the page
      reports golden hour and the hook does not. */
  lemma EdgeDefinitionsDisagreeAtDawn(t: SunTimes)
    requires SunOrdered(t) && t.dawn < t.sunrise
    ensures IsInGoldenHour(Some(DawnDuskWindows(t)), t.dawn)
    ensures !IsInGoldenHour(Some(SunriseSunsetWindows(t)), t.dawn)
  {
  }

  /* ---------------------------------------------------------------------
     Next-occurrence resolver
     --------------------------------------------------------------------- */

  /** Today's candidates, in the fixed order morning then evening. */
  function Candidates(w: Windows): seq<NextGoldenHour>
  {
    [NextGoldenHour(w.morningStart, Morning), NextGoldenHour(w.eveningStart, Evening)]
  }

  /** `times.find(t => t.time > now)`: the first candidate strictly after
      `now`, or none when every candidate is at or before `now`. */
  function FindUpcoming(cands: seq<NextGoldenHour>, now: int): (r: Option<NextGoldenHour>)
    ensures r.None? <==> forall i :: 0 <= i < |cands| ==> cands[i].time <= now
    ensures r.Some? ==> exists i :: 0 <= i < |cands| && cands[i] == r.value && IsFirstAfter(cands, i, now)
  {
    if cands == [] then None
    else if cands[0].time > now then
      assert IsFirstAfter(cands, 0, now);
      Some(cands[0])
    else
      FindUpcoming(cands[1..], now)
  }

  /** Position `i` is strictly after `now` and every earlier one is not. */
  ghost predicate IsFirstAfter(cands: seq<NextGoldenHour>, i: int, now: int)
    requires 0 <= i < |cands|
  {
    cands[i].time > now && forall j :: 0 <= j < i ==> cands[j].time <= now
  }

  /** The next golden hour after `now`: today's morning start if still ahead,
      else today's evening start if still ahead, else tomorrow's morning start. */
  function Resolve(w: Windows, now: int, tomorrowMorningStart: int): (r: NextGoldenHour)
    // morning wins by list order, even when both starts are equal
    ensures now < w.morningStart ==> r == NextGoldenHour(w.morningStart, Morning)
    ensures w.morningStart <= now < w.eveningStart ==> r == NextGoldenHour(w.eveningStart, Evening)
    // rollover: tomorrow's morning, never tomorrow's evening
    ensures w.morningStart <= now && w.eveningStart <= now ==> r == NextGoldenHour(tomorrowMorningStart, Morning)
    // only the rollover can produce an instant that is not strictly ahead
    ensures r.time <= now ==> r == NextGoldenHour(tomorrowMorningStart, Morning)
  {
    var cands := Candidates(w);
    assert cands[0].time == w.morningStart && cands[1].time == w.eveningStart;
    match FindUpcoming(cands, now)
    case Some(c) => c
    case None => NextGoldenHour(tomorrowMorningStart, Morning)
  }

  /** `x` is the earliest of `starts` strictly after `now`. */
  ghost predicate EarliestAfter(starts: seq<int>, now: int, x: int)
  {
    x in starts && x > now && forall s :: s in starts && s > now ==> x <= s
  }

  /** Under the ordering assumptions the resolver's answer is the earliest
      window start after `now` among today's two and tomorrow's morning. */
  lemma ResolveIsEarliestStart(w: Windows, now: int, tomorrowMorningStart: int)
    requires Ordered(w) && w.eveningStart <= tomorrowMorningStart && now < tomorrowMorningStart
    ensures EarliestAfter([w.morningStart, w.eveningStart, tomorrowMorningStart], now,
                          Resolve(w, now, tomorrowMorningStart).time)
  {
  }

  /** Outside golden hour, no window of today covers any instant from `now`
      up to the resolved start: the countdown runs to the next time golden
      hour begins. */
  lemma QuietUntilNext(w: Windows, now: int, tomorrowMorningStart: int)
    requires Ordered(w) && now < tomorrowMorningStart
    requires !InWindows(w, now)
    ensures now < Resolve(w, now, tomorrowMorningStart).time
    ensures forall x :: now <= x < Resolve(w, now, tomorrowMorningStart).time ==> !InWindows(w, x)
  {
  }

  /* ---------------------------------------------------------------------
     Countdown decomposition
     --------------------------------------------------------------------- */

  const MsPerSecond: int := 1000
  const MsPerMinute: int := 60000    // 1000 * 60
  const MsPerHour: int := 3600000    // 1000 * 60 * 60

  /** JavaScript's `%` for a positive divisor: the remainder truncated toward
      zero, so it takes the sign of the dividend. */
  function JsRem(a: int, b: int): (r: int)
    requires b > 0
    ensures a >= 0 ==> r == a % b
    ensures a < 0 ==> -b < r <= 0
  {
    if a >= 0 then a % b else -((-a) % b)
  }

  /** JavaScript's `%` is the remainder of division truncated toward zero:
      there is a quotient `q`, rounded toward zero, with `a == b * q + r`.
      With the sign bounds of `JsRem` this fixes the remainder exactly. */
  lemma JsRemQuotient(a: int, b: int) returns (q: int)
    requires b > 0
    ensures a == b * q + JsRem(a, b)
    ensures a >= 0 ==> q == a / b
    ensures a < 0 ==> q == -((-a) / b)
  {
    if a >= 0 {
      q := a / b;
    } else {
      q := -((-a) / b);
      assert -a == b * ((-a) / b) + (-a) % b;
    }
  }

  /** `Math.floor(a / b)` for a positive divisor. */
  function FloorDiv(a: int, b: int): (q: int)
    requires b > 0
    ensures b * q <= a < b * q + b
  {
    a / b
  }

  /** The whole seconds a countdown stands for, in milliseconds. */
  function CountdownMillis(c: Countdown): int
  {
    c.hours * MsPerHour + c.minutes * MsPerMinute + c.seconds * MsPerSecond
  }

  /** Split a gap in milliseconds into hours, minutes within the hour and
      seconds within the minute, as the source does with `Math.floor` and
      JavaScript's `%`. For a gap that is not negative the parts are in range
      and stand for the gap rounded down to whole seconds. */
  function Decompose(diff: int, period: Period): (c: Countdown)
    ensures c.period == period
    ensures diff >= 0 ==> c.hours >= 0 && 0 <= c.minutes <= 59 && 0 <= c.seconds <= 59
    ensures diff >= 0 ==> CountdownMillis(c) <= diff < CountdownMillis(c) + MsPerSecond
    ensures diff < 0 ==> c.hours < 0
  {
    Countdown(
      FloorDiv(diff, MsPerHour),
      FloorDiv(JsRem(diff, MsPerHour), MsPerMinute),
      FloorDiv(JsRem(diff, MsPerMinute), MsPerSecond),
      period)
  }

  /** Round trip: hours, minutes and seconds in range, plus a sub-second
      remainder, decompose back to themselves. */
  lemma DecomposeMillisRoundTrip(c: Countdown, ms: int)
    requires c.hours >= 0 && 0 <= c.minutes <= 59 && 0 <= c.seconds <= 59 && 0 <= ms < MsPerSecond
    ensures Decompose(CountdownMillis(c) + ms, c.period) == c
  {
    var r := Decompose(CountdownMillis(c) + ms, c.period);
    assert CountdownMillis(r) <= CountdownMillis(c) + ms < CountdownMillis(r) + MsPerSecond;
  }

  /** `getCountdown`/`countdown`: none exactly when there is no next golden
      hour, otherwise the decomposed gap with the label carried over. */
  function CountdownTo(next: Option<NextGoldenHour>, now: int): (c: Option<Countdown>)
    ensures c.None? <==> next.None?
    ensures c.Some? ==> c.value.period == next.value.period
    ensures c.Some? && next.value.time > now ==>
      0 <= c.value.minutes <= 59 && 0 <= c.value.seconds <= 59 && c.value.hours >= 0 &&
      CountdownMillis(c.value) <= next.value.time - now < CountdownMillis(c.value) + MsPerSecond
  {
    match next
    case None => None
    case Some(n) => Some(Decompose(n.time - now, n.period))
  }

  /** The worked example: 3,725,000 ms is 1 h 2 min 5 s. */
  lemma DecomposeExample()
    ensures Decompose(3725000, Morning) == Countdown(1, 2, 5, Morning)
  {
  }

  /** A day with windows 06:00-07:00 and 20:00-21:00 (instants counted from
      midnight): at 05:00 the countdown is 1 h to the morning, one millisecond
      before 06:00 it shows 0:00:00 to the morning, at 06:00 and 06:30 it is
      golden hour, and at 21:30 the next start is tomorrow's morning. */
  lemma ExampleDay(tomorrowMorningStart: int)
    requires tomorrowMorningStart > 79200000  // after 22:00
    ensures var w := Windows(21600000, 25200000, 72000000, 75600000);
      CountdownTo(Some(Resolve(w, 18000000, tomorrowMorningStart)), 18000000) == Some(Countdown(1, 0, 0, Morning)) &&
      CountdownTo(Some(Resolve(w, 21599999, tomorrowMorningStart)), 21599999) == Some(Countdown(0, 0, 0, Morning)) &&
      IsInGoldenHour(Some(w), 21600000) && IsInGoldenHour(Some(w), 23400000) &&
      !IsInGoldenHour(Some(w), 77400000) &&
      Resolve(w, 77400000, tomorrowMorningStart) == NextGoldenHour(tomorrowMorningStart, Morning)
  {
  }
}
