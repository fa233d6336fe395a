# Golden-hour clock: a Dafny model

The app shows the current time and today's two golden-hour windows for the
user's location: a morning one and an evening one. When the clock is inside
a window, it shows "active". Otherwise it counts down to the next window
start, and once both of today's windows have started it rolls over to
tomorrow's morning. This logic is written twice in the source: once in the
`useGoldenHours` hook and once inline in the `Index` page. The two copies
differ in two ways:

- The outer edges of the windows. The hook uses sunrise and sunset. The page uses dawn and dusk.
- The guards. The hook's next golden hour is null when there is no location as well as when there are no windows. The hook also keeps its last windows when the location is absent, so its active check can be true while its next golden hour is null. The page checks only for windows. It relies on windows existing only once a location does (`Valid` of `GoldenHourPage`) when it reads the location for tomorrow's dawn.

The model writes the shared logic once, over a `Windows` datatype, in module
`GoldenHour`:

- the two window mappings, one for each edge definition;
- the next-occurrence resolver (`Resolve`, built on a model of `Array.prototype.find`);
- the countdown decomposition (`Decompose`, which uses JavaScript's truncated `%`);
- the inclusive active check.

Each copy keeps its state in a class, with the shared functions derived from
that state:

- module `UseGoldenHours`: class `GoldenHoursHook`;
- module `IndexPage`: class `GoldenHourPage`, plus the view the page renders.

Module `TimeFormat` models `padNumber` and JavaScript's `String()` for
integers. Module `GoldenHourTypes` holds the shapes from
`src/types/goldenHour.ts`. The label field `label` is named `period` here,
because `label` is a Dafny keyword.

Modelling choices:

- Instants are integer milliseconds since the epoch.
- `SunCalc.getTimes` is a function value `sun: (day, Location) -> SunTimes`, stored in each class. Latitude and longitude are only passed through.
- The clock supplies each tick's instant and its local calendar day. "Tomorrow" is `day + 1`.
- The resolver takes tomorrow's morning start as a value. Because it is a pure function, evaluating it eagerly or lazily gives the same result.
- The order of the sun times is never checked in the source, so it is a precondition wherever it is needed. This covers `Ordered` / `SunOrdered` and "the clock has not reached tomorrow's morning start".

What the code does, as modelled:

- The code decomposes the gap with `Math.floor`, not with truncation toward zero. The two agree for a gap of zero or more.
- The code has no check for a negative gap. `Decompose` models it as written: a negative gap gives negative hours, and nothing is clamped. A gap of zero gives 0:00:00.
- The code keeps both edge definitions. Both are modelled. `EdgeDefinitionsDisagreeAtDawn` shows where they differ, and `DawnDuskCoversSunriseSunset` shows that the page's windows contain the hook's.

## Model

| member | source | states |
|---|---|---|
| `GoldenHour.SunriseSunsetWindows` | src/hooks/useGoldenHours.ts:32-38 | the hook's windows are sunrise, goldenHourEnd, goldenHour and sunset from one getTimes result, and are ordered when the sun times are |
| `GoldenHour.DawnDuskWindows` | src/pages/Index.tsx:50-56 | the page's windows are dawn, goldenHourEnd, goldenHour and dusk from one getTimes result, and are ordered when the sun times are |
| `GoldenHour.DawnDuskCoversSunriseSunset` | src/pages/Index.tsx:52-55 | every instant the hook's sunrise/sunset windows call golden hour, the page's dawn/dusk windows do too |
| `GoldenHour.EdgeDefinitionsDisagreeAtDawn` | src/hooks/useGoldenHours.ts:34-37 | when dawn is before sunrise, at dawn the page reports golden hour and the hook does not |
| `GoldenHour.IsInGoldenHour` | src/hooks/useGoldenHours.ts:75-82 | the check is false whenever there are no windows |
| `GoldenHour.WindowEdgesAreActive` | src/pages/Index.tsx:108-115 | both ends of both windows count as inside; one millisecond before the morning start or after the evening end does not |
| `GoldenHour.FindUpcoming` | src/hooks/useGoldenHours.ts:52 | find returns nothing exactly when no candidate is strictly after now; otherwise it returns a candidate strictly after now with every earlier one at or before now |
| `GoldenHour.Resolve` | src/hooks/useGoldenHours.ts:42-60 | morning start if it is after now, even when it ties with the evening start; evening start if the morning start has passed and the evening start has not; otherwise tomorrow's morning start, labelled morning; only the rollover can give an instant that is not after now |
| `GoldenHour.ResolveIsEarliestStart` | src/hooks/useGoldenHours.ts:46-59 | with ordered windows, the result is the earliest of today's two starts and tomorrow's morning start that is strictly after now |
| `GoldenHour.QuietUntilNext` | src/pages/Index.tsx:76-94 | outside golden hour, the resolved start is after now, and no instant from now up to that start is inside today's windows |
| `GoldenHour.JsRem` | src/hooks/useGoldenHours.ts:68-69 | JavaScript `%` agrees with the Euclidean remainder for a dividend of zero or more, and gives a value in (-b, 0] for a negative one; `JsRemQuotient` fixes that value |
| `GoldenHour.JsRemQuotient` | src/hooks/useGoldenHours.ts:68-69 | JavaScript `%` leaves the remainder of division truncated toward zero: a == b*q + a % b, with q = a / b for a dividend of zero or more and q = -((-a) / b) for a negative one |
| `GoldenHour.FloorDiv` | src/hooks/useGoldenHours.ts:67 | `Math.floor(a / b)` is the q with b*q <= a < b*q + b |
| `GoldenHour.Decompose` | src/hooks/useGoldenHours.ts:66-71 | for a gap of zero or more: hours >= 0, minutes and seconds in 0..59, and h*3600000 + m*60000 + s*1000 <= gap < that + 1000; a negative gap gives negative hours (no clamping); the label is kept |
| `GoldenHour.DecomposeMillisRoundTrip` | src/hooks/useGoldenHours.ts:67-69 | hours, minutes in 0..59, seconds in 0..59 and a sub-second remainder decompose back to the same hours, minutes and seconds |
| `GoldenHour.DecomposeExample` | src/hooks/useGoldenHours.ts:66-71 | 3,725,000 ms decompose to 1 h 2 min 5 s |
| `GoldenHour.ExampleDay` | src/hooks/useGoldenHours.ts:42-82 | for windows 06:00-07:00 and 20:00-21:00: at 05:00 the countdown is 1:00:00 to the morning; 1 ms before 06:00 it is 0:00:00 to the morning; 06:00 and 06:30 are golden hour; at 21:30 the next start is tomorrow's morning |
| `GoldenHour.CountdownTo` | src/hooks/useGoldenHours.ts:63-72 | no countdown exactly when there is no next golden hour; the label is carried over; for a future target, the parts are in range and the time they stand for is within one second below the true gap |
| `UseGoldenHours.GoldenHoursHook.constructor` | src/hooks/useGoldenHours.ts:16-39 | first render: no windows without a location, the sunrise/sunset windows of the current day with one |
| `UseGoldenHours.GoldenHoursHook.Tick` | src/hooks/useGoldenHours.ts:20-39 | a tick replaces the time and the day; with a location it replaces the windows with that day's sunrise/sunset windows; without one it keeps the previous windows |
| `UseGoldenHours.GoldenHoursHook.Next` | src/hooks/useGoldenHours.ts:42-60 | null exactly when there are no windows or no location; otherwise morning start, evening start or tomorrow's sunrise (day + 1), by the strict-after rule |
| `UseGoldenHours.GoldenHoursHook.Remaining` | src/hooks/useGoldenHours.ts:63-72 | null exactly when the next golden hour is null; the label is copied from it |
| `UseGoldenHours.GoldenHoursHook.IsActive` | src/hooks/useGoldenHours.ts:75-82 | false without windows; true at the morning start and at the evening end of ordered windows |
| `UseGoldenHours.CountdownInRange` | src/hooks/useGoldenHours.ts:63-72 | with a location, and before tomorrow's sunrise, the hook has a countdown whose parts are in range and stand for the gap rounded down to the second |
| `UseGoldenHours.CountdownTargetsNextStart` | src/hooks/useGoldenHours.ts:42-82 | outside golden hour, the countdown's target is after now, nothing before it today is golden hour, and a target from today is itself inside a window |
| `IndexPage.GoldenHourPage.constructor` | src/pages/Index.tsx:17-20 | initial state: no location, no windows, no error |
| `IndexPage.GoldenHourPage.OnPosition` | src/pages/Index.tsx:27-57 | a successful position stores the location, clears the error and computes the dawn/dusk windows for the current day |
| `IndexPage.GoldenHourPage.OnPositionError` | src/pages/Index.tsx:35-37 | a failed request sets the error flag and changes nothing else |
| `IndexPage.GoldenHourPage.Tick` | src/pages/Index.tsx:40-57 | a tick replaces the time and the day, and with a location recomputes that day's dawn/dusk windows |
| `IndexPage.GoldenHourPage.GetNextGoldenHour` | src/pages/Index.tsx:76-94 | null exactly when there are no windows; otherwise morning start, evening start or tomorrow's dawn (day + 1), by the strict-after rule |
| `IndexPage.GoldenHourPage.GetCountdown` | src/pages/Index.tsx:96-106 | null exactly when getNextGoldenHour is null; the label is carried over |
| `IndexPage.GoldenHourPage.IsActive` | src/pages/Index.tsx:108-115 | false without windows; true at the morning start and at the evening end of ordered windows |
| `IndexPage.GoldenHourPage.Render` | src/pages/Index.tsx:130-178 | the notice shows exactly when the location failed; the windows show exactly when a location is known; "active" shows exactly when it is golden hour; the countdown shows exactly when it is not; the two never show together; the windows shown are the page's windows and the countdown shown is `getCountdown()`'s |
| `IndexPage.CountdownText` | src/pages/Index.tsx:173-175 | every countdown text is at least eight characters long: three fields, each padded to at least two, and two colons; the exact HH:MM:SS layout for in-range parts is `CountdownTextShape` |
| `IndexPage.CountdownTextShape` | src/pages/Index.tsx:173-175 | a countdown under 100 hours prints as HH:MM:SS: eight characters with each field two digits that read back as its number |
| `IndexPage.PageCountdownInRange` | src/pages/Index.tsx:96-106 | with a location, and before tomorrow's dawn, the page has a countdown whose parts are in range and stand for the gap rounded down to the second |
| `TimeFormat.NatToString` | src/utils/timeFormat.ts:28 | the decimal text of a natural number is all digits, has one digit exactly below 10, and starts with '0' only for 0 |
| `TimeFormat.IntToString` | src/utils/timeFormat.ts:28 | `String` of a negative integer is '-' followed by the digits of its magnitude |
| `TimeFormat.DecimalOfNatToString` | src/utils/timeFormat.ts:28 | reading the decimal text of n gives back n |
| `TimeFormat.PadStart` | src/utils/timeFormat.ts:28 | the result is max(|s|, length) long, ends with s, and has the fill character everywhere before it |
| `TimeFormat.PadNumber` | src/utils/timeFormat.ts:27-29 | the result is max(|String(num)|, length) long, ends with String(num), has only '0' before it, and is String(num) itself when that is already long enough |
| `TimeFormat.PadNumberRoundTrip` | src/utils/timeFormat.ts:27-29 | the padded text of a non-negative number reads back as that number, for every length |
| `TimeFormat.PadSingleDigit` | src/utils/timeFormat.ts:27-29 | with the default length, a digit d becomes "0" followed by d |
| `TimeFormat.PadTwoDigits` | src/utils/timeFormat.ts:27-29 | with the default length, every number from 0 to 99, so every minute and second of a countdown, becomes exactly two digits |

## Left out

- The SunCalc astronomy (src/hooks/useGoldenHours.ts:32,58; src/pages/Index.tsx:50,92) is floating-point code in a library outside the repository. It is a function parameter. Its ordering is a precondition, never a proved fact.
- The calendar step `Date.setDate(getDate() + 1)` depends on the timezone and daylight saving. It is modelled as `day + 1`, and the clock supplies the day of each instant.
- The geolocation request, its options and `navigator.geolocation` are browser I/O. The page's callbacks are methods the environment calls (`OnPosition`, `OnPositionError`). The service-worker registration is not modelled.
- `setInterval`/`clearInterval` and React scheduling are left out. A tick sets the time, recomputes the windows, and the derivations read that state. So the one-render lag of `goldenHours` behind `currentTime` is not modelled.
- `formatTime` and `formatTimeShort` are locale- and timezone-dependent wrappers over `toLocaleTimeString`, so they are not modelled.
- The presentation components are left out. This includes `toFixed(4)` on the coordinates and the timezone name.
- Numbers are integers. JavaScript's floating-point `Date` values, `NaN` and fractional inputs to `padNumber` are not modelled.
- The source's float division inside `Math.floor` is modelled as exact integer floor division. The two agree for gaps of the size a day produces.
