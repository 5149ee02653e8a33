# Exam timer: countdown, submit parsing and session store

The exam screen of this browser exam timer takes a title, a date and a start and end time from its
setup form. It then re-evaluates a countdown once a second: first to the start of the exam, then to
its end. It flags the exam as over, keeps its configuration in `localStorage`, and can be reset with
the "New Exam" button or a confirmed Escape key. This project models that screen
(`src/pages/Exam.jsx`) in Dafny and proves what its handlers do.

- `text.dfy` (module `Text`) holds the JavaScript string operations the screen uses, written over
  `seq<char>`:
  - `Number.prototype.toString` on integers;
  - `Number()` on the signed numerals that `toString` and `padStart` produce;
  - `padStart`;
  - `String.prototype.split` and, as its inverse, `Array.prototype.join`.
- `countdown.dfy` (module `Countdown`) holds the tick's arithmetic:
  - which instant it counts to;
  - when the exam is over;
  - the `Math.floor` and `%` split into hours, minutes and seconds, exactly as JavaScript computes
    them, including for negative differences;
  - the `"HHhr MMm SSs"` / `"MMm SSs"` text.

  As a partner for the text there is `ParseCountdown`, which reads a countdown text back.
- `schedule.dfy` (module `Schedule`) holds the submit handler's parsing:
  - `YYYY-MM-DD` is split on `-` and `HH:MM` on `:`;
  - the month is made zero-based;
  - both instants are built on the same calendar date.

  The time-zone lookup of the `Date` constructor is the parameter `localMidnight`.
- `session.dfy` (module `Session`) holds the session:
  - the component's state as a value `Snapshot`, with `localStorage` as a `map<string, string>`;
  - a pure transition function per handler;
  - the class `ExamSession`, whose methods change the fields in place and are each proved to
    produce the state their transition function describes.

  The `formSubmitted` flag is a `Flag`: either a boolean set by a handler or the string read back
  from storage. This keeps visible that a stored `"false"` is truthy.

Two behaviours of the code shape the model:

- **The tick uses the previous clock reading.** The interval callback stores the new clock and then
  computes the difference from the `currentTime` its closure captured, which is the value stored
  by the previous tick (`src/pages/Exam.jsx:25-27`). So each tick shows the countdown of one tick
  earlier. The heading above it is chosen from the new clock.
- **The submitted flag survives every reload.** On load the flag is `localStorage.getItem(...) ||
  false`: the stored string when a non-empty one is there, otherwise false. The formSubmitted effect
  writes it back as a string. So after the first load the store always holds non-empty text: `"true"`
  or `"false"` once a handler has set the flag, and until then whatever non-empty string was found
  (`Session.Settled`). Every handler keeps that so (`Session.HandlersKeepSettled`), and every reload
  over such a store renders the exam screen (`Session.ReloadSkipsSetupForm`), also after "New Exam"
  or a confirmed Escape.

Some further consequences of the code, which the model keeps:

- **No clamping.** The remaining time is not clamped to zero once the end has passed. Negative
  differences are formatted with JavaScript's sign-keeping `%`.
- **The tick does not stop.** The effect re-creates its interval whenever `currentTime` changes, so
  the `clearInterval` on reaching the end does not stop the ticking.
- **An aborted session still reloads as submitted.** After "New Exam" or a confirmed Escape, a reload
  reads the flag as the truthy string `"false"`, not as false (`Session.ResetThenReload`).
- **The transitions come one tick late.** Because of the lag, the start and the end are crossed one
  tick later than the wall clock suggests.

## Model

| member | source | states |
|---|---|---|
| Countdown.Diff | src/pages/Exam.jsx:27 | the milliseconds from the clock reading to the start while it is before the start, else to the end |
| Countdown.IsOver | src/pages/Exam.jsx:29 | the tick's end test: nothing left to count, `diff <= 0` |
| Countdown.Label | src/pages/Exam.jsx:195-197 | the panel heading: "Time until exam starts:" while the clock is before the start, else "Time remaining:" |
| Countdown.Hours | src/pages/Exam.jsx:34 | `Math.floor(diff / 3600000)`, rounding down also for negative differences |
| Countdown.Minutes | src/pages/Exam.jsx:35 | `Math.floor((diff / 60000) % 60)` with JavaScript's sign-keeping `%`: minutes within the hour, in -60..0 for a negative difference |
| Countdown.Seconds | src/pages/Exam.jsx:36 | `Math.floor((diff / 1000) % 60)` with the same sign rule: seconds within the minute |
| Countdown.Format | src/pages/Exam.jsx:34-38 | the countdown text: each component written out and zero-padded to two characters, with an hour field only when the whole hours are positive |
| Countdown.ParseCountdown | src/pages/Exam.jsx:38 | reads a countdown text back into hours, minutes and seconds, each field needing at least two digits; the partner of Format |
| Countdown.DiffTarget | src/pages/Exam.jsx:27 | before the start the difference is `start - now` and positive; from the start instant on (the boundary included) it is `end - now`; the heading reads "Time until exam starts:" exactly when `now < start` |
| Countdown.OverExactlyFromEnd | src/pages/Exam.jsx:27-31 | the exam is never over while `now < start`; with `start <= end` it is over exactly when `now >= end` |
| Countdown.Decomposition | src/pages/Exam.jsx:34-36 | for a non-negative difference: hours >= 0, minutes and seconds in 0..59, and `hours*3600 + minutes*60 + seconds` is the whole seconds remaining |
| Countdown.NegativeComponents | src/pages/Exam.jsx:34-36 | for a negative difference the hours are negative and minutes and seconds lie in -60..0 (JavaScript `%` keeps the dividend's sign) |
| Countdown.HourTestAsWritten | src/pages/Exam.jsx:38 | the comparison of the padded hour string with 0 holds exactly when the whole hours are positive |
| Countdown.FormatNonEmpty | src/pages/Exam.jsx:38 | every countdown text has at least seven characters, so it is never the empty string that hides the panel |
| Countdown.NoHourPartWhenOver | src/pages/Exam.jsx:29-38 | once the difference is <= 0 the text is only the minute and second fields |
| Countdown.FormatRoundTrip | src/pages/Exam.jsx:34-38 | the text of a non-negative difference reads back as exactly its hours, minutes and seconds; every field is padded to at least two digits, the hour field is there exactly when the hours are positive, and no field is truncated |
| Countdown.FormatDeterminesSeconds | src/pages/Exam.jsx:34-38 | two non-negative differences with the same text have the same whole seconds remaining |
| Countdown.FormatExampleWithHours | src/pages/Exam.jsx:34-38 | 3661000 ms is written "01hr 01m 01s" |
| Countdown.FormatExampleWithoutHours | src/pages/Exam.jsx:34-38 | 125000 ms is written "02m 05s", without an hour field |
| Countdown.FormatExampleOneSecond | src/pages/Exam.jsx:34-38 | 1000 ms is written "00m 01s" |
| Text.IntToString | src/pages/Exam.jsx:34-36 | `toString` of an integer: a minus sign for negatives, then the digits of the magnitude |
| Text.ToNumber | src/pages/Exam.jsx:38 | `Number()` on a run of digits with an optional minus sign, the only text `toString` and `padStart` produce here; other text gives None |
| Text.IsPositiveNumber | src/pages/Exam.jsx:38 | the comparison `hours > 0` of a padded component string with the number 0: true exactly when that text denotes a positive number |
| Text.NatToStringDigits | src/pages/Exam.jsx:34-36 | `toString` of a natural number is a numeral denoting that number, without a leading zero unless it is 0 |
| Text.PadStart | src/pages/Exam.jsx:34-36 | `padStart` makes a string exactly `width` long when it is shorter and never shortens it |
| Text.PadStartShape | src/pages/Exam.jsx:34-36 | the padded string is the original behind as many fill characters as were missing |
| Text.PaddedNumeral | src/pages/Exam.jsx:34-36 | a zero-padded numeral still denotes the same number |
| Text.PaddedIntToNumber | src/pages/Exam.jsx:38 | `Number()` of a padded component gives back the integer, negative ones included, and it is positive exactly when the integer is |
| Text.Split | src/pages/Exam.jsx:88-90 | `split` yields at least one field and no field contains the separator |
| Text.JoinSplit | src/pages/Exam.jsx:88-90 | joining the fields of a split with the separator gives the original string |
| Text.SplitJoin | src/pages/Exam.jsx:88-90 | splitting the join of separator-free fields gives those fields back |
| Schedule.ParseDate | src/pages/Exam.jsx:88-93 | the first three '-'-separated fields as year, month - 1 and day; None when a field is missing or not a numeral |
| Schedule.ParseTime | src/pages/Exam.jsx:89-90 | the first two ':'-separated fields as hours and minutes; None when a field is missing or not a numeral |
| Schedule.LocalInstant | src/pages/Exam.jsx:91-98 | the Date constructor's instant for a time of day: the date's local midnight plus hours and minutes as minutes of the day, so hours past 23 or minutes past 59 roll over into the following hours and days |
| Schedule.ParseSchedule | src/pages/Exam.jsx:91-98 | both instants of the submit handler on the parsed date: its local midnight plus each time of day |
| Schedule.DateRoundTrip | src/pages/Exam.jsx:88-93 | a date of three numerals joined by '-' parses to year, month - 1 and day |
| Schedule.TimeRoundTrip | src/pages/Exam.jsx:89-90 | a time of two numerals joined by ':' parses to hours and minutes |
| Schedule.SameDay | src/pages/Exam.jsx:91-98 | a schedule exists exactly when the date and both times parse; both instants are their time of day after the same date's midnight, and end - start is the difference of the minutes of day times 60000 |
| Schedule.EndAfterStart | src/pages/Exam.jsx:91-98 | the end instant is after the start instant exactly when the end time is later in the day |
| Schedule.FormValuesSchedule | src/pages/Exam.jsx:85-98 | the form's `YYYY-MM-DD`, `HH:MM`, `HH:MM` values give the instants of those times on that date |
| Session.Truthy | src/pages/Exam.jsx:184 | JavaScript truthiness of formSubmitted, which chooses between the setup form (line 111) and the exam screen: a boolean is itself, a string is truthy exactly when non-empty |
| Session.LoadFlag | src/pages/Exam.jsx:12-14 | the flag read on mount: the stored string when it is non-empty, else the boolean false |
| Session.Stringify | src/pages/Exam.jsx:48 | the text `setItem` stores for the flag: "true" or "false" for a boolean, the string itself otherwise |
| Session.Mounted | src/pages/Exam.jsx:6-14 | the state right after mounting at `now`: empty title and countdown, every instant `now`, not over, the loaded flag, and the flag written back |
| Session.AfterTitleInput | src/pages/Exam.jsx:132 | the title input's change handler: the title becomes the typed text, nothing else changes |
| Session.AfterTick | src/pages/Exam.jsx:25-38 | one tick: the clock becomes `now`, the exam is flagged over and the text computed from the previous clock reading |
| Session.AfterSubmit | src/pages/Exam.jsx:99-105 | the submit: parsed instants, examOver cleared, the flag set, the title, both instants and the flag stored |
| Session.AfterNewExam | src/pages/Exam.jsx:74-81 | "New Exam": the three session keys removed, the flag false and stored as "false" |
| Session.Panel | src/pages/Exam.jsx:193-197 | the countdown panel on the exam screen while the text is non-empty and the exam is not over: its heading and its text |
| Session.MountSettles | src/pages/Exam.jsx:12-14 | mounting over any store leaves the flag persisted as non-empty text |
| Session.WriteBackIsNoOpWhenPersisted | src/pages/Exam.jsx:47-49 | on a persisted state, writing the flag back leaves the store as it is, so writing after every handler agrees with the effect that writes only on a change |
| Session.LoadFlagQuirk | src/pages/Exam.jsx:12-14 | the loaded flag is never the boolean true; it is truthy exactly when a non-empty string is stored, so a stored "false" is truthy |
| Session.FirstLoad | src/pages/Exam.jsx:12-14 | with nothing stored the setup form is shown and the effect stores "false" |
| Session.ReloadSkipsSetupForm | src/pages/Exam.jsx:12-14 | a reload over the store of a settled session reads the stored text back as the flag, which is truthy, so the exam screen is shown |
| Session.HandlersPersistFlag | src/pages/Exam.jsx:47-49 | the title input, the tick, submit and "New Exam" each keep the stored flag equal to the state's flag written as a string |
| Session.HandlersKeepSettled | src/pages/Exam.jsx:47-49 | the title input, the tick, submit and "New Exam" each keep the flag persisted as non-empty text, so every later reload shows the exam screen |
| Session.TickFlagsOver | src/pages/Exam.jsx:25-31 | a tick sets the clock to `now`, never flags the exam over while the previous reading was before the start, flags it over (with start <= end) exactly when the previous reading had reached the end, and changes no other field |
| Session.TickShowsRemaining | src/pages/Exam.jsx:27-38 | while time is left, the text a tick writes reads back as hours, minutes 0..59 and seconds 0..59 that add up to the whole seconds from the previous reading to the instant it counts to |
| Session.OverIsSticky | src/pages/Exam.jsx:29-30 | the tick, the title input and "New Exam" never clear examOver; submit always does |
| Session.LabelLagsCountdown | src/pages/Exam.jsx:193-197 | on the tick that crosses the start the panel already reads "Time remaining:" while its text still counts down to the start |
| Session.SubmitStoresSession | src/pages/Exam.jsx:99-105 | submit sets start and end to the parsed instants, clears examOver, sets the flag, stores title, both instants and "true" under their keys, adds no other key and changes no other key or field |
| Session.NewExamClearsSession | src/pages/Exam.jsx:74-81 | "New Exam" removes exactly the three session keys, stores "false" as the flag, clears it and changes nothing else |
| Session.NewExamIdempotent | src/pages/Exam.jsx:74-81 | "New Exam" twice leaves the same state as once |
| Session.ResetThenReload | src/pages/Exam.jsx:74-81 | after "New Exam" a reload finds none of the three session keys but the truthy string "false" as the flag |
| Session.ExamSession.constructor | src/pages/Exam.jsx:6-14 | mounting sets every instant to `now`, loads the flag, writes it back and leaves the store otherwise as found |
| Session.ExamSession.PersistFlag | src/pages/Exam.jsx:47-49 | the effect writes the flag as a string under formSubmitted and changes nothing else |
| Session.ExamSession.EnterTitle | src/pages/Exam.jsx:132 | the title input replaces the title and changes nothing else |
| Session.ExamSession.Tick | src/pages/Exam.jsx:25-38 | the in-place tick produces exactly the state `AfterTick` describes and keeps the session settled |
| Session.ExamSession.Submit | src/pages/Exam.jsx:83-107 | the in-place submit, with its three store writes and the flag's write-back, produces exactly the state `AfterSubmit` describes |
| Session.ExamSession.NewExam | src/pages/Exam.jsx:74-81 | the three removals and the flag's write-back produce exactly the state `AfterNewExam` describes |
| Session.ExamSession.Reload | src/pages/Exam.jsx:12-14 | a page reload mounts a new session over this one's store; for a valid session it is valid and shows the exam screen |
| Session.ExamSession.OnKey | src/pages/Exam.jsx:54-66 | Escape with a confirmed prompt has exactly the effect of "New Exam"; any other key or a declined prompt changes nothing |

## Left out

- The interval and effect scheduling (`setInterval`, `clearInterval`, React's re-running of effects)
  is not modelled. One callback is `ExamSession.Tick(now)`, with the wall clock passed in.
- `window.confirm` and the registration of the keydown listener are browser calls. The answer to the
  prompt is the parameter `confirmed` of `ExamSession.OnKey`.
- `localStorage` is a `map<string, string>`. Its persistence across page loads is modelled by
  mounting a new session over the map a previous one left.
- The `Date` constructor's local-time arithmetic is simplified. Both instants of a date are its
  midnight plus the time of day, and the midnight comes from the parameter `localMidnight`. Changes
  of daylight-saving time within the day are not modelled.
- `Date.prototype.toString`, used for the stored instants, is the parameter `dateText`. Its exact
  text is not modelled.
- `toLocaleTimeString` and the rest of the rendering are not modelled. Of the rendering, only the
  countdown panel (`Session.Panel`: its visibility test, heading and text) is modelled.
- The setup form's markup is not modelled, and neither is `event.preventDefault` /
  `event.target.reset()`.
- The three `new Date()` initial states are not modelled separately. Mounting gives all three the
  same `now`.
- Floating-point division is not modelled. Instants are whole milliseconds, and `Math.floor` of a
  quotient is integer division.
- Session.ExamSession.Submit: requires that the date and both times parse. The form's `required`
  date and time inputs only submit `YYYY-MM-DD` and `HH:MM` values. The Invalid Date that the code
  would build from other text is not modelled.
- Text.ToNumber: covers only a run of digits with an optional minus sign. JavaScript's `Number()` also
  reads empty and blank text (as 0), `+`-signed, decimal and exponent text, which the model maps to None.
  The only text the tick compares with 0 is a padded `toString` result, which `Text.PaddedIntToNumber` covers.
- Schedule.ParseDate: accepts only runs of digits as fields. The model does not cover JavaScript's
  `Number()` coercion of empty, blank or signed text, which the browser's date and time inputs
  never produce.
- `src/pages/Setup.jsx`, `src/App.js` and `src/pages/Exam.test.jsx` are not part of this model:
  - a form that forwards raw strings;
  - router wiring;
  - user-interface tests.
