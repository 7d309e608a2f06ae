# NoorTime core in Dafny

NoorTime is a prayer-times companion. It shows the day's five prayer times and
which prayer comes next. It keeps a per-day record of which prayers the user
marked as performed, charts the last seven day records, and asks a generative
service for guidance based on the last three day records. A day with no tap has
no record. This project models that logic and
proves properties of it. It leaves out the user interface and the network.

Modules, one per file:

- `Wrappers` (wrappers.dfy): `Option`, which stands for JavaScript's
  `null`/`undefined`.
- `Types` (types.dfy): the records of `types.ts`.
  - Timing keys in declaration order; `PrayerName` is the subset of timing
    keys that are the five prayers.
  - `PrayerTimes` with the optional `Imsak`/`Iftar`; `Prayers` and
    `DailyProgress`.
  - The recommendation record and its type tag, and the user profile.
  - A record's flags are read and written by prayer name (`Flag`, `SetFlag`).
- `Constants` (constants.dfy): `PRAYER_NAMES` and `PRAYER_METHODS`.
- `JsArray` (jsarray.dfy): the JavaScript array and string operations the core
  relies on.
  - `slice(-n)`, including the `-0` case.
  - `join`.
  - A single-character `split`, which the proofs use to read a join back.
- `Store` (store.dfy): the daily-progress store of `App.tsx`.
  - The `find`-based get-or-create of today's record.
  - `togglePrayer`, which negates one flag, drops every record of that day
    (`filter`) and appends the updated record.
  - A session of start-up, derivation and tap events, with the invariant that
    the history holds at most one record per day and agrees with the record
    held as today's.
- `Schedule` (schedule.dfy): the `nextPrayer` selector.
  - Parses `"HH:MM"` timings into minutes of the day.
  - Picks the first prayer strictly after the current minute.
  - Falls back to Fajr of the next day when none is left.
- `Tracker` (tracker.dfy): the consistency chart of
  `components/ProgressTracker.tsx`.
  - Per-day counts of performed prayers for the last seven records.
  - The headline number and the bar colour.
- `Guidance` (guidance.dfy): `getPersonalizedGuidance` of
  `services/geminiService.ts`.
  - The three-line history summary placed in the prompt.
  - The catch that turns any failure into an empty list.
  - The generative service is a parameter `Prompt -> Reply`.

Reading a summary back (`DecodeBody`, `DecodeLine`, `DecodeSummary`) is not
part of the application. These decoders are reference definitions, so that the
summary can be proved to lose nothing about the last three records.

How JavaScript behaviour is stated here:

- A timing parses only when it is one colon between two non-empty runs of
  decimal digits (`Schedule.ParseTimeReadsClock`). Every other string parses to
  `None`, which stands for the `NaN` that `split(':').map(Number)` gives for
  most such strings (the exceptions are listed under "## Left out"). `None` is never later than the current minute, matching `NaN > x`
  being false.
- Object key order for `Object.values`/`Object.entries` is the order in which
  the record's keys are written when it is built (Fajr, Dhuhr, Asr, Maghrib,
  Isha). That is also the order of `PRAYER_NAMES`.

## Model

| member | source | states |
|---|---|---|
| Types.Timing | types.ts:9-18 | Every prayer has a timing string; only Imsak and Iftar may be absent. |
| Types.SetFlag | types.ts:20-25 | Writing one prayer's flag sets that flag and leaves the other four as they were. |
| Types.FlagsDetermineRecord | types.ts:20-25 | Two progress records' flag sets are equal exactly when they agree on all five prayers. |
| Types.ParseKey | types.ts:9-18 | A key spelling is accepted exactly when some timing key is spelled that way. |
| Types.KeyNameRoundTrip | types.ts:9-18 | Reading back a timing key's spelling gives that key. |
| Types.ParseTypeTag | types.ts:28 | A recommendation type tag is accepted exactly when it is one of dua, verse, habit, quote. |
| Types.TypeTagRoundTrip | types.ts:28 | Reading back a recommendation type's tag gives that type. |
| Types.NoPrayers | App.tsx:81 | A new day's record has no prayer performed. |
| Constants.PrayerNames | constants.tsx:15-16 | The prayer list has five entries. It holds every prayer, in declaration order, starting with Fajr. |
| Constants.PrayerNamesDistinct | constants.tsx:15-16 | The five names are pairwise distinct, and none is Sunrise, Imsak or Iftar. |
| Constants.PrayerMethods | constants.tsx:2-13 | The method table has ten entries with pairwise distinct ids. |
| JsArray.SliceLast | App.tsx:224 | `slice(-n)` keeps the last min(n, length) elements in order; `slice(-0)` keeps all of them. |
| JsArray.Join | services/geminiService.ts:14-16 | A join starts with the first part, and then the separator if there is more than one part. Its length is the parts' lengths plus one separator between each pair of neighbours. |
| JsArray.SplitJoin | services/geminiService.ts:16 | Splitting a newline-joined list on the newline gives the list back when no part holds a newline. |
| JsArray.SplitJoinCommaSpace | services/geminiService.ts:14 | Splitting a comma-space join at the commas gives the parts back, each after the first with its leading space. |
| Store.Find | App.tsx:77 | `find` gives nothing exactly when no record has the day key; otherwise it gives the first record with that key. |
| Store.GetOrCreate | App.tsx:75-87 | Today's record has today's key. It is the first stored record of the day if one exists, and otherwise a fresh record with no prayer performed. |
| Store.Flip | App.tsx:92-95 | The updated day keeps its key, negates the tapped prayer and leaves the others alone. |
| Store.FlipTwice | App.tsx:92-95 | Negating the same prayer twice gives back the original record. |
| Store.RemoveDate | App.tsx:100 | The `filter` keeps exactly the records of other days. Its length drops by the number of records of the day, and afterwards the day has none. |
| Store.RemoveDateKeepsUnique | App.tsx:100 | Dropping one day's records keeps the history free of duplicate days. |
| Store.Commit | App.tsx:99-102 | The commit leaves exactly one record of the day: the new one, last. Its length is the old length minus the day's old records plus one. Membership of other records is unchanged, `find` then returns the new record, and a duplicate-free history stays duplicate-free. |
| Store.CommitOnlyTouchesItsDate | App.tsx:99-102 | Apart from the committed day, the history is exactly what it was. |
| Store.RecentDays | App.tsx:224 | The history panel shows the last five records (fewer if the history is shorter), newest first. |
| Store.Load | App.tsx:28-37 | At start-up no record is held. A saved profile is used as is; otherwise the default profile has an empty history and a calculation method from the method table. |
| Store.SyncToday | App.tsx:75-87 | Deriving today's record leaves the profile alone and holds a record for that day. In a duplicate-free history the held record agrees with the history. |
| Store.Toggle | App.tsx:89-103 | With no record held, a tap does nothing. Otherwise the held record's tapped flag is negated and the rest kept, the record is committed, the history's record for the day is the held one, and coherence is preserved. |
| Store.ToggleTwice | App.tsx:89-103 | Tapping one prayer twice restores the held record. The history then holds the original record as the day's last entry. |
| Store.FirstToggleOfDay | App.tsx:75-103 | The first tap on a day with no stored record appends exactly one record for that day, with only the tapped prayer performed. |
| Store.RunKeepsCoherent | App.tsx:75-103 | Any sequence of derivations and taps from a coherent session keeps the history free of duplicate days and the held record equal to the history's record for its day. |
| Store.FreshSessionStaysCoherent | App.tsx:28-103 | Every session reachable from the default start-up state is coherent. |
| Schedule.MinuteOfDay | App.tsx:108 | The current time in minutes is below 1440 and gives back its hour and minute. |
| Schedule.ParseTimeReadsClock | App.tsx:111 | A timing reads exactly when it is one colon between two non-empty digit runs, and then reads as hours * 60 + minutes. Every other timing reads as nothing; for most such strings the source gives `NaN`, and the exceptions (a third field, an empty side) are listed under Left out. |
| Schedule.ParseFormattedTime | App.tsx:111 | An `"HH:MM"` timing parses to HH * 60 + MM. |
| Schedule.FirstLater | App.tsx:110-113 | The loop finds nothing exactly when every listed prayer has passed. Otherwise it returns a prayer that is still ahead with every earlier-listed prayer passed. |
| Schedule.FirstLaterIsEarliest | App.tsx:110-113 | The prayer the loop returns is still ahead, and every prayer declared before it has passed. |
| Schedule.NextPrayer | App.tsx:105-115 | No timing data gives no answer. Otherwise the answer is one of the five prayers: the first prayer in canonical order whose time is strictly after the current minute, or Fajr when no prayer's time is. |
| Schedule.NextPrayerIsSoonestWhenOrdered | App.tsx:105-115 | On a timetable whose times increase in prayer order, the answer is the soonest prayer still ahead, and no other prayer is. |
| Schedule.IshaAfterMidnightPassedOver | App.tsx:110-113 | With Fajr at 02:30 and Isha at 00:45, the answer at 00:10 is Fajr, although Isha is still ahead and comes sooner. |
| Schedule.FirstLaterUnique | App.tsx:110-113 | At most one prayer is the first, in prayer order, whose time is still ahead. |
| Schedule.WrapAroundIsFirstPrayer | App.tsx:114 | The wrap-around answer is the first entry of the prayer list. |
| Schedule.SampleDayIsSample | App.tsx:111 | The service's "05:00 … 19:40" table reads as the sample day's minutes. |
| Schedule.SampleAfternoon | App.tsx:105-115 | On the sample day at 13:00 the next prayer is Asr. |
| Schedule.SampleAtDhuhr | App.tsx:112 | At exactly Dhuhr's minute Dhuhr counts as passed, so the next prayer is Asr. |
| Schedule.SampleNight | App.tsx:114 | After Isha the next prayer is the next day's Fajr. |
| Schedule.SampleDayInOrder | App.tsx:105-115 | The sample timetable's times increase in prayer order. |
| Tracker.CountTrue | components/ProgressTracker.tsx:13 | A day's count is at most 5. It is 0 exactly when nothing was performed and 5 exactly when everything was. |
| Tracker.CountAfterSet | components/ProgressTracker.tsx:13 | Setting one flag moves the count by exactly that flag's change. |
| Tracker.ChartData | components/ProgressTracker.tsx:11-14 | The chart has one bar for each of the last min(7, length) records, oldest first, each holding that record's count (at most 5). |
| Tracker.Headline | components/ProgressTracker.tsx:25 | The headline is 0 for an empty history and otherwise the newest record's count. |
| Tracker.HeadlineShowsAnotherDay | components/ProgressTracker.tsx:25-27 | A history whose newest record is yesterday's, all five performed, shows 5 under the "today" label although today has no record. |
| Tracker.TodayCount | components/ProgressTracker.tsx:25-27 | Today's count is at most 5: 0 while the history has no record for today, otherwise the count of a record for today. |
| Tracker.TodayCountIsHeadlineWhenLastIsToday | components/ProgressTracker.tsx:25-27 | In a history with one record per day whose newest record is today's, today's count equals the headline. |
| Tracker.CompleteBarIffAllPerformed | components/ProgressTracker.tsx:41 | A bar takes the full-day colour exactly when its record has all five prayers performed. |
| Guidance.PerformedAmong | services/geminiService.ts:14 | The filter keeps exactly the names whose flag is set, and keeps their order. |
| Guidance.Completed | services/geminiService.ts:14 | The completed list holds exactly the performed prayers in key order, and is empty exactly when none was performed. |
| Guidance.CountIsCompletedLength | services/geminiService.ts:14 | The summary lists as many prayers for a day as the chart counts for it. |
| Guidance.LineBody | services/geminiService.ts:14-15 | A day with nothing performed reads "None". No line body holds a line break or a colon. |
| Guidance.LineBodyListsPerformed | services/geminiService.ts:14-15 | The comma-separated items of a line body are exactly the performed prayers in key order. Split at its commas, a non-empty body is the first performed name followed by each later name with one leading space, so the separator is exactly ", ". |
| Guidance.JoinedNamesAreNotNone | services/geminiService.ts:15 | A non-empty list of performed prayers never reads as the word None. |
| Guidance.LineBodyRoundTrip | services/geminiService.ts:14-15 | Reading a line body back gives the day's flags exactly. |
| Guidance.SummaryLine | services/geminiService.ts:15 | A summary line is the day key, then ": ", then exactly the line body, and holds no line break when the key holds none. |
| Guidance.SummaryLineRoundTrip | services/geminiService.ts:15 | A summary line reads back as the day's record when the day key holds no colon. |
| Guidance.Summary | services/geminiService.ts:13-16 | The history block is empty exactly when the history is empty. |
| Guidance.SummarySplitsIntoRecentLines | services/geminiService.ts:13-16 | The history block holds one line per record for the last min(3, length) records, in history order. |
| Guidance.SummaryRoundTrip | services/geminiService.ts:13-16 | The history block reads back as exactly the last three records. |
| Guidance.BuildPrompt | services/geminiService.ts:13-24 | The prompt carries the user's name and the time phase as given, and a history block from which exactly the last three records can be read back. |
| Guidance.GetPersonalizedGuidance | services/geminiService.ts:32-61 | A failed request or reply gives the empty list; a parsed reply is returned as it is. |
| Guidance.GuidanceSeesOnlyLastThree | services/geminiService.ts:13 | Two histories that agree on their last three records get the same guidance. |

## Findings

| source | as written | input that shows it | evidently intended | confidence | as-written member | corrected member |
|---|---|---|---|---|---|---|
| components/ProgressTracker.tsx:25-27 | The number labelled "/ 5 today" is the count of the newest history record, whatever its day. | A history holding only yesterday's record with all five prayers performed, opened today before any tap: the label reads 5 / 5 today. | Today's record's count, or 0 while today has no record. | medium, not executed | Tracker.HeadlineShowsAnotherDay | Tracker.TodayCount |

`Tracker.Headline` keeps the behaviour as written, and `Tracker.HeadlineShowsAnotherDay`
exhibits the input above. `Tracker.TodayCount` is the corrected headline.
`Tracker.TodayCountIsHeadlineWhenLastIsToday` proves that both agree once today's
record has been committed.

## Left out

- The Qibla bearing (`calculateQibla`) and the compass view: floating-point trigonometry.
- `fetchPrayerTimes`: network I/O. Its result is modelled only as the `PrayerTimes` it delivers.
- Geolocation, the London fallback, device orientation, `localStorage` persistence and the profile-saving effect: I/O.
- The `Date` clock: the current minute and today's key are parameters. The source samples them only when its hooks re-run. `nextPrayer` is memoised on the timing data alone (App.tsx:105-115), so the current minute is read once per delivery of timings and the "Next Prayer" badge does not advance while the page stays open. Today's key is read when the history changes (App.tsx:75-87), so a page left open past midnight keeps holding the previous day's record until the history next changes, and a tap in that window is recorded under the previous day. The model takes whatever minute and key the caller passes and does not model this staleness.
- Rendering, tabs, bar opacity, weekday labels of the chart and the prayer cards: presentation only.
- The AI loading flag and the effects that trigger `loadAiGuidance`, including the `nextPrayer || 'Dhuhr'` default: UI orchestration. The phase reaches `GetPersonalizedGuidance` as a plain string.
- The prompt's fixed wording and the request to the generative service: an external call, modelled as the parameter `service`.
- Guidance.GetPersonalizedGuidance: the parsed reply is not checked against the response schema, just as `JSON.parse` does not check it. Whether a reply parses is the service's outcome.
- Schedule.NextPrayer: follows the source in taking the first prayer in list order whose time is ahead, and does not look at the next day's date. When a timing falls after midnight, as Isha can at high latitudes, that prayer is passed over (`Schedule.IshaAfterMidnightPassedOver`). With Isha at 00:45, at 23:00 the answer is Fajr although Isha is still ahead. The soonest-prayer reading holds only for timetables in day order.
- Schedule.ParseTime: models `Number` only for runs of decimal digits. Whitespace, signs, the empty string (which `Number` reads as 0) and a third colon-separated field are read as unparsable rather than as JavaScript would read them: the source reads "05:00:30" and "5:" as 300 and ":30" as 30.
- Types.UserProfile: `school` is constrained to 0 or 1 as the type comment says. A loaded profile with another number is not modelled.
- Store.Load: a saved profile is taken as it is. Coherence is proved from the default profile, since a hand-edited saved history may hold two records of one day.
