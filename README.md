# Event reminder core in Dafny

This project models the time-driven core of a personal event-reminder web app. Users create named events with a target date and time. The app:

- keeps a live view of upcoming, completed and imminent events;
- completes an event automatically once its instant passes;
- raises escalating reminders as an event approaches;
- sounds a bounded "event is now" alarm when it arrives.

The model covers these parts:

- **Event store** (`useEvents`): a class over the event list. It has add, delete, the auto-complete sweep, manual completion and restore, and pure derived views: upcoming, completed, within 24 hours, next, and time until.
- **Threshold notifier** (`useNotifications`): a class over the set of deduplication keys. It has the per-check loop (urgency bands, hour-bucket keys, the one-shot 24-hour marker) and the prune loop. Pure tables give each urgency's toast duration, tone and OS notification.
- **Live-alarm manager** (`usePersistentNotifications`): a class over the map of armed alarms and the set of live timer handles. It has the arming loop, start, an idempotent stop, the repeat and expiry timer callbacks, and the banner buttons.
- **Countdown panel, upcoming list and completed list**: pure view functions. These give the status tiers, the padded fields, the remaining-time text and the "ago" text.
- **Add-event dialog and inline form**: classes over the form state. Validation and the date conversion are shared in `EventForm`.
- **Events page**: the list filter, what each notification hook is fed, and the dialog's hand-off to the store.

Instants are integers of milliseconds and `now` is a parameter. An event's `date` and `time` strings are represented by the one instant they denote (`Event.target`). Dafny's `/` on `int` with a positive divisor equals JavaScript's `Math.floor` of the quotient, so the source's floors are written as `/`.

Some behaviours of the code deserve a note. The model follows the code in each case.

- `getEventsWithin24Hours` does not look at `completed`. A completed event due within a day is listed by the critical filter and fed to the notifier (`EventStore.Within24HoursSpec`, `EventsPage.FilteredEventsSpec`).
- The notifier has three urgency levels. Five minutes or less is high; up to 30 or 60 minutes is medium (`ThresholdNotifier.ClassifyByTimeLeft`).
- The final hour shares hour bucket 0. The first alert in that hour suppresses every later one for it, including the high one at five minutes (`ThresholdNotifier.FinalHourAlertsOnce`).
- `deleteEvent` clears neither an armed alarm nor the notifier's keys. An alarm for a deleted event runs until it is stopped or it expires. The notifier's keys go at its next prune (`EventStore.Store.DeleteEvent` changes only the store).
- The alarm guard is judged against the map as it was when the check began. An alarm stopped early, inside the one-minute window, is armed again by the next check if its event is still incomplete (`LiveAlarms.RearmAfterEarlyStop`).
- Suppose the sweep has already run at an instant. A check at that instant arms nothing, because every event whose instant is reached is then completed (`LiveAlarms.NoArmAfterSweep`). The alarm check runs whenever the event list changes, and a sweep that completes events changes it. So an alarm arms only on a list that reaches the check before that tick's sweep.
- Neither a timer expiry nor a click on the OS notification dismisses the alarm banner. Only the banner's own STOP and MINIMIZE buttons do (`LiveAlarms.AlarmManager.TimeoutFires`, `LiveAlarms.AlarmManager.OsNotificationClicked`).
- The arming loop applies its map updates together once the loop is done. In the source each `startEventNotification` queues a functional `setActiveNotifications` update, and React applies the queue after the effect. The guard reads the map from before the effect either way (`LiveAlarms.ArmDue`).
- The dialog resets and closes as soon as `onAddEvent` is called. It does not wait for the store's answer (`EventsPage.SubmitFromDialog`).
- The forms take the stored date from the UTC day and the time from the local clock (`EventForm.Validate`, `EventForm.ValidateSpec`). Away from offset 0, a pick near local midnight is stored a whole day off; see "## Findings".
- The future check compares the picked instant. The stored instant is cut down to the minute, so a pick less than a minute ahead can be stored at or before `now` (`EventForm.SubmittedMayBeDue`).

## Model

| member | source | states |
|---|---|---|
| EventStore.TimeUntilEvent | src/hooks/useEvents.ts:183-195 | null exactly when the target is at or before `now`; otherwise days, hours under 24, minutes under 60 and seconds under 60 that add up to the delta rounded down to a whole second |
| EventStore.DecomposesUnique | src/hooks/useEvents.ts:189-194 | a breakdown within those bounds is unique for a delta, so the one computed is the only correct one |
| EventStore.TotalMinutesIsFloor | src/hooks/useNotifications.ts:204-205 | `days*1440 + hours*60 + minutes` is the delta in whole minutes, rounded down |
| EventStore.TotalHoursIsFloor | src/components/CountdownTimer.tsx:66 | `days*24 + hours` is the delta in whole hours, rounded down |
| EventStore.Filter | src/hooks/useEvents.ts:146-150 | the result holds exactly the elements that satisfy the predicate, none more often than in the input |
| EventStore.FilterAppend | src/hooks/useEvents.ts:105 | filtering distributes over concatenation, so it keeps the input's relative order |
| EventStore.SortBy | src/hooks/useEvents.ts:151-155 | the result is ordered by the key and is a permutation of the input |
| EventStore.UpcomingEventsSpec | src/hooks/useEvents.ts:143-156 | upcoming holds exactly the incomplete events with target after `now`, as a permutation of the filtered list, in ascending target order |
| EventStore.CompletedEventsSpec | src/hooks/useEvents.ts:158-166 | completed holds exactly the completed events, newest first by `completedAt`, falling back to the target instant |
| EventStore.Within24HoursSpec | src/hooks/useEvents.ts:168-176 | within-24-hours holds exactly the events with `now < target <= now + 86400000`, completed or not |
| EventStore.NextEventSpec | src/hooks/useEvents.ts:178-181 | the next event is none iff nothing is upcoming; otherwise it is the first upcoming event, and no upcoming event is earlier |
| EventStore.CompletedNeverUpcoming | src/hooks/useEvents.ts:143-166 | a completed event is never in the upcoming view and always in the completed view |
| EventStore.Swept | src/hooks/useEvents.ts:116-141 | the sweep's meaning: same length, each due event stamped in place |
| EventStore.FindById | src/hooks/useEvents.ts:136 | `find` by id returns an element with that id, or none exactly when no element has it |
| EventStore.FindByIdAppend | src/hooks/useEvents.ts:136 | finding in `a + b` finds in `a` first, then in `b` |
| EventStore.MergeIsSwept | src/hooks/useEvents.ts:118-139 | with unique ids, collecting the stamped copies and then merging them by id gives the sweep |
| EventStore.SweptSpec | src/hooks/useEvents.ts:116-141 | after the sweep nothing is due; length, order and ids are kept; due events get `completed` and `completedAt = now`; every other event is unchanged |
| EventStore.SweptIdempotent | src/hooks/useEvents.ts:116-141 | sweeping twice at the same instant equals sweeping once |
| EventStore.MarkCompletedSpec | src/hooks/useEvents.ts:197-206 | only events with that id change, to completed at `now`, and they leave the upcoming view |
| EventStore.MarkIncompleteSpec | src/hooks/useEvents.ts:208-217 | only events with that id change, to incomplete without `completedAt`, and a future one returns to the upcoming view |
| EventStore.AddedEventListed | src/hooks/useEvents.ts:76-84 | the prepended event is upcoming iff its instant is ahead, never in the completed view, completed by the next sweep once its instant is reached; its id joins the list's ids, and a fresh id keeps them unique |
| EventStore.IdsAfterRemove | src/hooks/useEvents.ts:105 | after a delete the list's ids are the old ones minus the deleted id |
| EventStore.RemoveIdSpec | src/hooks/useEvents.ts:105 | delete keeps exactly the events with another id, distributes over concatenation, and leaves a list without the id unchanged |
| EventStore.Store.constructor | src/hooks/useEvents.ts:10 | the store starts with no events |
| EventStore.Store.AddEvent | src/hooks/useEvents.ts:63-94 | with a user and a successful create, the new event is prepended; without a user, or when the create fails, the list is unchanged |
| EventStore.Store.DeleteEvent | src/hooks/useEvents.ts:96-113 | with a user and a successful delete, the list becomes `RemoveId`; otherwise it is unchanged |
| EventStore.CollectDue | src/hooks/useEvents.ts:118-131 | the first loop collects exactly the stamped copies of the due events, in list order |
| EventStore.MergeCompleted | src/hooks/useEvents.ts:133-139 | the second loop replaces each event by the first copy with its id, or keeps it |
| EventStore.Store.AutoComplete | src/hooks/useEvents.ts:115-141 | the two loops compute the merge of the stamped copies; with unique ids the new list is the sweep |
| EventStore.Store.MarkEventAsCompleted | src/hooks/useEvents.ts:197-206 | the new list is `MarkCompleted` of the old one |
| EventStore.Store.MarkEventAsIncomplete | src/hooks/useEvents.ts:208-217 | the new list is `MarkIncomplete` of the old one |
| ThresholdNotifier.KeyPrefixIsId | src/hooks/useNotifications.ts:206-261 | for a dash-free id, the text before the first `-` of either key form is the event id |
| ThresholdNotifier.KeyTextInjective | src/hooks/useNotifications.ts:206-225 | different keys give different key strings |
| ThresholdNotifier.ClassifyByTimeLeft | src/hooks/useNotifications.ts:213-231 | high iff under 6 minutes left; medium iff 6 to under 61; low iff 61 to under 1441 and no marker; nothing otherwise |
| ThresholdNotifier.DispatchSpec | src/hooks/useNotifications.ts:105-194 | toast 8000/5000/4000 ms; tone 1000 Hz for 500 ms, 850 Hz for 400 ms, 700 Hz for 200 ms; tones at +100, +600, +1200 ms for high and +100 ms otherwise; OS notice only with permission, tagged with the id, requiring interaction only for high, otherwise closing after 5000 ms |
| ThresholdNotifier.StepSpec | src/hooks/useNotifications.ts:200-234 | a passed event changes nothing; a recorded bucket key (whole hours left) suppresses the alert; otherwise the alert is the classification, and an alert records its bucket key, plus the marker for low |
| ThresholdNotifier.StepGrows | src/hooks/useNotifications.ts:229-234 | a check only adds keys |
| ThresholdNotifier.BucketAlertsOnce | src/hooks/useNotifications.ts:206-234 | after an alert, a later check in the same hour bucket alerts nothing while the key is kept |
| ThresholdNotifier.FinalHourAlertsOnce | src/hooks/useNotifications.ts:206-234 | at most one alert fires in an event's final hour |
| ThresholdNotifier.LowAlertsOnce | src/hooks/useNotifications.ts:223-231 | after a low alert, no further low alert fires for that id while the marker is kept |
| ThresholdNotifier.MarkerSuppressionRecordsNothing | src/hooks/useNotifications.ts:223-234 | when the marker suppresses a low alert, neither an alert nor a key results |
| ThresholdNotifier.PassSpec | src/hooks/useNotifications.ts:199-252 | a whole check only adds keys, dispatches at most once per listed event (never twice for one id when ids are unique), and dispatches only for listed events still ahead of `now` |
| ThresholdNotifier.PrunedSpec | src/hooks/useNotifications.ts:255-271 | for dash-free ids, prune keeps exactly the keys whose event is in the current list |
| ThresholdNotifier.PruneAfterDelete | src/hooks/useNotifications.ts:255-271 | after a delete, the next prune drops every key of the deleted event and keeps those of every other listed event |
| ThresholdNotifier.Notifier.constructor | src/hooks/useNotifications.ts:8 | the key set starts empty |
| ThresholdNotifier.Notifier.Check | src/hooks/useNotifications.ts:199-252 | the loop with `shouldNotify` and `urgency` leaves the key set and the dispatches that `Pass` specifies |
| ThresholdNotifier.Notifier.Cleanup | src/hooks/useNotifications.ts:255-271 | the collect-then-delete loops leave `Pruned` of the old keys |
| LiveAlarms.RecheckArmsNothing | src/hooks/usePersistentNotifications.tsx:226-242 | the effect's re-run on the map the check left, at the same instant, arms nothing, so a check settles after one round |
| LiveAlarms.ArmedIds | src/hooks/usePersistentNotifications.tsx:229-241 | an id is armed by a check iff some listed event with it passes the guard |
| LiveAlarms.NoArmAfterSweep | src/hooks/usePersistentNotifications.tsx:230-238 | after a sweep at the same instant, a check arms nothing |
| LiveAlarms.NoRearmAfterExpiry | src/hooks/usePersistentNotifications.tsx:190-236 | 120 s after arming, the event is past the arming window |
| LiveAlarms.RearmAfterEarlyStop | src/hooks/usePersistentNotifications.tsx:203-238 | a stop inside the window lets the next check arm the still-incomplete event again |
| LiveAlarms.RepeatSchedule | src/hooks/usePersistentNotifications.tsx:177-184 | the 10 s interval plays at firings 1 to 11, and stops the alarm from the twelfth, at 120 s |
| LiveAlarms.TimeoutsExpire | src/hooks/usePersistentNotifications.tsx:190-192 | firing the expiry timers due by `now`, each once and in any order, leaves exactly the entries younger than 120 s, untouched |
| LiveAlarms.ArmTagInjective | src/hooks/usePersistentNotifications.tsx:80-92 | the OS notice's tag `event-now-<id>` names its event, so one alarm's notice never replaces another's |
| LiveAlarms.AlarmManager.constructor | src/hooks/usePersistentNotifications.tsx:17-19 | an empty map, no live timer |
| LiveAlarms.AlarmManager.Start | src/hooks/usePersistentNotifications.tsx:163-200 | exactly the entry for the id is set, started now and active, with two fresh live timers; other entries are unchanged; the banner is raised; the invariant is kept |
| LiveAlarms.AlarmManager.Stop | src/hooks/usePersistentNotifications.tsx:203-223 | only that id's entry goes, with both of its timers; an absent id changes nothing |
| LiveAlarms.OwnedAfterInsert | src/hooks/usePersistentNotifications.tsx:194-197 | arming an id without an entry adds exactly its two timers to the owned ones, so no live timer is left without an entry |
| LiveAlarms.OwnedAfterRemove | src/hooks/usePersistentNotifications.tsx:203-223 | stopping an entry removes exactly its two timers from the owned ones |
| LiveAlarms.ArmDue | src/hooks/usePersistentNotifications.tsx:226-242 | the loop arms exactly `ArmedIds` against the map at its start, keeps old entries, starts each armed one now, raises its banner, sends for each armed id one tone and, only with permission, an OS notice tagged with it that requires interaction, keeps the invariant, and keeps every timer owned when ids are unique |
| LiveAlarms.AlarmManager.CheckDue | src/hooks/usePersistentNotifications.tsx:226-242 | the manager's fields take `ArmDue`'s result: the same guarantees and the same effects, stated on the new state, with the permission unchanged |
| LiveAlarms.AlarmManager.RepeatFires | src/hooks/usePersistentNotifications.tsx:177-184 | plays a tone under 120 s since arming; otherwise stops the alarm |
| LiveAlarms.AlarmManager.TimeoutFires | src/hooks/usePersistentNotifications.tsx:190-192 | fired for a live entry 120 s or more after arming, the expiry removes the entry and clears both its timers, leaves the banner up, keeps the handle counter and the permission, and leaves no stray timer |
| LiveAlarms.AlarmManager.FireDueTimeouts | src/hooks/usePersistentNotifications.tsx:189-192 | once every due expiry has fired, the map is `Expire` of the old one: no alarm is 120 s old, every younger one is kept, the banners stay |
| LiveAlarms.AlarmManager.OsNotificationClicked | src/hooks/usePersistentNotifications.tsx:102-106 | clicking the OS notification removes the entry and clears both its timers (an absent id changes nothing), keeps the banner, the counter, the permission, and leaves no stray timer |
| LiveAlarms.AlarmManager.StopButtonClicked | src/hooks/usePersistentNotifications.tsx:127-135 | STOP removes the entry and clears both its timers, dismisses the banner, keeps the counter and the permission, and leaves no stray timer |
| LiveAlarms.AlarmManager.MinimizeClicked | src/hooks/usePersistentNotifications.tsx:136-144 | MINIMIZE dismisses the banner only: entries, timers, counter and permission stay, and the invariant is kept |
| Text.NatToString | src/components/CountdownTimer.tsx:124-137 | `toString()` of a whole number: at least one digit, all digits, no leading zero |
| Text.ParseNatToString | src/components/CountdownTimer.tsx:124-137 | the numeral reads back as the number |
| Text.NatToStringInjective | src/components/EventList.tsx:125 | different numbers render as different numerals |
| Text.PadStart2 | src/components/CountdownTimer.tsx:124-137 | `padStart(2, '0')`: at least two characters, the input as suffix, zeros before it |
| Text.Padded | src/components/CountdownTimer.tsx:124-137 | a padded numeral has at least two characters, all digits |
| Text.PaddedParse | src/components/CountdownTimer.tsx:124-137 | a padded numeral reads back as the number |
| Countdown.RenderKinds | src/components/CountdownTimer.tsx:11-49 | idle iff there is no next event; "started or passed" iff its instant is reached; active otherwise |
| Countdown.ActiveBands | src/components/CountdownTimer.tsx:66-90 | critical under 2 h, warning under 25 h, alert under 73 h, nominal beyond; pulse iff critical; banner iff under 25 h; CRITICAL_ALERT label iff critical |
| Countdown.ActiveFields | src/components/CountdownTimer.tsx:122-139 | each field has at least two digits and reads back as its part of the breakdown |
| Countdown.NextEventCountdown | src/components/CountdownTimer.tsx:11-49 | for the next event at the same instant, idle iff nothing is upcoming, and never "started or passed" |
| EventListView.UnitsSpec | src/components/EventList.tsx:41-51 | the parts shown are a tail of d, h, m, s, led by a non-zero unit, and add up to the whole seconds left |
| EventListView.JoinParts | src/components/EventList.tsx:44-50 | the joined text starts with a digit and ends with the last unit |
| EventListView.FormatTimeRemainingSpec | src/components/EventList.tsx:37-52 | 'Event has passed' iff the instant is reached; any other text starts with a digit and ends in `s` |
| EventListView.HasId | src/components/EventList.tsx:20-22 | true iff some event of the list has the id |
| EventListView.RenderSpec | src/components/EventList.tsx:54-100 | the placeholder iff the list is empty; otherwise the count, and the urgent banner iff the within-24-hours list is non-empty |
| EventListView.RowsSpec | src/components/EventList.tsx:103-125 | a row per event in order, numbered from 1, urgent iff an event with its id is due within a day |
| EventsPage.ListDeleteRemovesRow | src/components/EventList.tsx:172-176 | with unique ids, a confirmed delete on a row of the shown list removes exactly that row's event; an unconfirmed click asks nothing |
| CompletedListView.CompletedAgoSpec | src/components/CompletedEventList.tsx:29-43 | days from one day, hours from one hour, minutes from one minute, 'Just now' below a minute or for a future stamp; each count is the whole total of that unit |
| CompletedListView.AgoTextInjective | src/components/CompletedEventList.tsx:39-42 | different labels produce different texts |
| CompletedListView.RenderSpec | src/components/CompletedEventList.tsx:45-70 | the placeholder iff the list is empty; otherwise the count and the rows |
| CompletedListView.RowsSpec | src/components/CompletedEventList.tsx:69-108 | rows in order numbered from 1; 'Auto-completed' iff `completedAt` is absent |
| CompletedListView.RowForSpec | src/components/CompletedEventList.tsx:83-108 | one row: its number reads back, and it shows 'Auto-completed' iff `completedAt` is absent |
| EventsPage.CompletedRowActions | src/components/CompletedEventList.tsx:115-131 | with unique ids, a confirmed restore of a row changes only its event, to incomplete, and returns it to upcoming when still ahead; a confirmed delete removes exactly that event; unconfirmed clicks ask nothing |
| EventForm.WithField | src/components/AddEventModal.tsx:66-72 | the named field takes the value; every other field is unchanged |
| EventForm.IntendedTarget | src/components/AddEventModal.tsx:43-44 | the stored instant is the pick cut down to its local minute |
| EventForm.WrittenTargetShift | src/components/AddEventModal.tsx:43-44 | as written, the stored instant is off by the gap between the UTC day and the local day |
| EventForm.WrittenTargetDayEarly | src/components/AddEventForm.tsx:38-39 | at +05:30, a pick at 03:00 local is stored a day early |
| EventForm.SameDayAgrees | src/components/AddEventModal.tsx:43-44 | when the UTC day and the local day agree, the two conversions agree |
| EventForm.ValidateSpec | src/components/AddEventModal.tsx:29-52 | a missing name or instant is rejected, then a pick at or before `now`; otherwise the payload has the form's name and description, and its instant is the pick to the minute moved by the gap between the UTC and the local day, so the pick to the minute when the two days agree |
| EventForm.SubmittedDayEarly | src/components/AddEventModal.tsx:29-52 | at +05:30, a form with 03:00 local picked passes every check and hands on an instant a day in the past |
| EventForm.ValidateIntendedSpec | src/components/AddEventModal.tsx:29-52 | with local date and time, the same checks, and the payload's instant is the pick to the minute at any offset |
| EventForm.SubmittedMayBeDue | src/components/AddEventForm.tsx:30-45 | a pick 30 s ahead passes the check and is stored at `now` |
| AddEventModalView.AddEventModal.constructor | src/components/AddEventModal.tsx:16-22 | the form starts blank with nothing picked and the dialog closed |
| AddEventModalView.AddEventModal.Open | src/app/events/page.tsx:341 | the add buttons open the dialog and keep its input |
| AddEventModalView.AddEventModal.HandleSubmit | src/components/AddEventModal.tsx:26-64 | the outcome is `Validate`, with the conversion as written; on success the form is blank and the dialog closed; on an error nothing changes |
| AddEventModalView.AddEventModal.HandleChange | src/components/AddEventModal.tsx:66-72 | the form becomes `WithField` of the old form; the rest is unchanged |
| AddEventModalView.AddEventModal.HandleDateTimeChange | src/components/AddEventModal.tsx:74-76 | only the picked instant changes |
| AddEventModalView.AddEventModal.HandleBackdropClick | src/components/AddEventModal.tsx:78-82 | only a click on the backdrop itself closes; the input is kept |
| AddEventModalView.AddEventModal.Close | src/components/AddEventModal.tsx:63 | closing keeps the input |
| AddEventFormView.AddEventPanel.constructor | src/components/AddEventForm.tsx:12-19 | the form starts blank with nothing picked and hidden |
| AddEventFormView.AddEventPanel.HandleSubmit | src/components/AddEventForm.tsx:21-62 | the outcome is `Validate`, with the conversion as written; on success the form is blank and hidden and the success message shows; on an error nothing changes |
| AddEventFormView.AddEventPanel.HandleChange | src/components/AddEventForm.tsx:64-70 | only the named field changes |
| AddEventFormView.AddEventPanel.HandleDateTimeChange | src/components/AddEventForm.tsx:72-74 | only the picked instant changes |
| AddEventFormView.AddEventPanel.ToggleVisibility | src/components/AddEventForm.tsx:89 | visibility flips and the input is kept |
| AddEventFormView.AddEventPanel.Abort | src/components/AddEventForm.tsx:155 | the form hides and the input is kept |
| EventsPage.FilteredEventsSpec | src/app/events/page.tsx:96-110 | 'all' is upcoming; 'critical' is exactly the events due within a day; 'upcoming' is exactly the incomplete events more than a day ahead, ascending |
| EventsPage.FilterKeepsOrder | src/app/events/page.tsx:101-106 | filtering a list ascending by target keeps it ascending |
| EventsPage.LaterSpec | src/app/events/page.tsx:100-106 | the 'upcoming' filter keeps exactly the incomplete events more than a day ahead, ascending |
| EventsPage.CriticalAndLaterDisjoint | src/app/events/page.tsx:98-106 | the 'critical' and 'upcoming' results share no event |
| EventsPage.RenderSpec | src/app/events/page.tsx:305-395 | the view counts are the list sizes; the registry shows iff the filter leaves something; "show all" iff a filter is active |
| EventsPage.UrgentRows | src/app/events/page.tsx:96-110 | with unique ids, a row is urgent iff its event is due within a day |
| EventsPage.SameIdSameEvent | src/components/EventList.tsx:20-22 | with unique ids, two listed events with the same id are the same event |
| EventsPage.NotifierFeed | src/app/events/page.tsx:73-76 | every event the notifier is fed has time left, at most 1440 whole minutes |
| EventsPage.SubmitFromDialog | src/app/events/page.tsx:421-424 | a valid payload resets and closes the dialog whatever the store reports; the store gains the event only on success |

## Left out

- Loading events from the backend (`loadUserEvents`), the session and the backend client. These are network calls. The store's operations take "user present" and the backend's answer as parameters. Events loaded that way carry no `completed` or `completedAt`.
- The clock, `setInterval`/`setTimeout` scheduling and React's effect ordering. These are timer concurrency. The timer callbacks are methods that run when fired, and `now` is a parameter. The source reads `new Date()` in some queries and the ticking `currentTime` in `getTimeUntilEvent`; both are the same `now` here.
- EventStore.Store.AutoComplete: the merge maps over the list captured by the effect. The source maps over React's latest list (`prev`), which is the same list unless another update is pending.
- EventForm.IntendedTarget: the local offset is fixed. Daylight-saving changes between the picked instant and the stored one are not modelled. The forms keep the conversion as written; the corrected submit (`EventForm.ValidateIntended`) stands beside it.
- EventStore.AddedEventListed: the created event takes its name, instant and description from the payload. The source reads them from the backend's answer (`response.name`, `date`, `time`, `description`), which echoes the document stored from that payload (src/lib/appwrite.ts:107-118).
- LiveAlarms.AlarmManager.FireDueTimeouts: the event loop runs each due expiry callback once; a timer that fires late is a callback run at a later `now`. The model does not promise that the loop runs them on time.
- Date strings: parsing `${date}T${time}`, `toISOString`, `toTimeString` and `toLocaleString`. These are library and time-zone behaviour, represented by the integer instant and the offset. Upper-casing names, emoji and class names are presentation.
- Web Audio, the `Notification` constructor, permission requests, toasts, `confirm` and `alert`. These are browser APIs. They appear as outputs (tones, notices, banner state) or as parameters (permission, the user's confirmation).
- LiveAlarms.AlarmManager.RepeatFires: it requires the entry to be present. The model does not follow a repeat timer orphaned when an id is armed twice. That needs duplicate ids, and such a timer would stop the newer entry.
- The unmount cleanup of the alarm manager. It iterates the map captured at mount, so it need not release the armed alarms.
- The "snooze" action of the OS notification. The source declares it and handles no such action.
- Toast and notification texts for time left (`in 2h 5m`). These are presentation and not part of the dispatch decision.
- The dashboard and auth pages, the date-picker wrapper and layout. These are markup around the modelled components.

## Findings

| source | as written | input that shows it | evidently intended | confidence | as-written member | corrected member |
|---|---|---|---|---|---|---|
| src/components/AddEventModal.tsx:43-44 (same in src/components/AddEventForm.tsx:38-39) | the stored date is the UTC calendar day of the picked instant, the time is its local time, and the pair is read back as local time | offset +05:30 (19800000 ms), picked instant 77400000 (03:00 local, 21:30 UTC the day before): stored 77400000 - 86400000, a day early and in the past | date and time both local, so the stored instant is the pick to the minute (`EventForm.ValidateIntendedSpec`) | high for any non-zero offset; not executed | EventForm.SubmittedDayEarly | EventForm.ValidateIntended |
