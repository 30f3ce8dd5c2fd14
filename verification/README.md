# Huntarr2: the search scheduler and what feeds it

Huntarr2 is a daemon. At every tick it looks at each configured *arr instance, decides whether the instance is due,
works out which library items could be upgraded or are missing, leaves out those in cooldown, sends a search command for
one batch, and adapts the instance's next interval to what it found. It also polls the instances' import history and
prunes expired rows. This project models that logic and proves what it keeps over whole runs.

## How the modules fit together

- `Core`, `Text`: options, Go's 64-bit wrap-around, units of time, and the parts of Go's standard library the code relies
  on (`strconv.Atoi`, `strconv.ParseBool`, `time.ParseDuration`). A time is a count of nanoseconds since Go's zero time.
- `Durations`, `CanonicalDurations`, `Settings`, `SettingsStore`, `SettingsForm`, `Window`: layered settings, from the texts a user types,
  through validation, the table and the merge, back to the page that shows them.
- `Quality`: the upgradeable and missing filters. `History`, `HistoryShape`, `HistoryFields`: merging of history pages.
  `Cooldown`, `PollState`: the two tables the scheduler keeps. `Interval`: the adaptive interval.
- The scheduler comes in three layers. `Machine` is a state machine whose labels are the critical sections of the code,
  plus a crash and a restart of the process; its guards say what the code has established when it enters a section.
  `TickSpec` is one tick as a function of everything outside it: clock readings, fetched data, which calls fail, when the
  context ends. `SchedulerEngine` is the class with the fields the program updates in place.
  - `SchedulerEngine`'s methods are proved equal to the functions of `TickSpec`, trace of sections included.
  - `TickSpec` and `Runs` prove that every sequence of ticks and restarts is an execution of `Machine`.
  - `Budget`, `Schedules`, `CooldownSafety`, `Polling` prove safety of every execution and `Sweep` coverage; `Pruning` and
    `Runs` prove properties that need the tick's inputs (invisibility of pruning, no due instance passed over, no panic).
  - `Turns` and `Phases` say what a tick does to each listed instance, which histories it polls and which rows it deletes.
  - `Scenarios` builds concrete lives of the daemon, over rows and libraries that can be stored and fetched, that attain
    the bounds and reach the failures the general results allow.

Status observers may read between any two sections, so a property of every prefix of an execution is one of every
snapshot.

## Where the code does less than one might expect

Each of these is stated as an exact condition, shown by a concrete life of the daemon, or both.

- The text printed for a positive duration below one second is refused by the form that shows it
  (`Durations.FormAcceptsPrinted`; "500ms" passes validation: `SettingsForm.HalfSecondIsRefusedBack`). One below a
  millisecond is shown as "0ms", which the service refuses as well (`SettingsForm.SubMillisecondIsRefusedBack`).
- A saved form is shown again unchanged only if each duration text repeats the global text or is normal: hours, minutes
  and seconds without leading zeros, minutes and seconds below sixty, or 1 to 999 milliseconds
  (`SettingsForm.SaveThenReload`, `CanonicalDurations.CanonicalTexts`). "90m" comes back as "1h30m"
  (`SettingsForm.NinetyMinutesReload`).
- `ParseHHMM` also accepts signed halves such as "+5:30" (`Window.ParseAccepts`, `Window.SignedHalfIsAnotherText`).
- A batch size of 2^62 or more makes every non-empty cycle count as a backlog (`Interval.BacklogTest`,
  `Scenarios.HugeBatchHalves`).
- A base below 4ns, which validation accepts, can bring an interval to zero (`Scenarios.TinyBaseReachesZero`,
  `Interval.ZeroIsReachable`).
- A negative batch size, which validation refuses but the merge does not, makes a cycle panic when there is something to
  search (`Runs.PanicCondition`, `Scenarios.NegativeBatchPanics`).
- A search whose cooldown could not be recorded may be repeated within the period (`Scenarios.UnrecordedMayRepeat`).
- A history record dated after the time its poll stored is logged again by the next poll that still finds it
  (`Polling.RepeatedExactlyWhenLate`, `Scenarios.LateRecordIsRepeated`).
- Swapping two search-window bounds that denote the same minute does not give the complement: both windows are empty
  (`Window.SwapIsComplement`).

## Model

| member | source | states |
|---|---|---|
| Budget.CountIsOfThisHour | internal/scheduler/scheduler.go:205-210 | In every execution from New the count equals the IDs in successful search commands since the last reset; all those cycles belong to ticks of the hour ending at the reset time, everything earlier belongs to an earlier hour or a previous process, and each batch was let in while the count was still below its limit. |
| Budget.CountIsBounded | internal/scheduler/scheduler.go:238-246 | Under arbitrary settings changes the count never exceeds limit + batch - 1 of the last cycle that added to it: no later cycle sent anything, and no restart follows it. |
| Budget.ConstantBudget | internal/scheduler/scheduler.go:286-300 | With a constant limit L >= 1 and batches of at most B the count never exceeds L + B - 1 in any execution. |
| Scenarios.BudgetIsTight | internal/scheduler/scheduler.go:238-300 | That bound is attained, for every limit and batch size, by a life of the daemon: a tick over L instances admits L - 1 single searches and then a whole batch. |
| Budget.BoundaryIsNext | internal/scheduler/scheduler.go:694-696 | The reset time is the first full hour strictly after t, at most an hour away. |
| Schedules.ScheduleInvariant | internal/scheduler/scheduler.go:255-300 | In every execution each entry is keyed by its own instance, disabled entries have zero interval and next time, enabled intervals lie in [0, 4 * maximum]. |
| Schedules.CycleInRange | internal/scheduler/scheduler.go:287-296 | Under arbitrary base changes no interval computation wraps: each is the step over unbounded integers, within range. |
| Schedules.IntervalLaw | internal/scheduler/scheduler.go:286-300 | In any execution a committed cycle without candidates doubles the stored interval up to four times the base, one with more than two batches of them halves it down to a quarter, and any other sets it to the base, whatever was stored. |
| Schedules.IntervalsArePositive | internal/scheduler/scheduler.go:287-300 | When every base was at least 4ns, every enabled entry's interval is positive, in every execution. |
| Scenarios.TinyBaseReachesZero | internal/scheduler/scheduler.go:287-300 | Some life at a constant base brings an enabled entry to interval zero iff the base is below 4ns; validation accepts such a base. |
| Schedules.EntryPersists | internal/scheduler/scheduler.go:255-311 | An entry changes only in its own instance's sections, when its instance is no longer listed, or on a restart. |
| Schedules.CyclesAreSpaced | internal/scheduler/scheduler.go:267-301 | Two consecutive cycles of an instance not seen disabled or unlisted in between: the second starts no earlier than the first ended plus the interval computed then, and continues from that interval. |
| Schedules.CyclesStayInWindow | internal/scheduler/scheduler.go:271-282 | Every cycle of every execution runs for an enabled instance, at a minute inside the circular window its settings describe. |
| Schedules.ReenabledIsDue | internal/scheduler/scheduler.go:255-291 | An instance seen disabled is due at once afterwards and its previous interval is the base. |
| Schedules.ConstantBaseBand | internal/scheduler/scheduler.go:287-300 | While an instance's base stays the same, every interval computed for it lies in [base/4, 4*base], in every execution. |
| Schedules.PhasesAreSpaced | internal/scheduler/scheduler.go:319-325 | Within one process prunings are more than a day apart and polls of the histories more than five minutes. |
| Schedules.IntervalFollowsFindings | internal/scheduler/scheduler.go:286-300 | In any execution the stored interval at a steady base is the step iterated over what the instance's own cycles found, whatever else ran in between. |
| Schedules.IntervalConverges | internal/scheduler/scheduler.go:613-632 | So n cycles bring it into the band once 2^n covers the ratio, in any execution. |
| Schedules.EntryOrigin | internal/scheduler/scheduler.go:286-300 | Every enabled entry equals the schedule of a committed cycle: next time = cycle end + interval. |
| Schedules.SnapshotIsAtomic | internal/scheduler/scheduler.go:179-199 | No snapshot at any point of any execution shows a cycle's new schedule (its instance's ID and name, the cycle's end plus its interval, that interval, enabled) without that cycle's searches in its count, unless the count was reset since. |
| Interval.StepStaysInRange | internal/scheduler/scheduler.go:613-632 | For bases the settings can produce and intervals the scheduler can hold nothing wraps and the result can be held again. |
| Interval.StepStaysPositive | internal/scheduler/scheduler.go:613-632 | The result is zero exactly for a backlog from 1ns at a base below 4ns. |
| Interval.StepCases | internal/scheduler/scheduler.go:613-632 | The step case by case: doubled up to four bases, halved down to a quarter, or the base whatever came before. |
| Interval.BacklogTest | internal/scheduler/scheduler.go:622-622 | The test totalItems > batchSize*2 on int64 agrees with the mathematical one exactly when the product does not wrap into disagreement. |
| Scenarios.HugeBatchHalves | internal/scheduler/scheduler.go:622-628 | For every batch size validation accepts, a life with one missing item and the default base halves the interval iff the batch size is 2^62 or more. |
| Interval.BandIsClosed | internal/scheduler/scheduler.go:613-632 | The band [base/4, 4*base] is closed under all three outcomes. |
| Interval.BandIsReached | internal/scheduler/scheduler.go:613-632 | From any positive interval and under any outcomes n cycles reach the band once 2^n covers the ratio. |
| Interval.ZeroIsReachable | internal/scheduler/scheduler.go:287-296 | Starting from the base, some outcomes bring the interval to zero iff the base is below 4ns. |
| Interval.EmptyCycles | internal/scheduler/scheduler.go:615-621 | n >= 1 empty cycles give min(2^n * p, 4*base). |
| Interval.BacklogCycles | internal/scheduler/scheduler.go:622-628 | n >= 1 backlog cycles give max(p / 2^n, base/4) in integer division. |
| Window.WindowIsCircular | internal/scheduler/scheduler.go:635-656 | A minute is allowed iff its offset from the start, modulo a day, is less than the end's. |
| Window.WindowSize | internal/scheduler/scheduler.go:635-656 | Exactly (end - start) mod 1440 minutes of a day are allowed. |
| Window.AlwaysOpen | internal/scheduler/scheduler.go:636-651 | Every minute is allowed iff a bound is empty or malformed. |
| Window.SwapIsComplement | internal/scheduler/scheduler.go:653-656 | Swapping the bounds gives the complement iff they denote different minutes. |
| Window.ParseAccepts | internal/settings/settings.go:95-108 | The parser accepts exactly the two-digit times and those with a signed one-digit half, and every text the form accepts. |
| Window.ParsedMinute | internal/settings/settings.go:95-108 | An accepted text denotes sixty times its first half plus its second. |
| Window.ParseInvertsPrint | web/static/js/settings.js:13-16 | Printing a minute of the day in two digits gives a text of the form's grammar that parses back to it. |
| Window.PrintInvertsParse | internal/settings/settings.go:95-108 | Printing a parsed minute gives the text back iff the text is in the form's grammar. |
| Window.SignedHalfIsAnotherText | internal/settings/settings.go:95-108 | "+5:30" and "05:30" parse to the same minute; the form accepts only the second. |
| CooldownSafety.CooldownIsRespected | internal/scheduler/scheduler.go:518-570 | In every execution, if a search of an item was recorded at t1, any later search of it on that instance has its cooldown check at or after t1 plus the whole seconds of the period in force, and in clock time later than t1 plus the period less a second and a millisecond, whatever failures, pruning, settings changes and restarts lie between. |
| CooldownSafety.CooldownIsEarned | internal/scheduler/scheduler.go:518-541 | When an answered cycle sends less than a full batch, every candidate it left out was searched and recorded on that instance less than the period before its check, or was in the table the execution started with. |
| Scenarios.UnrecordedMayRepeat | internal/scheduler/scheduler.go:567-570 | A failed recording starts no cooldown: a life of the daemon under the default settings whose next cycle, half an hour later, repeats the item within its one-day period. |
| Cooldown.CooldownTable.FilterCoolingDown | internal/cooldown/sqlite.go:23-69 | Returns each listed item with a stamp newer than now minus the whole seconds of the period, once, and nothing else; fails only if the query does. |
| Cooldown.CoolingInClockTime | internal/cooldown/sqlite.go:40-48 | A row stamped at t cools until t plus the period less at most a second and a millisecond, and never from t plus the period on. |
| Cooldown.UncooledSplits | internal/scheduler/scheduler.go:667-679 | Leaving out the cooling items works element by element, so order and repetitions stay. |
| Cooldown.UncooledOne | internal/scheduler/scheduler.go:667-679 | One item is left out iff it is cooling. |
| Cooldown.CooldownTable.RecordSearches | internal/cooldown/sqlite.go:72-109 | Stamps every item or, on any failure, none. |
| Cooldown.CooldownTable.DeleteExpired | internal/cooldown/sqlite.go:112-124 | Removes exactly the rows older than the retention and reports how many. |
| Cooldown.PrunedInClockTime | internal/cooldown/sqlite.go:112-124 | Rows older than the retention by a millisecond go, rows not older stay, and none changes. |
| Cooldown.RecordedAt | internal/cooldown/sqlite.go:72-109 | Each recorded item ends with a stamp no earlier than the one read for it. |
| Cooldown.RecordedFrom | internal/cooldown/sqlite.go:86-103 | Every row afterwards is an old one or carries the stamp read for its item in the batch. |
| Cooldown.RecordedElsewhere | internal/cooldown/sqlite.go:72-109 | No other row changes. |
| Cooldown.PruningIsInvisible | internal/cooldown/sqlite.go:112-124 | Pruning changes no later answer iff the period's whole seconds are within the retention's. |
| Cooldown.ResolvedPeriodsSurvivePruning | internal/scheduler/scheduler.go:40-40 | Every period the settings can resolve to meets that condition for the scheduler's retention. |
| Pruning.PruningNeverShows | internal/scheduler/scheduler.go:436-467 | Any life of the daemon, restarts included, and the same life with every deletion of expired rows failing send the same commands at the same times and agree on every schedule, count, poll and logged record. |
| Pruning.CycleAlike | internal/scheduler/scheduler.go:518-541 | A cycle decides the same over the pruned and the unpruned table. |
| Phases.TickPrunes | internal/scheduler/scheduler.go:436-467 | A tick that goes on, more than a day after the last pruning and with the activity log pruned, deletes every cooldown row older than ninety days by a millisecond if the call succeeds and counts as done either way; no other row goes. |
| Polling.LastPolledAdvances | internal/arr/pollstate_sqlite.go:52-67 | The stored poll time of an instance never decreases, in any execution. |
| Polling.LaterPollsLogLaterRecords | internal/scheduler/scheduler.go:339-379 | After a stored poll, later polls of the instance log only records dated after the stored time. |
| Phases.EveryInstanceIsPolled | internal/scheduler/scheduler.go:331-379 | The poll loop polls every instance it reaches with its calls answered exactly once, from its stored time or a day back, logging what the fetched pages give, and stores the new time exactly if storing succeeds; any other instance is not polled and keeps its time. |
| Phases.TickPolls | internal/scheduler/scheduler.go:318-336 | A tick does so exactly when it goes on and the last poll of the histories is more than five minutes ago. |
| Polling.LoggedAtMostOnce | internal/scheduler/scheduler.go:339-379 | If no record of a stored poll is dated after its stored time, none of them is logged by any later poll of the instance. |
| Polling.NextPollStartsThere | internal/scheduler/scheduler.go:340-353 | In any execution the next poll of an instance after a stored one starts from the stored time. |
| Polling.RepeatedExactlyWhenLate | internal/arr/history.go:249-279 | In any execution, of two consecutive polls of an instance over the same imports, the first of them stored, the second logs a record again iff the first logged one dated after the time it stored. |
| Scenarios.LateRecordIsRepeated | internal/scheduler/scheduler.go:339-379 | Such a life of the daemon: two ticks an hour apart, each polling and storing its time, log the same late record. |
| PollState.PollTable.LastPolled | internal/arr/pollstate_sqlite.go:29-49 | The stored time, the zero time for an instance never polled, or the query's failure. |
| PollState.PollTable.RecordPoll | internal/arr/pollstate_sqlite.go:52-67 | Overwrites that instance's time alone, or nothing on failure. |
| History.UpgradedItems | internal/arr/history.go:241-266 | The map holds, for each item, the file of its first qualifying upgrade deletion, and no other item. |
| History.FirstDeletionMeaning | internal/arr/history.go:248-261 | An item has an entry iff the page lists a qualifying upgrade deletion of it; the entry describes the first. |
| History.MergePages | internal/arr/history.go:268-305 | The loops over event types and pages build one record per qualifying import ID over all pages in order; any failed import page fails the whole. |
| History.FlattenSplits | internal/arr/history.go:268-305 | Pages are merged one after the other, in their own order. |
| History.FlattenOne | internal/arr/history.go:268-305 | One page is merged as it is. |
| History.DedupKeepsFirsts | internal/arr/history.go:278-282 | What is kept has distinct IDs, is dated after `since`, and misses no qualifying ID. |
| History.SortNewestFirst | internal/arr/history.go:307-313 | The array is sorted in place into the specified order. |
| History.CompactNewestPerItem | internal/arr/history.go:349-361 | The in-place compaction leaves the first record of each non-zero item, and every record without an item, in order. |
| History.FetchArrHistory | internal/arr/history.go:233-347 | The whole fetch before file enrichment: a missing delete page only disables upgrade flags, a missing import page fails. |
| HistoryShape.SortedSorts | internal/arr/history.go:307-313 | For distinct IDs the sort gives a strictly newest-first permutation. |
| HistoryShape.OrderIsUnique | internal/arr/history.go:307-313 | A strictly newest-first list is determined by its members, so the choices of an unstable sort cannot show. |
| HistoryShape.ReductionMembers | internal/arr/history.go:349-361 | The reduction keeps exactly the (date, ID)-maximum of each item and every record without an item. |
| HistoryShape.FetchedShape | internal/arr/history.go:233-314 | The result is strictly descending in (date, ID), dated after `since`, with distinct IDs, every item of a qualifying import exactly once with its newest record, every record without an item kept. |
| HistoryFields.EpisodeHistory | internal/arr/history.go:233-314 | For episodes, on the raw fields: each returned record is the first qualifying import of its ID, with that import's own fields; it is flagged iff a deletion for upgrade after `since` carries its episode ID, with the first such file as previous; records descend; no episode occurs twice; every qualifying import is stood for by a record of its episode that is no older. |
| HistoryFields.MovieHistory | internal/arr/history.go:103-114 | The same for movies, by movie ID. |
| HistoryFields.AlbumHistory | internal/arr/history.go:103-114 | The same for albums, by album ID. |
| HistoryFields.OtherHistory | internal/arr/history.go:103-114 | Where records have no item every first qualifying import is returned. |
| HistoryFields.DedupIsFirsts | internal/arr/history.go:278-282 | What is kept of the imports are exactly the first qualifying ones of each ID. |
| HistoryShape.UpgradeFlags | internal/arr/history.go:241-304 | A returned record is flagged iff the delete page lists a qualifying upgrade deletion of its item; its previous file is that of the first. |
| HistoryShape.FetchIsOrderIndependent | internal/arr/history.go:268-314 | With the delete page fixed and records of equal ID identical, the result depends on the set of import records alone. |
| HistoryShape.LaterFetchIsFilter | internal/arr/history.go:278-314 | Fetching the same imports from a later time returns exactly the earlier records dated after it. |
| Quality.Rank | internal/arr/quality.go:4-24 | The rank of a quality is the position of the last allowed entry that mentions it, directly, as its group ID or as a member. |
| Quality.RankIsRankedAt | internal/arr/quality.go:4-24 | The rank is the position of the last allowed entry whose quality, or group ID and members, include it. |
| Quality.QualityRank | internal/arr/quality.go:4-24 | The index built by the loop agrees with the rank on every quality, known or not. |
| Quality.CutoffRank | internal/arr/quality.go:27-32 | The rank of the profile's cutoff, or -1 when it is not allowed. |
| Quality.LowestRank | internal/arr/quality.go:79-93 | The least rank among an item's known qualities, -1 iff none is known. |
| Quality.LowestDecides | internal/arr/quality.go:90-103 | Comparing the cached lowest rank with the cached cutoff decides the plain definition and the category. |
| Quality.FilterUpgradeable | internal/arr/quality.go:35-108 | The cached filter returns exactly the items of the plain definition, and each counter is its category's tally. |
| Quality.UpgradeableMeaning | internal/arr/quality.go:58-104 | On the fields: an item is upgradeable iff it has a file, is monitored, its profile is fetched and allows upgrades, and some quality of its files ranks below the profile's allowed cutoff. |
| Quality.CountersMeaning | internal/arr/quality.go:55-106 | Each counter is the number of items its name says, the exclusions applying in that order. |
| Quality.ProfileMapMeaning | internal/arr/service.go:127-150 | A profile ID maps to the last fetched profile with it. |
| Quality.FilterMissing | internal/arr/quality.go:111-124 | Exactly the missing items, in order. |
| Quality.MissingSplits | internal/arr/quality.go:111-124 | They are found element by element, in library order. |
| Quality.MissingOne | internal/arr/quality.go:113-121 | One item is missing iff it is monitored and has no file, and is reported by its own ID, name and path. |
| Quality.CategoriesPartition | internal/arr/quality.go:55-106 | The seven category counts sum to the library. |
| Quality.ClassifySelects | internal/arr/quality.go:60-103 | The cascade of exclusions leaves exactly the items the definition selects. |
| Quality.UpgradeableInOrder | internal/arr/quality.go:58-107 | An item is returned iff the definition holds of it, once per position, in library order. |
| Quality.UpgradeableWith | internal/arr/service.go:127-150 | Both filters over the profiles by ID, or failure if either fetch fails. |
| Quality.CandidateMeaning | internal/scheduler/scheduler.go:492-516 | An ID is a candidate iff some monitored library item with it either has a file whose upgrade is due, or has none and missing items are wanted. |
| Quality.UpgradesComeFirst | internal/scheduler/scheduler.go:492-495 | Up to some position every candidate has a file, from there on none has. |
| Quality.CandidatesAreDistinct | internal/scheduler/scheduler.go:492-516 | Distinct library IDs give distinct candidates: nothing is both upgradeable and missing. |
| TickSpec.CycleMeaning | internal/scheduler/scheduler.go:470-588 | What a cycle reports: the candidates it fetched, the first batch of the uncooled ones sent when every call succeeds, nothing sent otherwise, all or nothing stamped. |
| Machine.SentMeaning | internal/scheduler/scheduler.go:518-541 | In any execution a cycle sends candidates only, at most a batch of them, none in cooldown at its check. |
| TickSpec.SearchedItemsQualify | internal/scheduler/scheduler.go:470-588 | Every ID in a search command is that of a monitored library item that has a file whose upgrade is due, or has none while missing items are wanted, and was not in cooldown. |
| TickSpec.CycleIsGuarded | internal/scheduler/scheduler.go:284-300 | Whenever a cycle commits, the machine's guard holds: limit not met, due, within the window, batch within size, nothing sent in cooldown. |
| TickSpec.TickReaches | internal/scheduler/scheduler.go:202-315 | Every tick, whatever fails in it, is a sequence of critical sections run where their guards hold. |
| Runs.LifeIsExecution | internal/scheduler/scheduler.go:151-176 | Every sequence of ticks and process restarts on a non-decreasing clock is an execution of the machine. |
| Runs.CompletedTickKeepsListed | internal/scheduler/scheduler.go:303-311 | After a tick that gets past the instance loop every entry is that of a listed instance. |
| Runs.EveryDueInstanceIsCycled | internal/scheduler/scheduler.go:233-301 | A listed instance that is enabled, due and within its window gets its cycle iff the loop reaches its turn with the context live and the count below the limit, and its own cycle does not panic; otherwise it is passed over. |
| Turns.TurnDecides | internal/scheduler/scheduler.go:233-301 | An instance's entry after the instance loop is as its own turn left it, or as before the loop if it had none. |
| Turns.DisabledIsShown | internal/scheduler/scheduler.go:255-261 | A listed instance that resolves to disabled shows, after the loop, the entry with its ID and name, no next time, interval zero and not enabled, exactly if the loop reached its turn with the context live and the count below the limit. |
| Turns.OthersKeepTheirEntry | internal/scheduler/scheduler.go:247-282 | An instance that is not due, is outside its window, or whose settings cannot be loaded keeps its entry. |
| Turns.CycledIsShown | internal/scheduler/scheduler.go:284-300 | A due instance with a turn shows the end of its own cycle plus the interval computed then, under its own settings and the tick's limit; if the cycle panics it keeps its entry. |
| Turns.LoopGoesOn | internal/scheduler/scheduler.go:233-301 | With the context live throughout, only a panic keeps the tick from retaining, polling and pruning: meeting the hourly limit does not. |
| Turns.EndedContextStops | internal/scheduler/scheduler.go:234-236 | When the context has ended at an instance's turn the tick ends there. |
| Turns.FailedTickStops | internal/scheduler/scheduler.go:212-226 | A tick that cannot load the global settings or list the instances ends there. |
| Turns.TickShowsItsLoop | internal/scheduler/scheduler.go:303-315 | A tick that goes on leaves the listed instances' entries and the count as its loop did, and no other entry. |
| Turns.ReenabledIsCycled | internal/scheduler/scheduler.go:255-301 | Over a life: an instance that one tick showed disabled is cycled by the next tick that finds it enabled, inside its window and with a turn. |
| Runs.PanicCondition | internal/scheduler/scheduler.go:539-541 | A cycle panics iff the batch size is negative and some candidate is uncooled when every fetch succeeded. |
| Scenarios.NegativeBatchPanics | internal/settings/service.go:115-116 | A stored "-1" is refused by validation but resolved as it stands, and the first tick with something to search panics. |
| Runs.ValidatedNeverPanics | internal/settings/service.go:181-216 | When every stored row passed validation no instance loop panics. |
| Runs.ServiceSettingsNeverPanic | internal/settings/service.go:56-108 | No life of a daemon whose settings are written only through the service, by any writes at any time, ever panics. |
| Sweep.UncooledDropsPrefix | internal/scheduler/scheduler.go:667-679 | When exactly the first m uncooled items have become cooling, exclusion leaves the rest, in order. |
| Sweep.SweepCoversInOrder | internal/scheduler/scheduler.go:513-588 | In any execution, over one duplicate-free candidate list of an instance with its calls succeeding and no row expiring, its k-th cycle sends exactly the k-th slice of the initially uncooled candidates, whatever other instances, polls, pruning or restarts do in between. |
| Sweep.SweepIsExact | internal/scheduler/scheduler.go:513-588 | In the same executions each candidate is sent at most once, and after ceil(n/B) cycles all of them, in list order. |
| Sweep.LivesSweep | internal/scheduler/scheduler.go:151-176 | Both hold over any stretch of any life of the daemon. |
| SchedulerEngine.ExcludeIDs | internal/scheduler/scheduler.go:667-679 | Keeps exactly the elements not excluded, duplicates and order included. |
| SchedulerEngine.ExcludingCooling | internal/scheduler/scheduler.go:518-526 | Excluding the listed cooling items leaves the uncooled ones in order, whatever order the query listed them in. |
| SchedulerEngine.Scheduler.Create | internal/scheduler/scheduler.go:125-148 | Rejects a non-positive tick interval; otherwise a scheduler with no entries, a zero count and the next hour as reset time. |
| SchedulerEngine.Scheduler.Status | internal/scheduler/scheduler.go:179-199 | The counts as they are and every schedule exactly once, ordered by instance name; nothing changes. |
| SchedulerEngine.NameOrder | internal/scheduler/scheduler.go:193-195 | In that order a prefix comes first, otherwise the first byte that differs decides. |
| SchedulerEngine.Scheduler.RunTicks | internal/scheduler/scheduler.go:151-176 | The loop is the fold of the tick over its inputs, on fields and trace. |
| SchedulerEngine.Scheduler.Tick | internal/scheduler/scheduler.go:202-315 | Fields, tables and the trace of critical sections after a tick are those of the tick's function. |
| SchedulerEngine.Scheduler.CycleInstances | internal/scheduler/scheduler.go:233-301 | The instance loop with its three ways to end. |
| SchedulerEngine.Scheduler.CommitCycle | internal/scheduler/scheduler.go:286-300 | The new schedule and the searches appear in one section; nothing else changes. |
| SchedulerEngine.Scheduler.RunInstanceCycle | internal/scheduler/scheduler.go:470-588 | Changes the cooldown table alone, and only by stamping exactly what its search command sent. |
| SchedulerEngine.Scheduler.RetainListed | internal/scheduler/scheduler.go:303-311 | Deleting while ranging in any order leaves exactly the listed entries, unchanged. |
| SchedulerEngine.Scheduler.PollUpgradeHistory | internal/scheduler/scheduler.go:318-336 | Polls the instances in order at most once per interval, until the context ends. |
| SchedulerEngine.Scheduler.PollInstanceHistory | internal/scheduler/scheduler.go:339-379 | One poll: a day's lookback the first time, nothing stored when the state or the fetch fails. |
| SchedulerEngine.Scheduler.PruneActivityLog | internal/scheduler/scheduler.go:436-467 | Once a day; a failed activity prune leaves everything for the next tick, a failed deletion does not. |
| Settings.ApplyOverrides | internal/settings/service.go:111-170 | Overwriting fields row by row gives, for every field, the last valid row's value or what was there. |
| Settings.LastValidMeaning | internal/settings/service.go:111-170 | The value that wins is that of the last row for the key whose value is not skipped, and only that. |
| Settings.OverlayConcat | internal/settings/service.go:24-40 | Applying two layers in turn is applying their concatenation. |
| Settings.OverlayIdempotent | internal/settings/service.go:111-170 | Applying the same rows again changes nothing. |
| Settings.ResolveBounded | internal/settings/service.go:121-146 | Whatever is stored, both durations resolve to a value in (0, maximum]. |
| Settings.ValidatedIsVerbatim | internal/settings/service.go:173-216 | A validated value is applied exactly as spelled, never skipped or clamped; counts are at least one. |
| Settings.RefusedValues | internal/settings/service.go:173-216 | Validation refuses exactly what the merge would skip or clamp, counts below one and malformed times of day. |
| SettingsStore.GlobalFields | internal/settings/service.go:111-170 | Each global field is what its own key's stored text says: a text that says nothing leaves the default, a duration beyond its maximum is cut to it. |
| SettingsStore.InstanceFields | internal/settings/service.go:24-40 | Each instance field is what its own key's instance text says in the same way, over the global field. |
| SettingsStore.Repository.List | internal/settings/sqlite.go:24-90 | Exactly one layer's rows, one per key. |
| SettingsStore.Repository.UpsertBatch | internal/settings/sqlite.go:159-168 | All the entries or, wherever a statement or the commit fails, none. |
| SettingsStore.UpsertMeaning | internal/settings/sqlite.go:93-168 | A slot holds the value of the last row written to it, or what it held. |
| SettingsStore.Repository.DeleteBatch | internal/settings/sqlite.go:193-219 | Removes exactly the listed keys of one layer, or none on failure. |
| SettingsStore.DeleteMeaning | internal/settings/sqlite.go:171-219 | Exactly the listed slots of that layer are emptied. |
| SettingsStore.Service.Resolve | internal/settings/service.go:24-40 | The instance's own valid value, else the global one, else the default, on every key; fails iff a query fails. |
| SettingsStore.Service.ResolveGlobal | internal/settings/service.go:43-53 | The same without the instance layer. |
| SettingsStore.Service.Set | internal/settings/service.go:56-68 | Unknown key, then invalid value, then storage failure leave the store alone; otherwise that slot is written. |
| SettingsStore.Service.SetBatch | internal/settings/service.go:71-90 | The first refused entry decides the error; every failure leaves the store as it was. |
| SettingsStore.BatchErrorMeaning | internal/settings/service.go:72-79 | The error is that of the first refused entry, for an unknown key before its value is looked at. |
| SettingsStore.Service.Remove | internal/settings/service.go:93-98 | Removes that one slot, or leaves the store alone on an unknown key or a failure. |
| SettingsStore.Service.RemoveBatch | internal/settings/service.go:101-108 | Removes the listed slots of that layer together, or leaves the store alone. |
| SettingsStore.ListedLookup | internal/settings/service.go:111-170 | The order in which a layer's rows are listed cannot matter. |
| SettingsStore.ListedResolve | internal/settings/service.go:24-40 | The fold over listed rows is the pointwise lookup of own value, global value, default. |
| SettingsStore.BatchErrorFindsRefused | internal/settings/service.go:72-79 | A batch passes iff each of its entries does. |
| SettingsStore.WritesKeepSound | internal/settings/service.go:56-108 | Every sequence of service writes from an empty store leaves validated rows alone. |
| SettingsStore.WrittenSettingsAreVerbatim | internal/settings/service.go:56-108 | After any such writes batch size and search limit are at least one and no row is skipped or clamped. |
| SettingsStore.WritesAreIsolated | internal/settings/service.go:71-108 | Writing one instance's settings changes no other instance's result, nor the global one. |
| SettingsForm.SaveInstanceSettings | web/static/js/settings.js:187-277 | The page's save is the PUT of the differing keys followed by the DELETE of the matching ones, skipping empty requests and stopping at a failure. |
| SettingsForm.SplitMembers | web/static/js/settings.js:232-243 | Every key goes to exactly one of the two lists, by whether its text differs from the global text. |
| SettingsForm.SavedSlot | web/static/js/settings.js:187-277 | After a successful save the instance overrides exactly the differing keys, with the form's texts; every other slot is as before. |
| SettingsForm.SavedFields | web/static/js/settings.js:187-243 | By field: under each key a successful save leaves the form's own field if it differs from the global one, and nothing otherwise. |
| SettingsForm.FormTextsAreTheForm | web/static/js/settings.js:192-230 | The seven texts determine the form but for its search limit. |
| SettingsForm.UnloadedGlobals | web/static/js/settings.js:189-230 | Before the global values are loaded counts and switches always differ, texts unless empty. |
| SettingsForm.FailedSave | web/static/js/settings.js:245-277 | A save that does not succeed changed nothing, or did its PUT and nothing else. |
| SettingsForm.ResponseParsesBack | internal/api/settings.go:42-53 | The response's durations parse back to the settings at the printed precision, and every other field is as resolved. |
| SettingsForm.OverrideShows | internal/api/settings.go:42-53 | A validated override shows its own text again iff it is not a duration or its text is normal: no leading zeros, fewer than sixty minutes and seconds, or 1 to 999 milliseconds. |
| SettingsForm.InheritedShows | internal/api/settings.go:42-53 | A key without an override shows the global text. |
| SettingsForm.SaveThenReload | web/static/js/settings.js:187-277 | Saving and reloading shows the saved form on all seven keys iff each duration text repeats the global text or is normal; no override repeats the global text and no other slot changes. |
| SettingsForm.NinetyMinutesReload | web/static/js/settings.js:187-277 | A save of "90m", which the form accepts, succeeds and is shown as "1h30m". |
| SettingsForm.HalfSecondIsRefusedBack | internal/api/settings.go:56-79 | "500ms" is accepted for either duration key and resolves to half a second, and the page then shows a text its own grammar refuses. |
| SettingsForm.SubMillisecondIsRefusedBack | internal/api/settings.go:56-79 | Any positive duration below a millisecond is accepted, for either duration key, and then shown as "0ms", which neither the form nor the service accepts. |
| Durations.FormatDuration | internal/api/settings.go:56-79 | Built piece by piece, the text lists the non-zero hours, minutes and seconds of d's whole seconds, the milliseconds of a d below a second, nothing for a negative d. |
| Durations.EmptyText | internal/api/settings.go:56-79 | The text is empty iff the duration is negative. |
| Durations.ParseInvertsFormat | internal/api/settings.go:56-79 | Parsing the printed text gives d rounded down to a second, or to a millisecond below one second. |
| Durations.PrintedIsCanonical | internal/api/settings.go:56-79 | Printing again what was parsed from a printed text gives the same text iff d is zero or at least a millisecond. |
| CanonicalDurations.CanonicalTexts | internal/api/settings.go:56-79 | Any text is printed back unchanged after parsing iff it parses and is "0s", a normal clock text or 1 to 999 milliseconds without leading zeros. |
| CanonicalDurations.CanonicalParts | web/static/js/settings.js:7-10 | A text of the form's grammar comes back unchanged iff it is "0s", or its parts, in their one split, have no leading zeros, fewer than sixty minutes and seconds, and fit in int64. |
| CanonicalDurations.NinetyMinutes | web/static/js/settings.js:7-10 | "90m" is in the grammar and means ninety minutes, but is not normal and prints as "1h30m". |
| Durations.FormAcceptsPrinted | web/static/js/settings.js:7-10 | The printed text is in the form's grammar iff d is zero or at least a second. |
| Durations.GrammarParses | web/static/js/settings.js:7-10 | Every non-empty text of the form's grammar parses on the server to what it says, or exceeds int64. |

## Left out

- Durations.FormatDuration: `Hours()`, `Minutes()` and `Seconds()` are taken as exact integer quotients, not as float64; exact for durations within the 90-day maximum.
- Text.ParseDuration: the fraction of a segment is scaled in integers, rounding down, where Go scales it in float64.
- Strings are Go byte strings, one `char` per byte; the page's JavaScript strings and numbers are taken as the same texts and integers.
- SQL text, drivers and transactions: each table is a map, a transaction is all or nothing with an explicit point of failure, and rows that a deleted instance takes with it are not modelled.
- The context, HTTP, fetched pages and the clock are inputs. The clock never goes back, and the stamps of one recording are readings of it between the cooldown check and the cycle's end.
- In `Machine` a cycle's recorded stamps become visible with its commit; no other section reads the cooldown table in between.
- A process killed inside a cycle is not a section of its own: it leaves the tables as a commit followed by a restart does, the recording having failed if the kill came before it.
- History.SortNewestFirst: the standard library's sort is written as an insertion sort; by HistoryShape.OrderIsUnique any correct sort gives the same result.
- History.CompactNewestPerItem: the cells after the kept ones, which the standard library clears, are left unspecified.
- HistoryShape.FetchedShape: the result before file enrichment, which fills fields but changes neither the selection, nor the order, nor the flags; labels, posters and detail paths are omitted, and the case-insensitive test of a deletion's reason is reduced to its outcome.
- SchedulerEngine.Scheduler.Status: the `running` flag is omitted, and the order of entries with equal names is unspecified, as in the source.
- What is written to the activity log, logging, and the labels in it; its own pruning appears only as a call that may fail.
- SettingsForm.SaveInstanceSettings: the page's validation before saving, its other tabs and resetting to defaults are omitted; the API handlers are taken to pass requests through to the settings service.
- The manual search-cycle endpoint, which bypasses cooldowns and the hourly count by design.
- Exactly-once logging of history: pages are limited in size and the poll time is stored after the fetch, so only the at-most-once half is a property of the code.
- Configuration, encryption, migrations, instance management and the dashboard.
