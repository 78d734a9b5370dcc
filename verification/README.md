# Clock Relay: a verified model of its run store, schedule table and run log

Clock Relay is a scheduler: it keeps schedules, fires them through a cron
library, and records every run. This Dafny project models the parts where it
keeps several things in step and proves that they stay in step.

- **Run store.** `BoltStore` answers everything from two ordered indexes and a
  stored count; `MemoryStore` answers by scanning and sorting a map. Both are
  classes with the source's loops. The indexed store is proved to behave, over
  whole histories, in a way the scanning store could have behaved
  (`StoreSpec.dfy`, `Agreement.dfy`), with pruning specified once, without
  sorting, in `Retained.dfy`. The index keys are real text: `TimeKey.dfy` goes from
  nanosecond instants through the Gregorian calendar to the 26-character key
  and back.
- **Engine.** The schedule table, its persisted copy and the cron's entries
  (`Engine.dfy`), with every store and cron call allowed to fail. A one-time
  schedule is followed over every history of edits in `OnceOnly.dfy`, and
  `EngineRuns.dfy` plays such histories on the engine.
- **Run log.** `Lifecycle.dfy` interleaves the steps of triggers, executions,
  counting and pruning; `Rate.dfy` is the 64-bit arithmetic of rate schedules.
- **Headers.** `Headers.dfy` parses and prints the header text of the edit form.

## How to read the model

- Strings are sequences of code points; comparing them by code point is
  comparing their UTF-8 bytes. An instant is a number of nanoseconds since year
  0000 in UTC.
- A bucket is a finite map, a cursor walks its sorted keys, and a transaction
  either commits or leaves the store alone (`commits` is an input). Encoding a
  run as JSON is the identity, except that it refuses start times outside the
  years 0000 to 9999; bbolt refuses an empty key and one of more than 32768
  bytes. The memory store accepts such runs: the two stores agree exactly on
  histories that save none of them.
- The memory store's sort is unstable, so its contract leaves the order of
  ties open. The indexed store breaks ties by id.
- The run store is given schedule names without NUL characters, which the
  engine's validation guarantees (`Schedules.AcceptedNameHasNoNul`).
  `RunIndex.SeekExactly` says what the running check decides for any stored
  names, and `RunIndex.NulNameMisleads` gives the stores for which it is wrong.
- Run ids may repeat in the run log machine, as they do when a schedule fires
  twice in one minute or a one-time schedule is moved away and back. The cadence
  and the overlap bounds hold all the same. Conservation asks for fresh ids and
  for a log that is not cleared, in its `requires`; `Lifecycle.SaveCounts` shows
  exactly when a save keeps the count right. Store calls succeed.
- `DeleteSchedule` lets go of the schedule in memory before the store can fail,
  and its contract says so: memory and disk agree afterwards exactly when the
  write succeeded. A later `SaveSchedule` that fails still leaves memory as it
  was; it leaves the disk as it was exactly when the disk held what memory
  expected. A restart starts an empty store over from the configuration.
- Where the documentation says a one-time schedule fires once, the code keeps
  the completion mark exactly under the condition of `Schedules.MarkSurvives`,
  which an edit to another time fails. Over every history a schedule fires at
  most once more than such edits, and that many times it can fire
  (`OnceOnly.FiresOnceMoreThanRearmed`).
- The overlap bound counts running records. Executions in flight obey it only
  while their records stay: with `n` concurrent callers at most, a schedule that
  does not allow concurrent runs has at most one execution in flight in every
  history exactly when nobody calls, or when triggers are serialised, the log is
  not cleared and run ids do not repeat (`Lifecycle.OneAtATime`).
- A rejected definition that was seeded into an empty store keeps the engine from
  starting until the store is repaired, whatever the configuration then says
  (`Engine.SeedRejected`).

## Model

| member | source | states |
|---|---|---|
| StoreSpec.HistoryRefines | internal/store/store.go:28-39 | for every history of requests, the indexed store's answers and final runs are ones the scanning store could produce, if and only if no saved run has a start time JSON refuses or a key bbolt refuses |
| StoreSpec.StepRefines | internal/store/store.go:82-135 | the same for one request from any run map |
| StoreSpec.DistinctTimesAgree | internal/store/store.go:562-566 | with no two runs starting at the same instant, one request has one scan result: the indexed store's |
| StoreSpec.DistinctHistoriesAgree | internal/store/store.go:562-566 | over every history in which no two runs start at the same instant, the scanning store's answers and final runs are the indexed store's |
| StoreSpec.PlainStorable | internal/store/store.go:386-405 | which plain-text runs are stored, in numbers: start between 0000-01-01 and 10000-01-01, id of 1 to 32741 bytes, and room for the name when running |
| Agreement.ServeBoth | internal/store/store.go:28-39 | the two stores side by side: the indexed store's answers and runs are a history of the scanning store, and with distinct start times both answer and end alike |
| BoltStore.BoltStore.ServeAll | internal/store/store.go:218-417 | any sequence of requests keeps the indexes exact and gives the answers and runs of the specification |
| MemoryStore.MemoryStore.ServeAll | internal/store/store.go:82-135 | any sequence of requests is a history of the scanning store |
| BoltStore.BoltStore.Open | internal/store/store.go:145-180 | opening a file with or without its indexes establishes that indexes and count describe the runs |
| BoltStore.Reopen | internal/store/store.go:145-180 | reopening, even after losing the indexes, gives the indexes and count that the writes so far had left |
| BoltStore.BoltStore.RebuildRunIndexes | internal/store/store.go:419-445 | rebuilding from any runs bucket makes both indexes and the count exact |
| BoltStore.BoltStore.PutRun | internal/store/store.go:391-415 | replacing a run keeps indexes and count exact; the count moves by the difference, so the clamp never fires |
| BoltStore.BoltStore.WriteRun | internal/store/store.go:385-417 | a write commits whole or changes nothing, and fails exactly when JSON or bbolt refuses the run or the commit fails |
| BoltStore.BoltStore.DeleteRunByIndexedKey | internal/store/store.go:477-497 | deleting by an index entry removes the run from bucket, indexes and count; the not-found error cannot arise |
| BoltStore.BoltStore.ListRuns | internal/store/store.go:226-252 | the backwards walk lists the newest runs up to the limit, each as stored, in order of time and id |
| BoltStore.BoltStore.ExpiredVictims | internal/store/store.go:297-321 | stopping at the first unexpired key still finds every expired completed run |
| BoltStore.BoltStore.OldestVictims | internal/store/store.go:330-354 | the count scan finds exactly as many victims as the stored count says are too many, and they are the oldest |
| BoltStore.BoltStore.PruneRuns | internal/store/store.go:268-295 | the two cursor passes delete exactly the victims of the sorted closed form and report its counts; in numbers, a completed run more than `MaxAgeDays` times 24 hours old goes, without a record limit no other does, and kept, deleted and running runs add up |
| BoltStore.BoltStore.HasRunningRun | internal/store/store.go:365-379 | one Seek answers whether a stored running run has the name |
| BoltStore.BoltStore.ClearRuns | internal/store/store.go:254-266 | clearing empties the runs and keeps the indexes exact |
| BoltStore.TwoPasses | internal/store/store.go:272-286 | pruning by age and then by count is one cut through the completed runs |
| RunIndex.DescriptionUnique | internal/store/store.go:457-475 | the runs bucket determines both indexes and the count: no stale, missing or duplicate entries |
| RunIndex.ReplaceDescribes | internal/store/store.go:394-413 | removing the old entries and adding the new ones keeps both indexes and the count exact |
| RunIndex.StartedKeyOrder | internal/store/store.go:511-513 | byte order of started-at keys is the order of start time and id |
| RunIndex.StartedKeyInverse | internal/store/store.go:515-520 | the key gives back the exact instant and the id |
| RunIndex.KeysAre | internal/store/store.go:511-528 | both keys with their separators |
| RunIndex.WalkIsOrdered | internal/store/store.go:303-305 | a cursor over the started-at index visits the runs in time order, each once |
| RunIndex.PrefixIffSchedule | internal/store/store.go:522-528 | a running key carries a schedule's prefix exactly when the run is that schedule's |
| RunIndex.SeekDecidesRunning | internal/store/store.go:366-374 | the first key at or after the prefix decides whether the schedule is running |
| RunIndex.PrefixExactly | internal/store/store.go:522-528 | whatever the schedules are called, a running key carries a NUL-free name's prefix exactly when the run's schedule has that name or continues it past a NUL |
| RunIndex.SeekExactly | internal/store/store.go:366-374 | so the running check is true exactly when a running run has the name or continues it past a NUL |
| RunIndex.NulNameMisleads | internal/store/store.go:366-374 | a running run of a schedule named with a NUL after `name`, under any id, makes the check answer true for `name` when no run of it is running |
| TimeKey.TimeOrder | internal/store/store.go:26 | byte order of the formatted times is time order, for years 0000 to 9999 |
| TimeKey.ParseTimeText | internal/store/store.go:515-520 | parsing a formatted time gives it back to the nanosecond |
| TimeKey.TextOfCivil | internal/store/store.go:511-513 | an instant is written with its own calendar and clock fields |
| TimeKey.LayoutIs | internal/store/store.go:26 | the order, widths and literals of those fields |
| TimeKey.YearStartIs | internal/store/store.go:511-513 | the days before a year by the Gregorian rule, in closed form |
| Lex.SeekDecidesPrefix | internal/store/store.go:367-372 | among any keys, the one Seek finds has the prefix exactly when some key has it |
| Retained.PruneRetains | internal/store/store.go:580-617 | dropping the victims of any sorted listing keeps all running runs and the newest fresh completed ones up to the limit |
| Retained.RetainsUnique | internal/store/store.go:268-361 | with ties broken by id only one outcome is right |
| Retained.ReportIsCounts | internal/store/store.go:613-636 | the reported counts do not depend on how ties are sorted, and add up to the completed runs before |
| Retained.PruneTwice | internal/store/store.go:580-617 | a second prune with the same limits and clock deletes nothing |
| Retained.PruneByAge | internal/store/store.go:584-591 | what the retained runs are in nanoseconds: which completed runs go by age, that nothing else does without a record limit, and that running runs stay |
| Retained.PruneByCount | internal/store/store.go:593-610 | at most `MaxRecords` completed runs stay; a run within the age limit goes only when that many stay, none of them older |
| Retained.ReportMeans | internal/store/store.go:613-616 | kept is the number of completed runs left, kept and running runs are all that is left, and deleted is the number gone |
| Runs.ListMeans | internal/store/store.go:568-573 | a listing holds as many stored runs as the limit allows and leaves out none newer than one it holds |
| Runs.ListOrder | internal/store/store.go:562-566 | it is newest first, each run once, equal start times by id when the store breaks ties so |
| MemoryStore.ScanSortPrune | internal/store/store.go:580-617 | the sort, the age loop and the reverse count loop choose exactly the victims of the closed form |
| MemoryStore.DropOldest | internal/store/store.go:594-610 | the reverse walk stops with the oldest surplus completed runs added and no others |
| MemoryStore.RetainedCompletedRunCount | internal/store/store.go:625-636 | counts the completed runs that are not victims |
| MemoryStore.SortNewestFirst | internal/store/store.go:619-623 | a permutation sorted by start time alone, newest first |
| MemoryStore.MemoryStore.PruneRuns | internal/store/store.go:111-124 | removes the victims of some sorted listing; the age limit, the runs that stay and the counts are those of the indexed store's contract |
| MemoryStore.MemoryStore.ListRuns | internal/store/store.go:93-102 | lists the newest runs up to the limit, each once and as stored, newest first |
| MemoryStore.MemoryStore.HasRunningRun | internal/store/store.go:126-135 | answers whether a stored running run has the name |
| Engine.Engine.SaveSchedule | internal/engine/engine.go:175-231 | succeeds under exactly the stated conditions; then the edit is stored field by field in memory and store, with the old completion mark exactly when time and zone are kept, and nothing else changes; on error memory is as before if the old entry can be put back, and with working undo writes the disk is as before exactly when it held what memory expected |
| Engine.UndoneExactly | internal/engine/engine.go:209-214 | both undo paths leave the same saved schedules, which are those from before if and only if the original was saved as memory has it and the new name was free |
| Engine.Engine.WriteReplacement | internal/engine/engine.go:206-215 | the store half and its compensation |
| Engine.Engine.SwapSchedule | internal/engine/engine.go:217-230 | the memory half and its compensation |
| Engine.Engine.DeleteSchedule | internal/engine/engine.go:233-241 | memory and disk agree afterwards exactly when the write succeeded |
| Engine.Engine.TogglePause | internal/engine/engine.go:243-269 | flips the pause in memory and store and takes the entry away or brings it back, or leaves memory alone; a failed resume whose undo works leaves the schedule saved as memory has it |
| Engine.Engine.MarkOneTimeCompleted | internal/engine/engine.go:474-493 | marks an unfinished one-time schedule in memory and store and takes its entry away, or changes nothing |
| Engine.Engine.Trigger | internal/engine/engine.go:413-472 | a trigger finds no schedule, fails at the check or at the save, is skipped or started, each under exactly its condition; only a started scheduler run of an unfinished one-time schedule changes the table |
| Engine.Engine.RegisterEntry | internal/engine/engine.go:271-293 | leaves one entry, holding this schedule, exactly when it is active and the cron took it; entries stay paired with ids |
| Engine.EntriesAreLive | internal/engine/engine.go:271-305 | in every state a name has an entry if and only if its schedule is there, not paused and not a completed one-time schedule; the entry holds the current schedule; no entry is shared or orphaned |
| Engine.Engine.RegisterSchedule | internal/engine/engine.go:89-100 | on success the normalized schedule is in the table; on failure its name is not; every entry still matches the table |
| Engine.NewEngine | internal/engine/engine.go:62-87 | starts if and only if the seeds and the prune go through and every schedule can be taken over; then memory and disk are equal; seeds stay in the store when it does not start |
| Engine.SeedRejected | internal/engine/engine.go:66-84 | after a rejected definition was seeded into an empty store, no configuration starts the engine |
| Engine.Restart | internal/engine/engine.go:62-87 | restarting wherever memory and disk agree brings back the same schedules and the same live names, or the configuration when there are no schedules |
| EngineRuns.Play | internal/engine/engine.go:175-267 | any operation whose store and cron calls succeed keeps memory and disk equal and makes exactly the table change of the event |
| EngineRuns.PlayAll | internal/engine/engine.go:62-305 | over every history of operations, firings and restarts memory and disk stay equal, the live entries are those of the table, and the runs started for a followed one-time schedule are counted |
| EngineRuns.FollowOnce | internal/engine/engine.go:460-493 | over every such history on an engine, a one-time schedule fires at most once more than the edits that made it due again, and then the cron has no entry for it; the runs are those the engine's own triggers started |
| Schedules.MarkSurvives | internal/engine/engine.go:190-192 | an edit of a completed one-time schedule keeps it completed if and only if it brings a mark or keeps time and zone |
| Schedules.SavedIsEdit | internal/engine/engine.go:190-192 | the table after an edit holds it field by field, but for defaults and the completion mark, and is otherwise unchanged |
| Schedules.DefaultsAre | internal/config/config.go:103-121 | which fields get which defaults, and that no other changes |
| Schedules.StandardChecksReliable | internal/engine/engine.go:102-150 | a validated schedule always becomes a cron schedule, and normalizing, pausing or completing it keeps it valid |
| Schedules.AcceptedNameHasNoNul | internal/config/config.go:240 | names the engine accepts are safe for the running index |
| Schedules.NormalizeTwice | internal/config/config.go:103-121 | filling in defaults twice is filling them in once |
| OnceOnly.FiresAtMostOnce | internal/engine/engine.go:460-464 | over every history of edits, renames, pauses, manual runs and restarts, at most one scheduler run is started, and one more for each edit that made the schedule due again; after the last it is not due |
| OnceOnly.KeptOccasionFiresOnce | internal/engine/engine.go:460-493 | a one-time schedule whose time and zone are kept is fired at most once by the scheduler across every edit, rename, pause, manual run and restart |
| OnceOnly.StepMarks | internal/engine/engine.go:190-192 | every step keeps the completion mark of a schedule that has run, or counts as an edit that made it due |
| OnceOnly.FiresAgain | internal/engine/engine.go:190-192 | the history that fires, moves the schedule to another time and fires again, `n` times, starts `n + 1` runs |
| OnceOnly.FiresOnceMoreThanRearmed | internal/engine/engine.go:460-493 | every history with at most `k` such edits starts at most `limit` runs, if and only if `k < limit` |
| Lifecycle.RunsWithinCadence | internal/engine/engine.go:381-398 | in every interleaving, with repeated ids and cleared logs, completed records stay within the limit plus runs since the last prune, runs not yet counted and a hundred for each prune due |
| Lifecycle.FromStart | internal/engine/engine.go:413-516 | from a started engine, at rest at most 99 completed records exceed the limit, 10099 in all by default; with fresh ids and no clear, accepted triggers are stored or pruned, and running records are the executions in flight, one each, and the orphans |
| Lifecycle.RunsConserve | internal/engine/engine.go:448-516 | conservation over every history with fresh ids and without a clear |
| Lifecycle.SaveCounts | internal/engine/engine.go:564-567 | a save keeps stored records equal to present and pruned ones if and only if its id is not in the log |
| Lifecycle.StepRecord | internal/store/store.go:317-319 | with a fresh id, one step never prunes an execution in flight, never changes a finished record and never reuses an id |
| Lifecycle.FinishedStays | internal/engine/engine.go:495-516 | over every history with fresh ids a finished record stays as it is until pruned and never comes back |
| Lifecycle.RunsOutcome | internal/engine/engine.go:495-516 | over every history with fresh ids and no clear, an execution's record is running until its end, and from then on, while it is there, says Succeeded if and only if it succeeded |
| Lifecycle.FinishRecords | internal/engine/engine.go:500-514 | the end of an execution writes its outcome over the captured run and changes no other record |
| Lifecycle.StoreRecords | internal/engine/engine.go:427-459 | a save writes one skipped or running record and starts an execution exactly for the running one |
| Lifecycle.CheckAnswers | internal/engine/engine.go:421-426 | a caller skips if and only if concurrent runs are off and a run of the schedule is recorded as running |
| Lifecycle.CountDecides | internal/engine/engine.go:381-391 | counting a run makes a prune due if and only if there was none yet, the last was five minutes ago, or this is the hundredth run since |
| Lifecycle.QuietStretch | internal/engine/engine.go:381-391 | a stretch of history in which no prune becomes due counts fewer than a hundred runs, all within five minutes of the last prune |
| Lifecycle.OverlapBound | internal/engine/engine.go:421-459 | running records and callers past the check never exceed the number of concurrent callers, with repeated ids and cleared logs |
| Lifecycle.ExecutionBound | internal/engine/engine.go:421-516 | over every history with fresh ids and no clear, executions of the schedule in flight never exceed the number of concurrent callers |
| Lifecycle.CallersOverlap | internal/engine/engine.go:421-459 | for every `n`, some history with fresh ids, no clear and at most `n` concurrent callers of a schedule that disallows concurrent runs has `n` of its executions in flight |
| Lifecycle.ClearedOverlap | internal/store/store.go:254-266 | a clear during an execution lets a second one start, with triggers serialised and fresh ids |
| Lifecycle.RepeatedOverlap | internal/engine/engine.go:427-439 | a skipped run under the id of the run in progress lets a second execution start, with triggers serialised and no clear |
| Lifecycle.OneAtATime | internal/engine/engine.go:421-459 | at most one execution is in flight in every history with at most `n` concurrent callers, with or without clears and repeated ids as given, if and only if `n` is 0, or `n` is 1 and there are neither clears nor repeated ids |
| Rate.NextIsFirstAfter | internal/engine/engine.go:574-584 | the next fire time is the first grid point after the given time if and only if its distance from the start fits in 64 bits |
| Rate.NextOnGrid | internal/engine/engine.go:574-584 | the next fire time is the start plus whole intervals, after the given time, and one interval less is not |
| Rate.HeadroomFits | internal/engine/engine.go:581-583 | one interval of headroom is enough for it to fit |
| Rate.FiresInOrder | internal/engine/engine.go:574-584 | iterating visits consecutive grid points |
| Rate.EveryPointFires | internal/engine/engine.go:574-584 | every later grid point is a fire time |
| Rate.RestartRejoins | internal/engine/engine.go:574-584 | a restart between two fire times continues with the later one |
| Rate.RateDurationExact | internal/engine/engine.go:152-163 | the interval in nanoseconds is exact if and only if the product fits in 64 bits |
| Rate.UnitsAre | internal/engine/engine.go:152-163 | the length of each unit in nanoseconds, exact if and only if the product is at most 9223372036854775807 |
| Rate.AcceptedRateFires | internal/config/config.go:252-266 | an accepted rate schedule of at most 106751 units fires at least a minute apart and after any instant, while the distance fits |
| Headers.PrintThenParse | internal/server/http.go:508-522 | printing and parsing a map gives it back if and only if keys and values are trimmed and newline-free and keys have no '=' |
| Headers.HeadersSurviveEditing | internal/server/http.go:461-480 | for every text, parsing, printing and parsing again gives the same headers |
| Headers.ParseKeyValues | internal/server/http.go:461-480 | the loop over lines computes the specified map |
| Headers.KeyValues | internal/server/http.go:508-522 | the sort and join print the specified text |
| Headers.LastLineWins | internal/server/http.go:463-475 | a key is present when some line carries it, with the value of the last such line |
| Headers.EntryIs | internal/server/http.go:463-475 | what a line says: key and value around the first '=', or the first ':' when there is none, whatever padding surrounds them |

## Left out

- bbolt pages, files and JSON text: buckets are maps, encoding a run is the identity apart from the year range; the other times of a run are part of its opaque detail and taken as encodable.
- The eight bytes of the stored count and the error for a value of another length: the count is a number.
- The cron library: an expression parses or not, a job is taken or refused; `Next` and `Prev` times shown in the user interface are not modelled.
- Delivery to targets, timeouts and logging: an execution ends in success or failure.
- Time zones and local date texts: the engine asks a library for instants.
- SHA-1 in run ids: ids are abstract, and conservation asks for fresh ones.
- The upper bound bbolt puts on a value (2 GiB), and opening a file of an older version that holds a run whose own key fits but whose index key does not.
- Engine.SaveSchedule: does not say what is left when a compensation itself fails, because the source ignores those errors; the entry invariant is proved even then.
- OnceOnly.FiresAtMostOnce: a scheduler trigger is one step from its entry to the completion mark; a trigger already under way while the schedule is edited is not covered.
- MemoryStore.SortNewestFirst: the library's in-place sort is modelled on values with an insertion sort; only its contract is used.
- HTTP routing, templates, the JSON interface and the command-line programs.
