# Archypix protocols and algebras, verified

Archypix is a federated photo library: back-ends that own pictures, workers that process them, a
resolver that knows which user lives where, and front-ends over WebDAV and HTTP. This project models
the parts of it whose correctness is hardest to see from one function, and proves what they promise.
Every file holds one module; `dafny verify dfyconfig.toml` checks them all.

| part | modules | form |
|---|---|---|
| routine scheduler | Routines, RoutineTheorems, RoutineDecisions, RoutineDrain, RoutineShutdown, RoutineRuntime | atomic steps over all interleavings; the scheduler object refines them method by method |
| job lease | JobLease, JobTheorems, JobOutcomes, JobStore, WorkerPool | one step per SQL statement; the repository object refines them; workers and the network refine the protocol |
| tag paths | Text, Tags, Slugs, TagFolding, TagRename, ShareRename, CaseFolding, HierarchyNodes, WriteBacks | string operations proved equal to operations on label sequences, then folding, renaming, gates, case folding, directory trees and their write-backs |
| calendar segmentation | Calendar, Numerals, Segments, Offsets, OffsetDirection, Templates, TemplateTheorems, Segmentation, SegmentationTheorems, PlaceholderTheorems, Renderings | Gregorian and ISO week arithmetic over all integer years; template parser, renderer and resolver |
| EXIF merge | Integers, Doubles, NearestDoubles, Exif, ExifRows, ExifOverrides, ExifEdits | the typed struct, the JSON object and the row update, proved to be one merge |
| WebDAV codec | Utf8, LossyText, WebDav, MountPaths | byte strings |
| rate limiter | RateLimit | the cache object and all request sequences |
| content dedup | Dedup, DedupChanges | a picture table and SQL three-valued logic |
| rule predicates | Predicates, PredicateParsing, PredicateMeaning | the evaluator, the JSON parser, and what the JSON says by itself |
| username mappings | Reconcile | the resolver object, every hash-map iteration order |
| shared | Wrappers, MapSum | option and result types, sums over maps |

Code that changes state in place is a class or a loop, each proved equal to a function of the old
state; the theorems are about those functions.

## What does not hold, and exactly when it does

Several things one would expect are false of the code. Each is kept as the code has it, with the
exact condition under which it holds:

- **Debounce windows.** A promoted key leaves its old timer asleep, and that timer shortens a later
  window (`StaleTimerCutsTheNextWindow`). A window lasts exactly when no earlier timer of the key is alive.
- **Drain.** The drain acquires as many permits as the concurrency setting asks for at that moment, while
  the semaphore was sized at spawn. No run is in flight when it returns exactly when the setting was not
  lowered. It drops the permits in the same statement, so runs owed to a key can start after it; it is
  final exactly when no pick is owed and no runner holds an input (`RoutineDrain`). It waits its turn in
  a fair semaphore: it can return exactly when the setting was not raised, and a raised one also holds up
  for ever every runner that queued behind it (`RaisedDrainStarves`).
- **Admin reset** is documented for non-terminal jobs; the statement excludes completed ones only, so
  failed jobs come back (`ResetRevivesFailedJobs`).
- **Survivor choice** also reports false for a held picture without any hash (`SurvivorReportExact`).
- **Candidate groups.** The query is documented never to return a lone live, manual or boomerang row; it
  returns a lone row exactly when it is content_dedupe or boomerang (`LoneGroupExact`).
- **Case folding** is idempotent exactly when the library holds no case-only duplicates.
- **Write-back compliance.** Accepted operation lists are meant to make a picture enter or leave a
  directory. On entering that holds of every picture exactly when nothing at or under an excluded path is
  assigned (`EnteringShowsExactly`, `EnteringCanHide`); on leaving, exactly when an excluded path is
  assigned or the included paths that are needed can no longer be carried (`LeavingHidesExactly`).
- **Subtree rename**: forth and back restores a library exactly where no path was already under the
  new name; the SQL form and the string form differ on empty names. The check for related names lets a
  rename through that the unique index on live shares then refuses, exactly when a renamed path is
  already shared with the same recipient (`MovedKeepsIndexExactly`, `TwoSharesBlockARename`).
- **Mount paths** survive printing and parsing exactly when no segment is empty and every one is
  well-formed UTF-8, which strings of the program always are.
- **Set and clear**: the typed edit clears last, the row update sets last; they agree exactly when
  nothing is both set and cleared, which the edit validation guarantees.
- **No-fix sentinel**: the one-statement override write does not drop (0, 0) from the promoted columns,
  the announcement path does; they agree exactly when the merge is not at (0, 0).
- **Month offsets** leave a timestamp alone that they cannot move, so over all timestamps they keep the
  order of time exactly when they move none (`MonthsKeepOrderExactly`). Among those they move, they keep
  it exactly when they never clamp to the end of a month; short of the last 400 years of range that
  means whole 400-year cycles (`CyclesNeverClampExactly`).
- **Hours and minutes** are documented to be subtracted. Their 64-bit sum wraps, so an accepted offset can
  move timestamps forward; it never does exactly when the wrapped sum is not negative, or too long for
  any timestamp (`NeverLaterExactly`, `HugeHoursGoForward`).
- **Paddings** have no upper bound in the validation, and the formatter panics on a width above 65535: away
  from the ends of the calendar a valid band renders exactly when no configured number is padded wider
  (`InnerYearsRenderExactly`, `WidePadAlwaysPanics`).
- **Segment tags** are valid exactly when the root tag and the catch-all name are stored trimmed:
  validation trims, resolution does not. Years before year 0 share labels with their positive twins.
- **Date-only ranges** are documented as full days; the fractions after 23:59:59 of the last day fall out.
- **Second reconcile pass**: idle exactly when no username is claimed by two back-ends.
- **Rate limit**: with a window of zero every request is accepted; for a limit of at least one, the bound
  of 2·max per interval holds exactly when the window is at least one.
- **Rejection counters** per minute are exact exactly when events are kept for a minute at least, or nothing
  can be rejected (`EventsCountRejectionsExactly`).
- **Fail open.** The limiter accepts requests without an answer of the cache so that an outage locks nobody
  out. A connection that breaks between the increment and the expiry leaves a counter that never expires; a
  bucket is locked out for ever exactly when max is zero or such a counter has reached max
  (`LockedOutExactly`, `OutageLocksOut`).
- **Two decimals.** An edit is rounded so that it reads back unchanged. In doubles that holds up to any
  bound exactly when the bound is below 2^45 + 1/64 (`CentsIdempotentExactly`, `UnstableCents`).
- **Creator conditions.** The creator counts as always present, so a rule cannot ask for its absence; it is
  absent when the owner of the picture cannot be resolved, and then no creator condition matches.

## Modelling decisions

- Every locked section, SQL statement and cache command is one atomic step. Spawning a task is part of
  the section that decides on it: the task's first own action is a separate step and may come any time later.
- Both reads of the debounce setting are separate step arguments, since the setting may change between them.
- Worker responses in JobLease carry any job and token at any time, so every way of losing, repeating
  or forging one is covered; WorkerPool adds the workers that really send them. A worker runs one loop
  per back-end over a shared semaphore; WorkerPool is the view of one back-end, in which permits taken and
  returned by the loops and tasks of the others are moves of their own.
- Claim tokens and ids are fresh. `max_retries` is the column default, a parameter of at least 1. The
  partial unique indexes on live idempotency keys and in-flight edits are part of the table.
- Clocks are non-decreasing numbers. How far a cache command gets before the connection breaks is an argument.
- Bytes are characters below 256. A floating-point number is the real it denotes; the rounding of
  arithmetic results is any function that rounds to nearest as IEEE 754 demands. NaN does not occur.
- JSON is a ready-parsed tree or map. A string that reads as a timestamp is a constructor of its own,
  and object keys are named by the field they canonically denote.
- Integer widths are modelled where values are cast or may overflow: EXIF altitude and orientation,
  predicate years, month offsets, the sum of hours and minutes. Overflow wraps, as in the release build
  that is deployed.
- The date type's bounds are the years -262143 to 262142; where the code unwraps a date outside them the
  model says so, as an outcome of its own.
- Date, time and pattern parsing, Unicode case folding and great-circle distance are parameters.

## Model

| member | source | states |
|---|---|---|
| RoutineTheorems.RunsOfOneKeyNeverOverlap | common/src/routine.rs:233-356 | In every reachable state, under every interleaving and any change of the debounce setting, a key has exactly one runner when its entry is Running and none otherwise; every runner finds its entry, so the early return of a run is unreachable. |
| RoutineTheorems.PermitsAreConserved | common/src/routine.rs:158-170 | Held plus free permits equal the limit, the in-flight counter equals the number of runs in flight and never saturates, and while all permits are free no run is in flight. |
| RoutineTheorems.NoTriggerIsLost | common/src/routine.rs:233-356 | Every trigger of a key is covered by a pick of an input at least as recent, or the entry still holds the newest input together with a live timer, an un-picked runner or the rerun flag. |
| RoutineTheorems.PickTakesTheNewest | common/src/routine.rs:299-305 | A pick takes the newest triggered input of its key and thereby covers every trigger so far. |
| RoutineTheorems.PicksNeverExceedTriggers | common/src/routine.rs:233-356 | Over every run, picks of a key never exceed its triggers. |
| RoutineTheorems.PicksAfterTheLastTrigger | common/src/routine.rs:289-356 | After the last trigger of a key the picks that still happen plus those still owed equal those owed then, so at most two happen before the key leaves the map. |
| RoutineTheorems.MovesUseWork | common/src/routine.rs:273-356 | Every step but a trigger or the passing of time lowers a natural-number measure of the work left. |
| RoutineTheorems.TriggerFreeRunsAreBounded | common/src/routine.rs:273-356 | A run without triggers makes at most as many moves as the measure it uses up. |
| RoutineTheorems.NeverStuck | common/src/routine.rs:273-356 | While the map is not empty some task can move, possibly after waiting for a timer. |
| RoutineTheorems.EveryTriggerIsServed | common/src/routine.rs:233-356 | A run without further triggers ends after boundedly many moves, and where it cannot move the map is empty and every trigger has been covered by a pick. |
| RoutineTheorems.CanBecomeIdle | common/src/routine.rs:233-356 | From every reachable state some continuation without triggers empties the map. |
| RoutineDrain.ReturnedDrainIsQuietExactly | common/src/routine.rs:477-483 | The drain asks for the concurrency setting of that moment, the semaphore has the one of spawn. That no run holds a permit, or is in flight, in any reachable state where the drain returns holds exactly when the setting was not lowered. |
| RoutineShutdown.DrainCanReturnExactly | common/src/routine.rs:477-483 | The drain is one waiter of a fair semaphore. Behind any of the waiting runners, in every state that keeps the invariant, it can return without further triggers exactly when the setting was not raised. |
| RoutineShutdown.RaisedDrainStarves | common/src/routine.rs:477-483 | A drain of more permits than there are never returns, and over every run, with any triggers, a runner that queued behind it keeps waiting: its entry stays in the map and its key is never picked again. |
| RoutineShutdown.MapCanEmptyExactly | common/src/routine.rs:289-356 | With a runner behind the drain, some continuation without triggers empties the map exactly when the setting was not raised. |
| RoutineDrain.LoweredDrainReturnsEarly | common/src/routine.rs:477-483 | A concrete run: spawned with two permits and lowered to one, the drain returns with a run in flight. |
| RoutineDrain.DrainIsFinalExactly | common/src/routine.rs:477-483 | After the drain has returned no run is in flight ever again exactly when no pick was owed to any key and no runner held an input at that moment; with the setting not lowered, exactly when no pick was owed. |
| RoutineDrain.DrainCanBeOvertaken | common/src/routine.rs:477-483 | A concrete run on which the drain of an unchanged setting returns and a debounced run is in flight thirty time units later. |
| RoutineRuntime.Scheduler.Drain | common/src/routine.rs:481-483 | One attempt of the drain: it succeeds exactly when the permits the setting asks for are free, and leaves the state as it was. |
| RoutineTheorems.WindowHolds | common/src/routine.rs:273-287 | With no earlier timer alive, debounced triggers cannot start a pending key before its window ends. |
| RoutineTheorems.WindowHoldsExactlyWithoutStaleTimers | common/src/routine.rs:233-287 | A pending window lasts to its end in every run without an immediate trigger of the key exactly when no timer of the key wakes earlier. |
| RoutineTheorems.StaleTimerCutsTheNextWindow | common/src/routine.rs:242-245 | A concrete reachable state in which a promoted key's old timer is about to cut a fresh window short. |
| RoutineTheorems.LimitIsFixed | common/src/routine.rs:427-432 | No step changes the concurrency limit. |
| Routines.StepKeeps | common/src/routine.rs:233-356 | Every atomic step keeps the invariant of the scheduler. |
| Routines.ExecKeeps | common/src/routine.rs:233-356 | Every run keeps the invariant of the scheduler. |
| Routines.RunnerHasEntry | common/src/routine.rs:301-304 | Every runner finds the Running entry of its key and is the only runner of that key. |
| Routines.StepViews | common/src/routine.rs:233-356 | A step changes what the state says about its own key only. |
| RoutineRuntime.Scheduler.constructor | common/src/routine.rs:427-432 | An empty scheduler with max(concurrency, 1) permits. |
| RoutineRuntime.Scheduler.Schedule | common/src/routine.rs:233-271 | The locked section of a trigger does to the object exactly what the schedule step does to the state. |
| RoutineRuntime.Scheduler.Fire | common/src/routine.rs:276-285 | A timer wake-up promotes a still pending key and starts its runner, else does nothing. |
| RoutineRuntime.Scheduler.Pick | common/src/routine.rs:299-305 | A runner clones the newest input of its key, or ends and drops its permit when the entry is gone. |
| RoutineRuntime.Scheduler.MarkStarted | common/src/routine.rs:158-162 | The status counters after a run starts. |
| RoutineRuntime.Scheduler.MarkFinished | common/src/routine.rs:164-170 | The status counters after a run ends; the in-flight counter saturates at zero. |
| RoutineRuntime.Scheduler.Decide | common/src/routine.rs:325-353 | After a run: rerun at once, rerun after a fresh window, or leave the map, with the flags cleared. |
| RoutineRuntime.Scheduler.Acquire | common/src/routine.rs:293-298 | A waiting runner takes a permit. |
| RoutineRuntime.Scheduler.Start | common/src/routine.rs:313-314 | A picked run enters the in-flight count. |
| RoutineRuntime.Scheduler.Finish | common/src/routine.rs:315-322 | A run leaves the in-flight count with its error, if any. |
| RoutineRuntime.Scheduler.Release | common/src/routine.rs:323 | A finished runner returns its permit. |
| RoutineRuntime.Scheduler.SpawnRun | common/src/routine.rs:289-298 | A new runner that waits for a permit. |
| RoutineRuntime.Scheduler.SpawnDebounceTimer | common/src/routine.rs:273-277 | A new timer due after the debounce window read at that moment. |
| RoutineDecisions.DecisionAnswersTheTriggers | common/src/routine.rs:325-353 | Told from the trigger steps of any run alone: after a run of a key it runs again exactly when it was triggered while running and no decision has answered that, and at once exactly when one of those triggers was not debounced, read a window of zero, or the window read now is zero; else the runner is gone and the key sleeps on one new timer due after the delay read now. |
| RoutineDecisions.FlagsTellTheRun | common/src/routine.rs:246-268 | Over every run the rerun flag of a running entry says that some trigger since its last decision is unanswered, and the immediate flag that one of those skips the window. |
| RoutineDecisions.TriggerStartsExactly | common/src/routine.rs:233-271 | A trigger of a key that is not running starts exactly one runner when it skips the window, and else arms one timer exactly when no window was open; a trigger of a running key does neither. |
| RoutineDecisions.StatusTellsTheRun | common/src/routine.rs:158-170 | Over every run the counters say how many runs have finished, when the last one started, and when the last to finish did so and with which error. |
| JobLease.StepKeeps | back/src/repository/job.rs:35-210 | Every statement keeps: a live job has a retry left, only processing or completed rows carry a token, tokens are issued and distinct, finished rows know when, and both partial unique indexes hold. |
| JobLease.ExecKeeps | back/src/repository/job.rs:35-210 | Every run of statements keeps that invariant. |
| JobTheorems.HolderIsUnique | back/src/repository/job.rs:108-152 | A job has one holding claim and a claim holds one job. |
| JobTheorems.NoHoldIsRegained | back/src/repository/job.rs:35-104 | An issued token never gains a hold it does not have. |
| JobTheorems.DeadClaimStaysDead | back/src/repository/job.rs:108-210 | A claim that was reset, cancelled, settled or superseded is dead in every continuation. |
| JobTheorems.ResponseActsExactlyUnderItsClaim | back/src/repository/job.rs:108-210 | A complete or fail response changes the table exactly when its token is the current claim of a processing row. |
| JobTheorems.EachClaimSettlesAtMostOnce | back/src/repository/job.rs:108-210 | Over every run a claim changes the table at most once, however often and late its responses arrive. |
| JobTheorems.CompletedIsFinal | back/src/repository/job.rs:108-210 | A completed row stays as it is or is deleted, and a deleted id never comes back. |
| JobTheorems.JobCompletesAtMostOnce | back/src/repository/job.rs:108-152 | Over every run, through retries, resets and re-claims, a job completes at most once. |
| JobTheorems.LiveJobsHaveARetryLeft | back/src/repository/job.rs:156-210 | From an empty table with max_retries at least 1, every pending or processing job keeps retry_count below max_retries. |
| JobTheorems.ClaimsAreBudgeted | back/src/repository/job.rs:166-189 | Without an admin reset of a job, its claims in a run are bounded by the retries its row has left. |
| JobTheorems.ClaimsBetweenResets | back/src/repository/admin.rs:483-495 | Between two admin resets a job is claimed at most max_retries times. |
| JobTheorems.ChangesUseWork | back/src/repository/job.rs:35-210 | Every statement that changes the table, other than an insert or an admin reset, lowers a natural-number measure. |
| JobTheorems.ProtocolTerminates | back/src/repository/job.rs:35-210 | A run without inserts and admin resets changes the table boundedly often, however many responses, polls and watchdog passes it holds. |
| JobTheorems.LiveJobIsNeverStuck | back/src/repository/job.rs:458-499 | A live job can always move: a pending one can be claimed, a processing one can be taken back once its timeout has passed. |
| JobTheorems.EveryJobSettles | back/src/repository/job.rs:35-210 | A run without inserts and admin resets changes the table boundedly often, and after it no claim and no watchdog pass can change a row at any later time exactly when every stored job is completed or failed. |
| JobTheorems.CanSettle | back/src/repository/job.rs:35-210 | From every table that keeps the invariant, some run of claims and watchdog passes alone settles every job. |
| JobTheorems.OneLiveJobPerKey | back/src/repository/job.rs:241-316 | After an enqueue under a key that did not fail, exactly one live job of the owner carries the key. |
| JobTheorems.RetentionSparesRecentJobs | back/src/repository/job.rs:501-523 | Retention deletes a job exactly when it finished longer ago than the retention time; live jobs stay. |
| JobTheorems.ResetRevivesFailedJobs | back/src/repository/admin.rs:483-512 | The reset, documented for non-terminal jobs, acts on every job that is not completed: it revives a failed job with a full retry budget exactly when no live job took over its key or edit. |
| JobTheorems.CancelledJobComesBack | back/src/repository/admin.rs:483-512 | A concrete run: an inserted and cancelled job is terminal, and pending again after the reset. |
| JobOutcomes.RowsTellTheirLastChange | back/src/repository/job.rs:35-210 | After every run of statements every stored row is explained by the last statement that changed it: the insert, the claim that holds it, the response that completed or failed it under that claim, the watchdog or the admin; and it has not changed since. |
| JobOutcomes.ChangeIsExplained | back/src/repository/job.rs:35-210 | A row that reads differently after a statement reads what that statement says, column by column, and keeps its owner, type, picture, key and budget. |
| JobOutcomes.InsertExactly | back/src/repository/job.rs:241-316 | An enqueue adds exactly one fresh row, unless a live job of the owner carries the key or a live edit is about the picture; then it changes nothing. |
| JobOutcomes.FailureEndsExactly | back/src/repository/job.rs:156-210 | An effective failure counts one attempt and records the error; it ends the job, stamped, exactly when it is permanent or uses up the last retry, and else the job can be claimed at once. |
| JobOutcomes.WatchdogEndsExactly | back/src/repository/job.rs:458-499 | The watchdog does the same to exactly the processing jobs past their timeout: final exactly when the last retry is used up. |
| JobOutcomes.PermanentFailureIsFinal | back/src/repository/job.rs:166-189 | After a permanent failure under the current claim the job is failed with that error and stamped in every later state it is stored in, and never claimed again, in every run without an admin reset of it. |
| JobOutcomes.FailedIsFinalWithoutReset | back/src/repository/admin.rs:483-512 | Without an admin reset a failed row stays as it is or is deleted, and is never claimed. |
| JobStore.JobRepository.Insert | back/src/repository/job.rs:241-316 | Enqueue, or find the live job that carries the key; the flag tells which; a unique violation changes nothing. |
| JobStore.JobRepository.ClaimNext | back/src/repository/job.rs:35-104 | Claims the oldest unlocked pending row of the wanted types under a fresh token, and returns nothing exactly when every such row is locked. |
| JobStore.JobRepository.Complete | back/src/repository/job.rs:108-152 | Completes and returns the row exactly when the token is its current claim. |
| JobStore.JobRepository.Fail | back/src/repository/job.rs:156-210 | Fails one attempt under the current claim: back to pending while retries remain, else failed. |
| JobStore.JobRepository.ResetStale | back/src/repository/job.rs:458-499 | Takes exactly the processing rows older than the timeout. |
| JobStore.JobRepository.AdminReset | back/src/repository/admin.rs:483-512 | Resets any row but a completed one unless a unique index forbids it. |
| JobStore.JobRepository.AdminCancel | back/src/repository/admin.rs:512-540 | Fails a pending or processing row, and no other. |
| JobStore.JobRepository.DeleteTerminalOlderThan | back/src/repository/job.rs:501-523 | Deletes the expired terminal rows and counts them. |
| WorkerPool.SystemKeeps | worker/src/jobs.rs:23-62 | Every move of workers, network, watchdog and admins keeps: permits are conserved per worker, a token belongs to one task of one worker, and every task and message in flight is bound to the job its token was issued for. |
| WorkerPool.RunKeeps | worker/src/jobs.rs:23-62 | Every run of such moves keeps that invariant. |
| WorkerPool.InitSystem | worker/src/jobs.rs:23-36 | An empty table with idle workers satisfies it. |
| WorkerPool.WorkersRefineTheProtocol | worker/src/jobs.rs:23-152 | Whatever the workers do to the table is a run of the lease protocol, so its theorems hold with workers that answer late, twice or never. |
| WorkerPool.OneEffectiveTaskPerJob | worker/src/jobs.rs:33-53 | No worker runs more tasks than its limit, those for other back-ends included, and among all tasks of all workers at most one per job holds the current claim. |
| WorkerPool.DeliveryIsIdempotent | worker/src/jobs.rs:146-148 | A delivered response settles its own job or changes nothing, and delivering it again changes nothing more. |
| WorkerPool.StaysBound | back/src/repository/job.rs:35-104 | No statement puts a row of another job under an issued token. |
| Tags.ParseExact | back/src/domain/tag.rs:55-80 | Parsing accepts a string exactly when its trimmed form is a sequence of valid labels whose first is not reserved (unless allowed), and returns that form. |
| Tags.ParseIsIdempotent | back/src/domain/tag.rs:55-80 | A valid path is its own trimmed form and parses to itself. |
| Tags.ReservedIsFirstLabel | back/src/domain/tag.rs:129-133 | The reserved-prefix test on strings is a test on the first label, look-alikes excluded. |
| Tags.AncestorIsProperPrefix | back/src/domain/tag.rs:151-158 | For all strings, the dotted prefix test is the proper-prefix relation on label sequences. |
| Tags.AncestryIsTransitive | back/src/domain/tag.rs:151-158 | Ancestry is transitive and strict. |
| Tags.AncestorsExact | back/src/domain/tag.rs:166-171 | The ancestor list holds exactly the paths the ancestor test accepts, one per proper prefix. |
| Tags.AncestorLabels | back/src/domain/tag.rs:166-171 | The i-th ancestor holds the first i+1 labels. |
| Tags.SlugifyLabel | back/src/domain/tag.rs:90-110 | The character loop computes the slug. |
| Tags.SlugExact | back/src/domain/tag.rs:90-110 | A slug is a label without outer underscores, exactly those strings are their own slug, and slugging is idempotent. |
| Tags.SlugIsLabel | back/src/domain/tag.rs:90-110 | A slug parses as a one-label path. |
| Slugs.SqueezeGrows | back/src/domain/tag.rs:93-101 | One more character appends itself when it is allowed, and else an underscore exactly when it is the first or follows a letter or digit. |
| Slugs.SlugReads | back/src/domain/tag.rs:90-108 | A text with a letter or digit has as its slug what its characters append, without the underscores at both ends, with the same letters and digits in order; a text without one is named `untitled`. |
| TagFolding.FoldDeepest | back/src/domain/tag.rs:198-210 | The two passes of the code compute the fold. |
| TagFolding.FoldExact | back/src/domain/tag.rs:198-210 | The fold is exactly the maximal paths, without duplicates, in the order of first occurrence. |
| TagFolding.EveryInputIsCovered | back/src/domain/tag.rs:198-210 | Every input is a survivor or an ancestor of one. |
| TagFolding.FoldIsIdempotent | back/src/domain/tag.rs:198-210 | Folding twice is folding once. |
| TagFolding.FiredExact | back/src/domain/tagging.rs:126-159 | A service fires exactly when it is enabled, every required path is present and no excluded one is. |
| TagFolding.GatesIgnoreFolding | back/src/domain/tagging.rs:126-159 | Every service gate fires on the folded tags exactly when it fires on the original ones. |
| TagRename.RenameReplacesThePrefix | back/src/domain/tag.rs:181-190 | Renaming by string slicing touches exactly the paths at or under the old name and replaces the label prefix. |
| TagRename.RenameRoundTrip | back/src/domain/tag.rs:181-190 | Renaming back restores every renamed path. |
| TagRename.RenameKeepsTheTree | back/src/domain/tag.rs:181-190 | Inside the renamed subtree renaming is injective and keeps ancestry both ways. |
| TagRename.CascadeRoundTripExact | back/src/domain/tag.rs:181-190 | Over a library, renaming forth and back restores a path exactly when it was not already under the new name, unless also under the old one. |
| TagRename.BystanderIsCaptured | back/src/domain/tag.rs:181-190 | A concrete path already under the new name that does not come back. |
| TagRename.CascadeCollisionExact | back/src/domain/tag.rs:181-190 | Two paths collide exactly when one is renamed onto the other, which was not under the old name. |
| TagRename.SqlRenameExact | back/src/repository/share.rs:297-320 | On every valid path the SQL subtree rename equals the code's rename exactly when the old name is not empty and the new one is not empty for a proper descendant. |
| TagRename.EmptyOldNameDiffers | back/src/repository/share.rs:297-320 | A concrete empty old name on which the SQL form and the string form differ. |
| ShareRename.ShareTable.RenameTagSubtree | back/src/repository/share.rs:297-320 | Row by row in any order under the unique index on live shares: for unrelated names every share of the owner moves as the code's rename says and the hits are counted, or, when a target is taken, the statement fails and no row changes. |
| ShareRename.ShareTable.CascadeRename | back/src/services/tags.rs:115-150 | Related names are refused, equal names do nothing, unrelated names fail exactly when a live share of the recipient already has a renamed path; every error leaves the rows as they were. |
| ShareRename.MovedKeepsIndexExactly | back/migrations/0001_initial_schema.up.sql:274-277 | After a rename between unrelated names the unique index holds exactly when no live share under the old name had its renamed path taken by a live share of the same owner and recipient. |
| ShareRename.TwoSharesBlockARename | back/src/services/tags.rs:115-150 | Two concrete live shares for which a rename that passes the ancestry check violates the index. |
| CaseFolding.ReuseExistingCase | back/src/domain/hierarchy.rs:282-303 | The nested loops compute the label-wise fold onto stored casings. |
| CaseFolding.ReuseKeepsTheSpelling | back/src/domain/hierarchy.rs:282-303 | The result has as many labels and characters as the candidate and equals it ignoring case. |
| CaseFolding.ReuseLabelByLabel | back/src/domain/hierarchy.rs:282-303 | Each label is that of the first stored path which has the folded labels before it and goes on with another casing of the candidate's label; without such a path it stays the candidate's. |
| CaseFolding.ReuseIdempotentExact | back/src/domain/hierarchy.rs:282-303 | Folding is idempotent for every candidate exactly when no two stored paths share a prefix and then differ only by case. |
| CaseFolding.TwinsSwap | back/src/domain/hierarchy.rs:282-303 | A concrete library on which folding twice differs from folding once. |
| CaseFolding.AddingKeepsNoTwins | back/src/domain/hierarchy.rs:282-303 | Storing a folded path keeps the library free of case-only duplicates. |
| CaseFolding.WritesNeverMintTwins | back/src/domain/hierarchy.rs:282-303 | No sequence of folded writes ever mints a case-only duplicate. |
| HierarchyNodes.ValidateNodes | back/src/domain/hierarchy.rs:318-342 | One walk with a shared set of seen ids accepts exactly the trees that satisfy every node's rules, have named siblings distinct ignoring case, and repeat no id anywhere. |
| HierarchyNodes.ValidateNode | back/src/domain/hierarchy.rs:344-419 | A node is accepted exactly when its own rules hold and its children are accepted against the ids seen so far. |
| HierarchyNodes.PathsNameOneNode | back/src/domain/hierarchy.rs:322-334 | In an accepted tree a directory path, read ignoring case, names at most one node. |
| HierarchyNodes.IdsNameOneNode | back/src/domain/hierarchy.rs:335-338 | In an accepted tree an id names at most one node, at any depth. |
| WriteBacks.EnteringShowsExactly | back/src/domain/hierarchy.rs:426-490 | The compliance rule is documented to let entering make a picture satisfy the directory. An accepted operation list makes every picture show up, whatever its tags, exactly when it assigns nothing at or under an excluded path. |
| WriteBacks.EnteringCanHide | back/src/domain/hierarchy.rs:426-490 | A concrete accepted list after which no picture that enters is shown. |
| WriteBacks.LeavingHidesExactly | back/src/domain/hierarchy.rs:466-490 | Leaving hides every picture exactly when something at or under an excluded path is assigned, or the included paths that are needed can no longer be carried unexcluded. |
| WriteBacks.LeavingHides | back/src/domain/hierarchy.rs:466-490 | An accepted list for leaving that assigns no tag hides every picture. |
| WriteBacks.CarriedAfter | back/src/repository/tag.rs:264-409 | After an operation list a picture carries a path exactly when something at or under it is assigned, or was there and is not removed: keeping only the deepest tags loses nothing. |
| Calendar.DayNumberOrders | back/src/domain/segmentation.rs:523-528 | Day numbers order the dates of the calendar and tell them apart. |
| Calendar.PreviousIsOneDayEarlier | back/src/domain/segmentation.rs:523-528 | The previous day has the previous day number, across months, years and leap days. |
| Calendar.DaysEarlierExact | back/src/domain/segmentation.rs:408-425 | Going back n days lowers the day number by n. |
| Calendar.IsoWeekFromMonday | back/src/domain/segmentation.rs:494-505 | The ISO week counts whole weeks from the Monday of the week that holds the ISO year's first Thursday. |
| Calendar.WeeksPartitionDays | back/src/domain/segmentation.rs:494-505 | Two days share ISO year and week exactly when they share a Monday. |
| Calendar.FourthOfJanuary | back/src/domain/segmentation.rs:494-505 | 4 January is always in week 1 of its year. |
| Calendar.TwentyEighthOfDecember | back/src/domain/segmentation.rs:530-534 | 28 December lies in the last week of its ISO year, which is 53 exactly in long years. |
| Calendar.LastWeekBoundsEveryWeek | back/src/domain/segmentation.rs:530-534 | That week bounds every week number of the ISO year (calendar weeks, section 2.2.10 of ISO 8601:2004). |
| Segments.LastDayOfMonthExact | back/src/domain/segmentation.rs:523-528 | The computed last day is the month's length and bounds every day of it; constructing it fails exactly in the last representable December. |
| Segments.RangePanicsExactly | back/src/domain/segmentation.rs:510-534 | Computing a field's range panics exactly for days of the last representable December and for weeks of an ISO year outside the representable years. |
| Segments.ProjectedInRangeExactly | back/src/domain/segmentation.rs:494-521 | Every projected value lies in its field's range exactly when it is not a calendar or ISO year before year 0. |
| Segments.SeasonsAreOpposite | back/src/domain/segmentation.rs:537-548 | Seasons are runs of three months and the hemispheres are half a year apart. |
| Segments.BlockHoldsExactly | back/src/domain/segmentation.rs:449-455 | A stride block starts aligned, and it holds the value exactly when the value is not below the origin or sits on a boundary (division truncates). |
| Segments.BlocksPartition | back/src/domain/segmentation.rs:449-455 | From the origin up, two values have the same block start exactly when one aligned block holds both. |
| Segments.InclusiveEndExact | back/src/domain/segmentation.rs:467-472 | The inclusive end lies between the value and the end of the cycle and is clamped only in the last block. |
| Segments.SameStartTextIsSameBlock | back/src/domain/segmentation.rs:453-481 | Two values render the same start number exactly when they share a block. |
| Numerals.FormatRoundTrip | back/src/domain/segmentation.rs:550-557 | Reading a padded rendering gives the number back and the padding is reached. |
| Numerals.FormatInjective | back/src/domain/segmentation.rs:550-557 | Renderings tell numbers apart, even under different paddings. |
| Numerals.FormatIsShortest | back/src/domain/segmentation.rs:550-557 | Exactly the negative numbers have a sign, and a rendering longer than the padding has no leading zero. |
| Offsets.Apply | back/src/domain/segmentation.rs:410-423 | Months, then days, then minutes, each on the result of the last, with the casts, fallbacks and 64-bit wrap-around of the code. |
| OffsetDirection.MinutesPanicExactly | back/src/domain/segmentation.rs:418-421 | Hours and minutes panic exactly when the result leaves the representable days; the limit of a duration is never what decides. |
| OffsetDirection.NeverLaterExactly | back/src/domain/segmentation.rs:408-425 | An offset is documented to be subtracted. It never shifts a timestamp forward exactly when its hours and minutes, wrapped to 64 bits, are not negative or too long for any timestamp. |
| OffsetDirection.FittingMinutesSubtract | back/src/domain/segmentation.rs:418-421 | Hours and minutes whose sum fits in 64 bits go back by exactly that sum, and such an offset never shifts forward. |
| OffsetDirection.HugeHoursGoForward | back/src/domain/segmentation.rs:418-421 | A concrete accepted number of hours that moves every midnight to sixteen minutes past. |
| Calendar.DaysMovedExact | back/src/domain/segmentation.rs:418-421 | Moving by n days, either way, moves the day number by n. |
| Offsets.DaysSubtract | back/src/domain/segmentation.rs:415-417 | A representable day offset subtracts exactly that many days. |
| Offsets.MinutesSubtract | back/src/domain/segmentation.rs:418-421 | Minutes of either sign subtract exactly, across midnight. |
| Offsets.MonthsSubtract | back/src/domain/segmentation.rs:412-414 | Months subtract exactly, to the last day of that month that is not after the day of the month, at the same time of day. |
| Offsets.MovedKeepDateOrder | back/src/domain/segmentation.rs:412-414 | Of two timestamps that it moves, a month offset never swaps the dates. |
| Offsets.MonthsKeepOrderExactly | back/src/domain/segmentation.rs:412-414 | Over all timestamps, with the 32-bit cast and the fallback for dates out of range, a month offset keeps the order of time exactly when it moves none of them. |
| Offsets.CyclesReverseAtTheEdge | back/src/domain/segmentation.rs:412-414 | A concrete pair that an offset of 400 years reverses, because the earlier one cannot be moved. |
| Offsets.MovedKeepOrderExactly | back/src/domain/segmentation.rs:412-414 | Among the timestamps it moves, a month offset keeps the order exactly when no month it can move is longer than the month it lands on. |
| Offsets.CyclesNeverClampExactly | back/src/domain/segmentation.rs:412-414 | Whole 400-year cycles never clamp, and while 400 years of timestamps can be moved nothing else does without clamping. |
| Offsets.MarchEveningPassesMorning | back/src/domain/segmentation.rs:412-414 | A concrete pair that one month reverses. |
| Offsets.MonthsComeBeforeDays | back/src/domain/segmentation.rs:410-417 | A concrete offset for which months before days and days before months differ. |
| Templates.ParseLevel | back/src/domain/segmentation.rs:198-232 | The character loop computes the parts of a level or its first error. |
| Templates.ParseTemplate | back/src/domain/segmentation.rs:178-196 | The loop over dotted levels computes the levels of a template or its first error. |
| Templates.AcceptedTemplate | back/src/domain/segmentation.rs:178-232 | An accepted template has one level per dotted segment, each with content, and printing the levels gives the template back. |
| Templates.NamesAreUnique | back/src/domain/segmentation.rs:428-440 | Placeholders and their names correspond one to one. |
| TemplateTheorems.TemplateExactly | back/src/domain/segmentation.rs:178-232 | A template is accepted with the given levels exactly when they are canonical (plain non-empty literals, no two adjacent), each has content, and joined by dots they print to it. |
| TemplateTheorems.LevelErrors | back/src/domain/segmentation.rs:198-232 | What follows the parts of a level that parse decides the error: a stray closing brace, an opening brace never closed, or the unknown name between two braces. |
| Segmentation.RenderLevel | back/src/domain/segmentation.rs:390-401 | The text of a level is the texts of its parts in order. |
| Segmentation.Render | back/src/domain/segmentation.rs:385-405 | Shift, parse, render and slug every level, join with dots. |
| Segmentation.Resolve | back/src/domain/segmentation.rs:352-374 | The first enabled covering half-open band decides; no covering band means the catch-all; undated pictures reach the catch-all only when it takes them. |
| Segmentation.BandsAreHalfOpen | back/src/domain/segmentation.rs:378-381 | A band holds the days numbered from its first up to, but not with, its last; two bands that meet split the days between them. |
| Renderings.TagReadsTheTemplate | back/src/domain/segmentation.rs:385-405 | Under the root the i-th label of a rendered tag is the slug of the texts of the i-th template level in template order, rendered for the timestamp moved by the offset. |
| Renderings.LevelReadsInOrder | back/src/domain/segmentation.rs:390-401 | The text of a level is its literals as written and its placeholders as rendered, in template order. |
| Renderings.LevelsConcatenate | back/src/domain/segmentation.rs:390-401 | The text of two stretches of a level is the one followed by the other. |
| Renderings.YearThenMonth | back/src/domain/segmentation.rs:390-401 | The level `{year}_{month}` reads `2024_6` on 1 June 2024. |
| Renderings.NumberReads | back/src/domain/segmentation.rs:443-507 | A number that is not strided reads, padded, what the field counts: the calendar parts, quarters of three months, the season of the hemisphere, weekdays from Monday, dayparts of six hours, ISO years and weeks from the week of 4 January. |
| Renderings.NamedFieldReads | back/src/domain/segmentation.rs:559-613 | A named field reads the name of the season, month, weekday or part of the day, its first three letters when abbreviated, in the configured case. |
| Renderings.StridedNameReads | back/src/domain/segmentation.rs:484-490 | A strided named field reads the name of the value that opens its block. |
| Renderings.CaseExact | back/src/domain/segmentation.rs:607-613 | Changing the case keeps every letter and leaves only small or only capital ones. |
| Renderings.RangeIsReached | back/src/domain/segmentation.rs:510-534 | Both ends of a cyclic field's range are values of timestamps with that range, so no range is wider than its values. |
| SegmentationTheorems.Validate | back/src/domain/segmentation.rs:236-255 | Validation passes exactly the valid configs and names the first invalid band. |
| SegmentationTheorems.ValidateBand | back/src/domain/segmentation.rs:257-293 | A band passes exactly when its dates are ordered, its template parses, every configured part is used and allowed, and its offset is not negative. |
| SegmentationTheorems.BandTagIsGoodExactly | back/src/domain/segmentation.rs:352-405 | A tag from a band of a valid config has one label per template level under the root, and parses as valid and unreserved exactly when the root is stored without surrounding whitespace. |
| SegmentationTheorems.CatchAllIsGoodExactly | back/src/domain/segmentation.rs:372-374 | The catch-all tag is one level under the root and good exactly when the root and its own name are stored trimmed. |
| SegmentationTheorems.UntrimmedRootGivesBadTag | back/src/domain/segmentation.rs:236-255 | A concrete config that passes validation and yields an invalid tag. |
| SegmentationTheorems.ResolvedTagsAreGood | back/src/domain/segmentation.rs:352-405 | For every timestamp or none, a valid config with trimmed root and catch-all name resolves to one outcome, and a tag it yields is valid, unreserved, strictly under the root, and as deep as the root plus the levels of the first covering band, or, when no band covers or the picture is undated, plus one for the catch-all. |
| SegmentationTheorems.FirstCovering | back/src/domain/segmentation.rs:362-369 | When some band covers a timestamp, one of them is the first. |
| PlaceholderTheorems.StridedTextExact | back/src/domain/segmentation.rs:443-482 | A strided number renders the last aligned value up to the projected one, the first aligned one after it (or the value before that, within the cycle), or both around the separator; it panics when padded beyond 65535. |
| PlaceholderTheorems.NumberLevelSortsByBlock | back/src/domain/segmentation.rs:443-490 | A level that is one number gives two timestamps the same label exactly when one aligned block holds both their values. |
| PlaceholderTheorems.NamesCoverTheRange | back/src/domain/segmentation.rs:566-602 | A field with names has exactly one per value of its range. |
| PlaceholderTheorems.NamesTellValuesApart | back/src/domain/segmentation.rs:566-602 | Names, abbreviated or not, tell the values of a field apart. |
| SegmentationTheorems.LevelPanicsExactly | back/src/domain/segmentation.rs:390-401 | Rendering a level panics exactly when one of its placeholders has no range, or is a number padded beyond the 65535 characters that a run-time width may ask for. |
| SegmentationTheorems.BandRendersExactly | back/src/domain/segmentation.rs:385-405 | A band of a valid config renders a timestamp exactly when its offset applies, every placeholder of its template has a range there and every configured padding fits. |
| SegmentationTheorems.InnerYearsRenderExactly | back/src/domain/segmentation.rs:385-405 | Strictly inside the representable years, a band of a valid config whose offset has been applied renders exactly when no configured number is padded beyond 65535. |
| SegmentationTheorems.WidePadAlwaysPanics | back/src/domain/segmentation.rs:550-557 | A concrete config that validation accepts and that panics on every timestamp: `{year}` padded to 65536. |
| SegmentationTheorems.NumberLabelsAreInjective | back/src/domain/segmentation.rs:550-557 | A rendered non-negative number is its own label, so labels tell such numbers apart under one padding. |
| SegmentationTheorems.NumberLabelsExact | back/src/domain/segmentation.rs:550-557 | Unpadded numbers share a label exactly when they are equal up to sign, so a year before year 0 shares the label of its positive twin. |
| Exif.ApplySet | common/src/job.rs:260-301 | Field by field, a present value overwrites and an absent one leaves the rest. |
| Exif.Applied | common/src/job.rs:331-336 | Set, then clear: a field both set and cleared ends up without a value; technical metadata stays. |
| Exif.ClearFieldExact | common/src/job.rs:304-320 | Clearing nulls one field and nothing else. |
| Exif.AppliedIsUnique | common/src/job.rs:331-336 | An edit has one outcome. |
| Exif.DiffTo | common/src/job.rs:366-403 | The difference sets exactly the fields that differ and are present in the target, and clears exactly those that are absent there. |
| Exif.DiffReachesTarget | common/src/job.rs:366-403 | Applying a difference reaches the target on all thirteen editable fields, never sets what it clears, and is empty exactly when nothing differs. |
| Exif.NormalizeExact | common/src/job.rs:251-256 | In double arithmetic, normalising keeps which fields are present and the accuracy in its range, and a normalised edit reads back unchanged while the accuracy and the f-number are below 2^45 + 1/64. |
| Exif.NormalizeRounds | common/src/job.rs:251-256 | The focal length goes to the nearest whole number, away from zero on a tie; the accuracy and the f-number, up to twenty million, to the double of the nearest hundredth; every other field stays. |
| Doubles.CentsIdempotentExactly | common/src/job.rs:252 | Rounding to two decimals again changes no double up to a bound, exactly when the bound is below 2^45 + 1/64. |
| Doubles.UnstableCents | common/src/job.rs:252 | The concrete f-number 2^45 + 1/64, which rounding to two decimals changes twice. |
| NearestDoubles.RoundingExists | common/src/job.rs:252 | Some function rounds as the theorems about double arithmetic assume. |
| Exif.CoupleGps | back/src/domain/validation.rs:12-31 | Any coordinate pulls in the whole GPS group at the end of the list, in order and without repeats; the accuracy alone does not. |
| Exif.ValidateExifEdit | back/src/domain/validation.rs:34-73 | An edit is accepted exactly when nothing set is removed after coupling, ranges hold and it is not at (0, 0); the result is rounded and coupled. |
| ExifRows.JsonRoundTrip | common/src/job.rs:229-245 | Reading the serialised struct gives the struct back. |
| ExifRows.ColumnsRead | back/src/domain/received_exif.rs:90-117 | Any object, well-typed or not: each promoted column reads by its own key, integers wrap around to the column's width, and what is no number or timestamp reads as nothing. |
| ExifRows.CameraReads | back/src/domain/received_exif.rs:72-80 | Without a key of the wrong type each camera field reads by its own key, an integer also as a float. |
| ExifRows.TechnicalReads | back/src/domain/received_exif.rs:72-80 | The same of the four technical fields. |
| ExifRows.SpoiledCamera | back/src/domain/received_exif.rs:72-80 | One camera key of the wrong type empties the whole camera struct. |
| ExifOverrides.OverridePatch | back/src/domain/received_exif.rs:41-57 | The patch holds the set values and an explicit null per emptied field; the dropped keys follow the clear list. |
| ExifOverrides.Materialize | back/src/domain/received_exif.rs:82-117 | The override keys win one by one, and the columns are read off the merge with the no-fix sentinel dropped. |
| ExifOverrides.NullIslandDropsTheGroup | common/src/job.rs:210-219 | At (0, 0) the coordinates, the altitude and the accuracy all go and nothing else does; anywhere else everything stays. |
| ExifOverrides.OverridesStickExactly | back/src/repository/picture.rs:268-293 | Against any later owner snapshot: a patched key sticks exactly when it said something new, an untouched claim sticks, every other key follows the owner. |
| ExifOverrides.PruningIsInvisible | back/src/repository/picture.rs:278-293 | Dropping override keys equal to the owner's value changes no value read against the same snapshot. |
| ExifOverrides.PruningKeepsTheObjectExactly | back/src/repository/picture.rs:278-293 | The merged JSON objects agree exactly when no field was claimed empty that the owner does not carry either. |
| ExifOverrides.StatementAndAnnouncementAgreeExactly | back/src/repository/picture/batch.rs:84-141 | After every sequence of announcements and edits, the row the one-statement override write produces and the row a later announcement of the same snapshot produces read alike exactly when the merge is not at (0, 0): only the announcement path drops the sentinel. |
| ExifOverrides.SentinelSurvivesTheStatement | back/src/repository/picture/batch.rs:84-141 | A concrete owner snapshot at (0, 0) that the statement writes through and the announcement path drops. |
| ExifOverrides.JsonMergeIsApplied | back/src/domain/received_exif.rs:41-117 | A patch laid over the owner's JSON reads as the typed edit of the owner's struct with the emptied fields as its removals. |
| ExifEdits.UpdateOwned | back/src/repository/picture.rs:319-380 | The assignments an owned-row edit builds: per column set beats clear, and the JSON patch is laid over after cleared keys are dropped. |
| ExifEdits.OwnedFieldExact | back/src/repository/picture.rs:319-380 | On the row a field that is both set and cleared ends up set. |
| ExifEdits.OwnedUpdateIsAppliedExactly | back/src/repository/picture.rs:319-380 | The row update and the typed edit reach the same thirteen fields exactly when nothing is both set and cleared. |
| ExifEdits.SetAndClearedDiffers | back/src/repository/picture.rs:319-380 | A concrete edit on which the row update and the typed edit differ. |
| ExifEdits.OwnedTechnicalExact | back/src/repository/picture.rs:365-380 | Technical metadata carried by an edit is merged into the row, which the typed edit never does. |
| ExifEdits.AcceptedEditsAgree | back/src/domain/validation.rs:34-73 | An accepted edit has one meaning in all three encodings: typed struct, owner's row, recipient's JSON. |
| ExifEdits.DiffOnTheRowReachesTarget | common/src/job.rs:366-403 | A difference applied as a row update reaches the target. |
| WebDav.EncodeSegment | back/src/api/webdav.rs:772-782 | The byte loop computes the percent-encoding. |
| WebDav.PercentDecode | back/src/api/webdav.rs:753-769 | The index loop computes the text of a segment: malformed escapes kept as they are, malformed UTF-8 replaced; the result is always well-formed. |
| WebDav.TextRoundTripExactly | back/src/api/webdav.rs:753-791 | As text, an encoded byte string comes back exactly when it is well-formed UTF-8. |
| Utf8.LossyIsIdentityExactly | back/src/api/webdav.rs:768 | The lossy conversion leaves exactly the well-formed byte strings alone. |
| Utf8.Utf8Exactly | back/src/api/webdav.rs:768 | A byte string is well-formed exactly when it is the encoding of some Unicode scalar values (section 3 of RFC 3629). |
| LossyText.LossyReads | back/src/api/webdav.rs:768 | A character at the front is kept, malformed bytes are replaced one replacement character per longest start of a character (section 3.9 of the Unicode Standard), and the conversion goes on behind them. |
| WebDav.DecodeEncode | back/src/api/webdav.rs:753-791 | Decoding undoes encoding for every byte string. |
| WebDav.EncodeIsSafe | back/src/api/webdav.rs:772-782 | Encodings hold only unreserved characters and percent signs (sections 2.1 and 2.3 of RFC 3986) and are empty only for the empty string. |
| MountPaths.EncodeByByte | back/src/api/webdav.rs:772-782 | Letters, digits and `-._~` stand for themselves; any other byte is a percent sign and its two upper-case hex digits. |
| MountPaths.UnescapedIsKept | back/src/api/webdav.rs:753-769 | A text without a percent sign before two hex digits, of either case, decodes to itself. |
| MountPaths.FirstEscape | back/src/api/webdav.rs:753-769 | The first escape of any text gives the byte of its two digits, the first one the high half, and decoding goes on behind it. |
| MountPaths.HexValExact | back/src/api/webdav.rs:785-791 | The value of a hex digit is its place among the sixteen, in lower or upper case. |
| WebDav.HrefFor | back/src/api/webdav.rs:732-742 | The loop computes the printed path. |
| WebDav.ParseHref | back/src/api/webdav.rs:707-742 | Parsing a printed path gives back the texts of its non-empty parts. |
| WebDav.ParseUndoesHrefExactly | back/src/api/webdav.rs:707-742 | Parsing undoes printing exactly when the slug and every segment is non-empty well-formed text. |
| WebDav.EmptySegmentIsLost | back/src/api/webdav.rs:707-742 | A concrete path whose empty segment does not survive. |
| MountPaths.HrefReads | back/src/api/webdav.rs:732-742 | A printed path is the mount's name, the encoded slug and the encoded segments, each after a slash, and one more slash for a directory. |
| MountPaths.MountExactly | back/src/api/webdav.rs:707-730 | A path of non-empty parts is found exactly when its first part is the mount's name and a second follows; that is the slug and the rest are the segments, in order and as text. |
| MountPaths.SlashesCollapse | back/src/api/webdav.rs:707-730 | Slashes at the ends of a path and repeated ones inside do not count. |
| WebDav.XmlEscapeIsOnePass | back/src/api/webdav.rs:744-750 | The five replacements in sequence equal escaping each character once. |
| RateLimit.KeysNeverCollide | back/src/infra/redis.rs:77-106 | A limiter counter and an event counter share a stored key only for a bucket that starts with `event:`. |
| RateLimit.Cache.Incr | back/src/infra/redis.rs:277-296 | Increment; the time to live is set only on the first hit of a window, and not when the connection breaks before. |
| RateLimit.Cache.CheckCategorized | back/src/infra/ratelimit.rs:27-82 | Accept while the counter is within max, else record the rejection; fail open whenever an answer of the cache is missing, with what the increment has done by then. |
| RateLimit.HitsNeverExtendAWindow | back/src/infra/ratelimit.rs:59-82 | No hit, accepted or not, moves the end of an open window, and no request touches another bucket. |
| RateLimit.AcceptedPerWindow | back/src/infra/ratelimit.rs:59-82 | A window accepts at most max requests until it closes. |
| RateLimit.AcceptedPerInterval | back/src/infra/ratelimit.rs:59-82 | For every request sequence an interval no longer than the window holds at most 2·max − 1 accepted requests of a bucket, and at most 2·max with both ends included. |
| RateLimit.BoundIsReached | back/src/infra/ratelimit.rs:59-82 | The bound of 2·max is reached. |
| RateLimit.ZeroWindowNeverLimits | back/src/infra/ratelimit.rs:59-82 | With a window of zero and a limit of at least one, every request of every timely sequence is accepted, in every bucket and interval. |
| RateLimit.BoundNeedsAWindowExactly | back/src/infra/ratelimit.rs:59-82 | For a limit of at least one, the bound of 2·max per interval holds of every sequence exactly when the window is at least one. |
| RateLimit.LostExpiryLimitsForEver | back/src/infra/redis.rs:277-296 | Whatever fails or recovers later, a counter that lost its expiry lets at most max minus its count more answered requests through, ever. |
| RateLimit.LockedOutExactly | back/src/infra/ratelimit.rs:55-82 | The limiter fails open so that an outage cannot lock anyone out. Yet every later answered request of a bucket is rejected for ever exactly when max is zero, or its counter has no expiry and has reached max. |
| RateLimit.OutageLocksOut | back/src/infra/redis.rs:284-294 | A concrete run: a connection that breaks between the increment and the expiry of a first hit, and max hits later the bucket is locked out for ever. |
| RateLimit.EventsCountRejectionsExactly | back/src/infra/ratelimit.rs:47-52 | From an empty cache every minute's event counter holds exactly the rejections of its category in that minute, for every request sequence, exactly when events are kept for a minute at least or nothing can be rejected. |
| Dedup.PictureTable.Survive | back/src/repository/dedup.rs:468-498 | Shows the chosen row, hides the rest of its group, and reports whether a row was hit. |
| Dedup.PictureTable.Reject | back/src/repository/dedup.rs:354-394 | Trashes the whole group with one manual representative and counts it. |
| Dedup.OperationsKeepConsistent | back/src/repository/dedup.rs:266-530 | Every operation keeps: a row is hidden exactly when it has a reason. |
| Dedup.SurvivorExact | back/src/repository/dedup.rs:468-498 | The survivor's group has exactly that live row, all others hidden as content_dedupe; no other group or user changes. |
| Dedup.SurvivorReportExact | back/src/repository/dedup.rs:468-498 | The call reports true exactly when the user holds the picture and it has a content key. |
| Dedup.KeylessPictureIsNotReported | back/src/repository/dedup.rs:468-498 | A concrete held picture without hashes that is not reported. |
| Dedup.RejectExact | back/src/repository/dedup.rs:354-394 | A rejected group has no live row and exactly one manual row, the first in the survivor order; no other group changes. |
| Dedup.BestIsUnique | back/src/repository/dedup.rs:354-394 | The survivor order has one first row. |
| Dedup.LiveGroupsHaveNoBoomerang | back/src/repository/dedup.rs:434-464 | After the batch restore no boomerang is left beside a live row, and repeating it changes nothing. |
| Dedup.ManualGroupsHaveNoDedupe | back/src/repository/dedup.rs:503-530 | After the batch trash no content_dedupe row is left beside a manual one, and repeating it changes nothing. |
| Dedup.NeedyGroupsAreCandidates | back/src/repository/dedup.rs:57-106 | Under three-valued logic every group that needs reconciling is returned as a candidate key. |
| Dedup.LoneGroupExact | back/src/repository/dedup.rs:53-80 | A group of one row is a candidate exactly when the row is content_dedupe or boomerang, where the documentation excludes lone boomerangs. |
| Dedup.LoneBoomerangIsReturned | back/src/repository/dedup.rs:53-80 | A concrete table with one boomerang row, which the query returns. |
| Dedup.SettledGroupsNeedNothing | back/src/repository/dedup.rs:86-106 | Right after a survivor choice or a rejection the group satisfies no needs-reconcile clause. |
| DedupChanges.OneRowChanges | back/src/repository/dedup.rs:266-347 | Hiding and promoting touch the named row only: hidden rows keep the time of their first deletion, and only a content_dedupe row is shown. |
| DedupChanges.GroupRowsKeep | back/src/repository/dedup.rs:354-498 | The rows of a survivor's or a rejected group keep their content and, hidden, the time of their first deletion; each is marked for the pipeline. |
| DedupChanges.BestExact | back/src/repository/dedup.rs:354-394 | The representative is a row the owner still has if there is one, among those an owned one, among those an original, and among equals the one with the lowest id. |
| DedupChanges.SiblingsExact | back/src/repository/dedup.rs:401-428 | Exactly the boomerangs that share the picture's content key, but not the picture itself, become content_dedupe; no other row changes, and none for a picture without a key. |
| DedupChanges.LiveGroupsExact | back/src/repository/dedup.rs:434-464 | Exactly the boomerangs of the user's groups that hold a live row become content_dedupe; every other row stays. |
| DedupChanges.ManualGroupsExact | back/src/repository/dedup.rs:503-530 | Exactly the content_dedupe rows of the user's groups that hold a manual rejection become boomerangs; every other row stays. |
| DedupChanges.NeedyExactly | back/src/repository/dedup.rs:86-106 | A group needs reconciling exactly when two rows are live, or none is and it holds content_dedupe rows without any rejection, or boomerangs without a manual row. |
| DedupChanges.CandidateExactly | back/src/repository/dedup.rs:57-80 | A group is a candidate exactly when it has two rows, or a content_dedupe row, or a boomerang without a manual row, whatever reasons are null. |
| DedupChanges.SameGroupExactly | back/src/repository/dedup.rs:116-130 | Two rows share a group exactly when they are of one user and agree on the content hash, or, where it is missing, on the file hash behind its prefix. |
| Predicates.FittingConditionsHaveMeaning | back/src/domain/predicate.rs:255-305 | A condition has a meaning on a field's value exactly when it fits the field's base type, and evaluation then computes that meaning. |
| Predicates.WellFormedNeverMismatches | back/src/domain/predicate.rs:332-365 | Evaluating a well-formed tree on any picture never reaches a type-mismatch arm. |
| Predicates.AbsentSatisfiesOnlyAbsence | back/src/domain/predicate.rs:256-264 | An absent value satisfies only the request that it be absent. |
| Predicates.AbsentCreatorMatchesNothing | back/src/domain/predicate.rs:103-130 | A picture without a creator satisfies no condition that a rule may put on the creator. |
| Predicates.TimeRangeIsCyclic | back/src/domain/predicate.rs:289-301 | A time range is membership in the cyclic interval from start to end, past midnight included. |
| Predicates.TimeRangeComplement | back/src/domain/predicate.rs:289-301 | A range and its reverse split every other moment of the day between them. |
| Predicates.ConditionOrderIsIrrelevant | back/src/domain/predicate.rs:359-362 | The order of a field's conditions does not matter. |
| Predicates.ConditionsConjoin | back/src/domain/predicate.rs:359-362 | Several conditions on a field equal the conjunction of one-condition fields. |
| Predicates.NotAll | back/src/domain/predicate.rs:342-344 | The negation of a conjunction is the disjunction of the negations. |
| Predicates.NotAny | back/src/domain/predicate.rs:342-344 | The negation of a disjunction is the conjunction of the negations. |
| Predicates.BoxIsFourConditions | back/src/domain/predicate.rs:345-355 | A bounding box is a minimum and a maximum on each coordinate. |
| PredicateParsing.AcceptedConditionIsOk | back/src/domain/predicate.rs:501-611 | An accepted condition fits its field's type with ordered, in-range constants; a refused one is reported at its node. |
| PredicateParsing.CollectConditions | back/src/domain/predicate.rs:487-494 | The loop collects the conditions in order or stops at the first offending entry. |
| PredicateParsing.DateOnlyRangeExact | back/src/domain/predicate.rs:615-627 | A range of two dates, documented as full days, matches exactly the timestamps of those days but for the fractions after 23:59:59 of the last one. |
| PredicateParsing.LastHalfSecondIsMissed | back/src/domain/predicate.rs:615-627 | A concrete timestamp of the final day that the range misses. |
| PredicateParsing.AcceptedTreesAreSound | back/src/domain/predicate.rs:335-337 | An accepted tree is well formed, nested at most ten deep, and never mismatches types on any picture. |
| PredicateParsing.DepthLimitIsExact | back/src/domain/predicate.rs:380-386 | An acceptable leaf is accepted under up to ten negations and not more. |
| PredicateParsing.RejectionNamesANode | back/src/domain/predicate.rs:380-421 | Every rejection names a node that is there, and nesting is refused at depth eleven only. |
| PredicateMeaning.ParsedTreeSaysTheRule | back/src/domain/predicate.rs:332-627 | A JSON tree is accepted exactly when it is a rule nested at most ten deep, and the parsed tree then matches exactly the pictures the JSON says: all of `and`, some of `or`, the opposite of `not`, inside the box or the circle by its coordinate keys, or every condition key of the named field. |
| PredicateMeaning.KeyIsRead | back/src/domain/predicate.rs:501-611 | For every field name and condition key: accepted exactly when the field takes it with such a value, and read as what it asks of the column of that name. |
| Reconcile.Resolver.Collect | resolver/src/routine.rs:119-134 | The user lists of the backends that were reached and answered, the last registration of a domain winning. |
| Reconcile.Resolver.FirstClaims | resolver/src/routine.rs:139-145 | Each claimed username goes to the first backend, in iteration order, that claims it. |
| Reconcile.Resolver.Fix | resolver/src/routine.rs:150-161 | Adds or moves exactly the mappings that differ and counts both. |
| Reconcile.Resolver.Run | resolver/src/routine.rs:116-175 | The table after a pass, for every iteration order, and how many mappings it added, moved and removed: the differences between the table before and after. |
| Reconcile.DesiredExact | resolver/src/routine.rs:139-145 | A username is desired exactly when some queried backend claims it, with the first claimant. |
| Reconcile.PassExact | resolver/src/routine.rs:116-175 | A claimed username maps to a backend that claims it; an unclaimed one is removed exactly when its own backend was queried; all others keep their mapping. |
| Reconcile.QueriedExact | resolver/src/routine.rs:119-134 | A domain is queried exactly when some registration of it was reached and answered, and its list is that of the last such registration. |
| Reconcile.PassFromBackends | resolver/src/routine.rs:116-175 | From the backends themselves: a username some reached and answering backend claims maps to one that claims it; a mapping goes exactly when nobody claims it and some registration of its own backend was reached and answered; else it stays. |
| Reconcile.SecondPassIsIdleExactly | resolver/src/routine.rs:116-175 | A second pass on the same lists changes nothing, whatever the two iteration orders, exactly when no username is claimed twice. |
| Reconcile.RivalsMoveTheUser | resolver/src/routine.rs:139-145 | Concrete rival claims under which a second pass moves a user. |

## Left out

- HTTP handlers, authentication, storage, observability and the front-ends: plumbing and foreign calls.
- The bodies of routine runs, panics inside a run and the interval sweeps.
- The dedup reconciler, the job-respond handler, the rest of the virtual file system and the announcement pipeline: not part of this model.
- Two concurrent statements that a lock would order: each statement is atomic, and skipping locked rows is an argument of the claim.
- JobStore: the columns `config` and `trace_context` of a job and the updates that only touch them.
- WorkerPool: how a handler computes its outcome, and how the respond handler maps it to complete or fail.
- WriteBacks: tags that a service asserts, and the case folding of assigned tags; the operations act on the manual tags of one live picture, written as given.
- The text of error messages; error kinds, the first error and error paths are kept where stated.
- A debug build, in which the sum of hours and minutes panics instead of wrapping.
- JSON documents written by hand into the override columns: stored objects are those that announcements and edits write.
- Doubles: no overflow to infinity; the rounding of results beyond 2^53 is not specified, and no theorem speaks about it.
- The other tables of a rename cascade: tags, services, hierarchies, public shares and tag metadata.
- CaseFolding and HierarchyNodes: ASCII case folding as the code does for tags; sibling names fold by a parameter.
- Invites, settings, tag metadata, creator credits, e-mail checks and MIME tables: one-branch facts.
