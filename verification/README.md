# Verified model of clue-code's coordination and accounting core

A Dafny model of the parts of clue-code where several pieces of state have to agree: the team
scheduler with its journal and crash recovery, the token cache, the daily budget, the
versioned state store, and the JSON-RPC pending-call table. `dafny verify dfyconfig.toml`
checks it.

## What is modelled

Team coordination (`internal/team`)

- `Graph`, `SchedulerSpec`, `Scheduling`: dependency graphs and what a cycle is; the
  scheduler's operations as functions on values with what every run of them keeps; and the
  scheduler as an object with shared task objects and Kahn's loop.
- `Transport`, `Journaling`: newline-delimited framing on bytes, the line scanner, the journal
  file with torn-tail recovery. The JSON encoder is a parameter of which only this is used,
  for the envelopes journaled: encodings are nonempty, contain no newline, do not end in a
  carriage return, and parse back (`CodecExists` shows that one codec can do so for all).
- `TeamSpec`, `Interleaving`, `TaskLists`, `TeamProgress`: the registry, live operations and
  replay as functions; where replay and the live team differ, what of it the task list shows,
  and when direct status writes lose a wakeup.
- `Effects`: what each operation does to the tasks, in status texts and dependencies alone.
- `Teams`: the team object over scheduler, journal and mailboxes, opened from arbitrary bytes.
- `SeqNumbers`: sequence numbers when the steps of many producers interleave, with crashes.
- `MailboxProtocol`: message delivery when the steps of many senders and receivers interleave.
- `Stalls`: the stall detector.

Tokens and budget (`internal/tokens`, `internal/model`)

- `CacheSpec`, `Caching`: the two-level cache on values, and as a doubly linked list with
  sentinels and a map.
- `LruStack`, `SourceFiles`: the cache measured against the order of last use, and hits that
  do not depend on the capacity, without and with source files.
- `Budgets`, `Middleware`, `ModelClient`: the ledger, many calls sharing a budget, and one
  call through its middleware. Amounts are real numbers; `Sums` holds totals over maps.

State store (`internal/state`)

- `FileLock`, `VersionedStore`: the polling lock, and many processes running lock, read, write
  temporary file, rename, unlock, with lock timeouts and crashes anywhere.

Adapters (`internal/adapters/mcp`)

- `PendingCalls`: callers, read loop and crash drain over the table of pending calls, with a
  server that answers each id at most once (section 5 of the JSON-RPC 2.0 Specification).

An object whose methods change it is a class whose methods are tied to functions on values;
the properties are lemmas about those functions. Map iteration takes keys in an arbitrary
order. Concurrent parts are step machines: a run is any sequence of steps, and a step that is
not possible changes nothing.

## Where the code differs from its comments and documentation

- `docs/team-transport.md:268` promises that reopening gives a task list identical to the one
  before the crash. Registry and scheduler are recovered at every point of a run exactly under
  the condition of `TeamSpec.ReplayEqualsLiveExactly`: a rejected re-creation of a task the
  scheduler holds takes the old task out of the live scheduler without a journal line, and a
  status text outside the five known ones becomes pending on replay. An operation that breaks
  this condition shows in the task list at once or in a continuation
  (`TaskLists.TaskListRecoversExactly`). All this is about operations made one at a time; for
  an update that falls into a creation `Interleaving.InterleavedReplaysExactly` has the
  condition.
- The comments at `internal/model/http.go:143` and `internal/tokens/budget.go:140-142` speak
  of releasing a reservation. `Commit(0)` after a failure releases nothing, and an actual cost
  below the estimate leaves the difference reserved (`Budgets.CommitNeverReleases`,
  `ModelClient.ChargeOfOneDay`).
- The ledger replays to the live figures except for operations whose day check and ledger line
  fall on different days with a nonzero amount (`Budgets.LedgerReplaysExactly`).
- Creating a team under an id whose journal is not empty restarts the numbers at 0
  (`SeqNumbers.UniqueIffCreatedEmpty`).
- The comment at `internal/team/stalled.go:56-58` says that arming from the journal prevents a
  stall event right after a restart. It sets the last progress to the latest journal time, so
  an event can follow at the first tick (`Stalls.FirstOverdueTickFires`), as
  `docs/team-transport.md:238` describes.
- The check for room before the journal keeps refused messages out of it exactly for a single
  sender without broadcasts (`MailboxProtocol.OverflowsExactly`).
- A call that registers after the server has exited is not told: the drain releases exactly
  the calls that are in the table (`PendingCalls.ExitReleasesExactly`).
- A caller that writes the status blocked to a scheduled task whose dependencies are all
  completed leaves it blocked although it waits for nothing (`TeamProgress.TeamSoundExactly`).
- The limit of the daily budget can be passed exactly on days that begin with calls in flight
  (`Middleware.OvershootsExactly`).

## Model

| member | source | states |
|---|---|---|
| Graph.OrderedMeansAcyclic | internal/team/scheduler.go:109-157 | A topological order of all registered and referenced ids rules out every cycle: one half of why Kahn's loop decides acyclicity |
| Graph.StuckMeansCyclic | internal/team/scheduler.go:109-157 | If every id of a nonempty set waits for an id of the set, the dependencies contain a cycle: the other half |
| Graph.FewerEdgesStayAcyclic | internal/team/scheduler.go:45-49 | Removing the rejected task cannot make a graph cyclic that was acyclic before |
| Scheduling.Scheduler.DetectCycle | internal/team/scheduler.go:109-157 | The queue loop over the in-degree table reports a cycle if and only if some walk along dependencies returns to its start, with duplicate dependencies, self-dependencies and forward references allowed and any map iteration order |
| Scheduling.KahnVerdict | internal/team/scheduler.go:153-156 | When the queue runs dry, fewer ids were visited than have an in-degree exactly when the graph is cyclic |
| Scheduling.PopFront | internal/team/scheduler.go:134-138 | The front of the queue has only visited dependencies, so the visiting order stays topological and never visits an id twice |
| Scheduling.Scheduler.InDegrees | internal/team/scheduler.go:110-124 | The table has an entry for every registered or referenced id and counts each mention of a dependency |
| Scheduling.Scheduler.Relax | internal/team/scheduler.go:140-150 | Consuming an id lowers its dependents once per mention, and enqueues exactly those that reach zero, once each |
| Scheduling.Scheduler.AddTask | internal/team/scheduler.go:35-58 | Accepts exactly when the new graph is acyclic; the new scheduler state is the specified one (pending or blocked on acceptance, the id gone on rejection) and a rejected task object keeps its status |
| Scheduling.Scheduler.MarkComplete | internal/team/scheduler.go:63-82 | Whatever order the tasks are scanned in, the result lists, once each, exactly the tasks that became ready, and those alone start |
| Scheduling.StartOne | internal/team/scheduler.go:71-80 | Starting a task during the scan neither makes nor unmakes another task ready, so the scan order does not matter |
| Scheduling.Scheduler.MarkFailed | internal/team/scheduler.go:86-93 | Only the named task fails; a failure does not cascade |
| Scheduling.Scheduler.AllDepsComplete | internal/team/scheduler.go:97-105 | True exactly when every dependency is registered and completed |
| SchedulerSpec.AddKeepsAcyclic | internal/team/scheduler.go:35-58 | The dependency graph stays acyclic after every addition, accepted or rejected |
| SchedulerSpec.StepKeepsInvariant | internal/team/scheduler.go:35-105 | Every operation keeps the graph acyclic and leaves no blocked task whose dependencies are all completed |
| SchedulerSpec.EveryRunKeepsInvariant | internal/team/scheduler.go:35-105 | No lost wakeup and acyclicity over every run of additions, completions and failures |
| SchedulerSpec.WakesExactlyDirectDependents | internal/team/scheduler.go:60-82 | Completing x starts exactly the blocked tasks that waited for x and nothing else, changes no other task, and does nothing for a completed or unknown id |
| Effects.AddByDependencies | internal/team/scheduler.go:35-58 | In statuses and dependencies alone: a rejected id is gone, an accepted one is pending if all its dependencies are registered and completed and blocked otherwise, and no other task changes |
| Effects.FailByName | internal/team/scheduler.go:86-93 | A failure makes its own task failed and leaves every other one as it was |
| Effects.CompleteByName | internal/team/scheduler.go:63-82 | A completion makes its own task completed and keeps ids and dependencies |
| SchedulerSpec.NoDeadlock | internal/team/scheduler.go:35-105 | In every acyclic state without lost wakeups in which nothing can run, every blocked task has a dependency chain of blocked tasks to one that stopped or was never added; without unknown statuses, to a failed or never-added one |
| SchedulerSpec.NoRunDeadlocks | internal/team/scheduler.go:35-105 | In every state a run of the scheduler reaches in which nothing can run, every blocked task has such a chain to a failed or never-added one |
| SchedulerSpec.ClosedGraphMoves | internal/team/scheduler.go:35-105 | A closed graph without failures has a task that can run until all are completed |
| SchedulerSpec.CompletionOrderIsTopological | internal/team/scheduler.go:35-105 | With fresh ids and only runnable tasks completed, the completion order is a topological order and lists exactly the completed tasks |
| SchedulerSpec.FinishesAfterExactlyN | internal/team/scheduler.go:35-105 | A closed graph of n tasks without failures is finished after n completions and not before |
| Transport.LinesOfEncoded | internal/team/transport.go:41-57 | The lines of concatenated encodings are the encodings, in order |
| Transport.ReadBack | internal/team/journal.go:95-142 | Reading back encoded envelopes gives the same envelopes if all have the current version, and otherwise fails with the first other version |
| Transport.BadLineStopsRead | internal/team/journal.go:124-142 | After any current envelopes, a line that is no JSON or lacks the rest of an envelope fails the read as malformed, and one with another version as unsupported |
| Transport.BlankLineIsSkipped | internal/team/journal.go:106-117 | A blank line between journaled envelopes changes nothing of what is read |
| Transport.LastLineCounts | internal/team/transport.go:51-57 | A last line without its line break is the same line as with it, and a carriage return at its end is not part of it |
| Transport.ReturnIsDropped | internal/team/transport.go:51-57 | A carriage return before a line break does not belong to the line |
| Transport.ReceivedAsRead | internal/team/transport.go:69-88 | Receiver and journal judge a line alike, except one with a foreign version that is no envelope: malformed to the receiver, unsupported to the journal |
| Transport.ReceiveEncoded | internal/team/transport.go:69-88 | The k-th received line is the k-th envelope sent, accepted exactly when its version is current |
| Transport.Scanner.Scan | internal/team/transport.go:53-64 | Each scan returns the next line and leaves exactly the rest; it stops when no line is left |
| Transport.DecodeNext | internal/team/transport.go:66-88 | Skips blank lines only, decodes the first other line, and reports the end of input exactly when nothing but blank lines was left |
| CodecExists.AFaithfulCodecExists | internal/team/transport.go:40-49 | What is assumed of the JSON encoding (nonempty, free of line breaks, parses back) can be met |
| Journaling.Journal.constructor | internal/team/journal.go:43-75 | Opening a journal first drops its torn tail |
| Journaling.Journal.Append | internal/team/journal.go:79-90 | The file grows by exactly one encoded line |
| Journaling.Journal.Read | internal/team/journal.go:92-122 | The loop returns all envelopes in order, or the first decoding error |
| Journaling.Journal.RecoverTornTail | internal/team/journal.go:144-186 | The byte loop leaves exactly the part up to and including the last newline |
| Journaling.RecoverAnyCut | internal/team/journal.go:144-186 | For every list of envelopes and every byte cut, recovery leaves the encodings of the envelopes whose lines are complete |
| Journaling.SurvivorsAreMaximal | internal/team/journal.go:144-186 | Those are all the envelopes whose lines end within the cut, and no others |
| Journaling.RecoveryIsIdempotent | internal/team/journal.go:144-186 | Recovering twice is recovering once, and only bytes after the last newline are lost |
| Journaling.JournalSurvivesManyCrashes | internal/team/journal.go:43-186 | Over any number of append, cut and reopen cycles the file is a concatenation of whole lines and reads as the surviving envelopes in order |
| Teams.Team.CreateTeam | internal/team/team.go:131-169 | A created team journals one envelope with sequence number 0; over an empty journal it is the start state of the one-at-a-time model |
| Teams.Team.TaskCreate | internal/team/team.go:327-399 | Registry, scheduler, mailboxes (the owner gets an empty one unless it has one), counter and journal bytes after a creation; a rejected one journals nothing; each call is one step of the one-at-a-time model |
| Teams.Team.Enter | internal/team/team.go:341-383 | Registry and scheduler share the task object: its status is what the scheduler decided, also when replay keeps a task the scheduler rejects |
| Teams.Team.TaskUpdate | internal/team/team.go:487-537 | An unknown id changes nothing; otherwise one line is journaled and the task has the status its text names, any other text as it is; completions and failures go through the scheduler |
| Teams.Team.SetStatus | internal/team/team.go:517-533 | Writing a status and evaluating downstream tasks through the shared objects gives the specified registry |
| Teams.Team.SendMessage | internal/team/team.go:402-455 | Refuses exactly when the mailbox holds 256 items, with the journal untouched; otherwise the message is journaled and appended to the queue there was, with the same number, and no other mailbox changes |
| Teams.Team.PushToAll | internal/team/stalled.go:180-187 | Broadcasting appends the message to every targeted mailbox with fewer than 256 items, once, and changes no other, in any order |
| Teams.Team.RecoverPanic | internal/team/panic.go:19-86 | A panic fails the owning task only, journals the update if the task exists and then the event under consecutive numbers, and tells every mailbox but the one of the worker |
| Teams.Team.AnnounceStall | internal/team/stalled.go:151-187 | A stall event is journaled under the next number, whatever the journal held, and offered to every mailbox |
| Teams.Team.Open | internal/team/team.go:193-323 | Opening any bytes fails with the read error, or yields the replayed registry, a counter past every recovered number and an empty mailbox per task owner; bytes cut from a live journal give the reopened team of the model |
| Teams.Team.ReplayAll | internal/team/team.go:218-277 | The replay loop computes the replay function and the highest sequence number |
| Teams.Team.ReplayEnvelope | internal/team/team.go:224-276 | One iteration of the replay loop, on the shared objects, is one step of the replay function |
| TeamSpec.CreateReplays | internal/team/team.go:231-258 | Replaying an accepted creation does what it did live; a rejected one is harmless exactly when the scheduler did not hold the id |
| TeamSpec.UpdateReplays | internal/team/team.go:259-273 | Replaying an update does what it did live exactly when its text is one of the five known statuses |
| Effects.UpdateByText | internal/team/team.go:509-533 | The status of a listed task after an update with each of the five texts and with any other one |
| Effects.ReplayByText | internal/team/team.go:259-273 | The same after replaying the update: any other text becomes pending |
| Effects.UpdateOfOthers | internal/team/team.go:521-533 | Another task changes only by the text completed, and then exactly if it is scheduled, blocked and has all dependencies completed: it runs |
| Effects.CreateByDependencies | internal/team/team.go:340-385 | A creation in dependencies alone: what is listed, with which status, owner and time, and what a rejection leaves |
| Effects.ReplayedCreateByDependencies | internal/team/team.go:231-258 | Replaying a creation lists the task in any case: as pending and unscheduled when the scheduler rejects it |
| TeamSpec.StepStaysInStep | internal/team/team.go:218-279 | One operation, crash and reopening included, keeps replay equal to the live state if and only if it is replayable |
| TeamSpec.ReplayEqualsLiveExactly | internal/team/team.go:218-279 | Replay equals the live registry and scheduler at every point of a one-at-a-time run if and only if no re-creation of a held task is rejected and no unknown status text is written |
| TeamSpec.CrashPrefixRecovery | internal/team/team.go:193-279 | For every such run and every byte cut: recovery, reading and replay give exactly the tasks, dependencies, statuses and scheduler state the live team had when its journal held the surviving lines |
| TeamSpec.ReopenedFromBytes | internal/team/team.go:199-279 | The reopening step of the model is what opening the cut bytes does |
| TeamSpec.EveryPrefixWasLog | internal/team/journal.go:79-90 | Every nonempty prefix of the journal is what the journal was at an earlier point, also across crashes |
| TaskLists.TaskListRecoversExactly | internal/team/team.go:472-484 | From a state in step with its journal, an operation leaves the task list after reopening equal to the live one, however the caller goes on replayably, if and only if it is replayable itself |
| TaskLists.RegistrationShows | internal/team/team.go:472-484 | When replay and the live team differ only in whether the scheduler holds a task, completing it and creating one that waits for it shows the difference in the list |
| TeamProgress.UpdateStaysSoundExactly | internal/team/team.go:521-533 | A direct status write keeps the graph acyclic and no wakeup lost if and only if it does not block a scheduled task whose dependencies are all completed |
| Effects.SoundByText | internal/team/team.go:521-533 | In texts: an update loses soundness if and only if it writes blocked to a scheduled task whose dependencies are all completed |
| TeamProgress.TeamSoundExactly | internal/team/team.go:327-537 | Over every replayable run of the team, crashes included, both hold at every point if and only if nobody does that |
| TeamProgress.TeamNeverDeadlocks | internal/team/team.go:327-537 | In such a run, whenever nothing can run every blocked task is held up by one that stopped or was never added |
| TeamSpec.UnknownTextDiverges | internal/team/scheduler.go:159-175 | An unknown status text is kept live and becomes pending on replay |
| Interleaving.CreateCommutesExactly | internal/team/team.go:327-399 | A creation of a new task and an update of another one can change places if and only if the update does not change whether the new task has all dependencies completed |
| Interleaving.InterleavedReplaysExactly | internal/team/team.go:340-385 | When an update falls between the scheduler step and the journal line of a creation, replaying the journal gives the live team if and only if the text is known and that same condition holds |
| Interleaving.InterleavedRunDiverges | internal/team/team.go:340-385 | A run in which it does not: the new task runs live and is pending after replay |
| Interleaving.RejectedReAddDiverges | internal/team/scheduler.go:41-49 | A run in which a rejected re-creation takes a waiting task from the live scheduler: completing its dependency leaves it blocked live and running after replay |
| TeamSpec.MaxSeqBounds | internal/team/team.go:219-223 | The maximum the replay loop computes bounds every recovered number and is one of them |
| TeamSpec.SeqsStrictlyIncrease | internal/team/team.go:279 | One-at-a-time runs, with any number of crashes, journal strictly increasing numbers |
| SeqNumbers.StepKeepsInvariant | internal/team/team.go:428-446 | Taking a number, appending and reopening keep all journaled and taken numbers different and below the counter |
| SeqNumbers.EveryRunKeepsInvariant | internal/team/stalled.go:154 | Over all interleavings of producers and all crashes no two journaled envelopes share a number |
| SeqNumbers.ReopenedExceedsAll | internal/team/team.go:278-279 | After opening, the next number exceeds every recovered one |
| SeqNumbers.UniqueIffCreatedEmpty | internal/team/team.go:154-163 | Numbers stay unique over every interleaving after a creation if and only if the journal was empty |
| MailboxProtocol.EveryRunConserves | internal/team/team.go:402-455 | For every message, over all interleavings of senders, receivers and broadcasts: journaled copies = received + queued + not yet pushed + overflowed after journaling |
| MailboxProtocol.OrderIsKept | internal/team/team.go:448-454 | Mailboxes are first in, first out over every run: what was received or waiting at any point stays a prefix of what is later |
| MailboxProtocol.StepConserves | internal/team/team.go:421-454 | Each single step keeps that balance |
| MailboxProtocol.BoundedAndDurable | internal/team/team.go:402-455 | A mailbox holds at most 256 items; every queued or received message is in the journal with the same number, recipient and payload |
| MailboxProtocol.SingleSenderNeverOverflows | internal/team/team.go:423-427 | In every run with at most one sender and no broadcast, nothing is journaled and then refused, and whoever passed the check still has room |
| MailboxProtocol.SingleSenderRefusal | internal/team/team.go:423-427 | A send answered with a full mailbox in a run with one sender and no broadcast has changed neither journal nor mailboxes nor counter since it was called |
| MailboxProtocol.OverflowsExactly | internal/team/team.go:402-455 | Over all runs: nothing is journaled and then refused, and every refusal leaves no trace, if and only if there is no sender or a single one without broadcasts |
| MailboxProtocol.UndisturbedSend | internal/team/team.go:402-455 | A send nobody disturbs either refuses or journals and queues the same item |
| MailboxProtocol.EventReaches | internal/team/stalled.go:180-187 | A broadcast appends its event to every mailbox meant that has fewer than 256 items and changes nothing else |
| MailboxProtocol.InboxIsReached | internal/team/team.go:457-470 | Asking for an inbox keeps an existing queue and otherwise makes an empty one that later events reach |
| MailboxProtocol.ReceiverTakesOldest | internal/team/team.go:457-470 | A receiver gets the oldest item and leaves the rest |
| MailboxProtocol.TwoSendersCanOverflow | internal/team/team.go:447-454 | With any two or more senders a run from an empty team ends in the full answer for a message that is already in the journal |
| MailboxProtocol.EventCanTakeTheLastPlace | internal/team/stalled.go:180-187 | With broadcasts there is such a run for a single sender too |
| Stalls.StalledDetector.Check | internal/team/stalled.go:117-134 | Fires exactly when progress is overdue and the stall was not announced |
| Stalls.StalledDetector.ArmFromJournal | internal/team/stalled.go:59-70 | The loop takes the latest journal time as last progress if there is one, even when that moves it backwards |
| Stalls.LatestIsMaximum | internal/team/stalled.go:59-70 | The time it arms with bounds all times in the journal and, when positive, is one of them |
| Stalls.EventsAreSpaced | internal/team/stalled.go:117-134 | With a clock that never goes back, every event follows all progress by more than the threshold, progress lies between any two events, and they are more than the threshold apart |
| Stalls.NoEarlyEvent | internal/team/stalled.go:117-134 | No event comes within the threshold of the start |
| Stalls.FirstOverdueTickFires | internal/team/stalled.go:117-134 | After a progress, or after arming from the journal, exactly the first overdue tick fires |
| Stalls.StaysAnnounced | internal/team/stalled.go:124-134 | Without progress an announced stall stays announced |
| Budgets.Budget.ReplayLedger | internal/tokens/budget.go:197-235 | The loop accumulates exactly what the ledger says about one day, the clamp in commits included |
| Budgets.Budget.constructor | internal/tokens/budget.go:69-100 | A started process holds the figures its ledger gives for the day read by the replay, under the day read before it |
| Budgets.Budget.CheckAndReserve | internal/tokens/budget.go:119-138 | Succeeds exactly when spent, reserved and the estimate fit the limit after the day check; a refusal writes nothing |
| Budgets.Budget.Commit | internal/tokens/budget.go:143-158 | Moves at most what is reserved, books the amount as spent and writes one ledger line |
| Budgets.CommitNeverReleases | internal/tokens/budget.go:140-158 | A commit never lowers spent plus reserved; committing 0 changes neither |
| Budgets.StepStaysInSync | internal/tokens/budget.go:109-158 | One operation keeps the ledger's replay equal to the live figures, now and on later days, exactly when it is not cut by midnight while writing a nonzero amount |
| Budgets.LedgerReplaysExactly | internal/tokens/budget.go:109-235 | Over every run without reset and with a clock that never goes back, replay equals the live figures at every point if and only if no operation was cut so |
| Budgets.StartIsConsistent | internal/tokens/budget.go:90-99 | Over a ledger without later days it begins in sync if and only if both readings give the same day or the new day is empty |
| Middleware.StepKeepsCovered | internal/model/http.go:131-155 | Begin, finish and day change keep the day's reservations covered up to what calls in flight at the last reset took |
| Middleware.StepsAreBudgetCalls | internal/model/http.go:131-155 | Each step of the interleaving model is one call of the budget: a reservation, a commit of the estimate or of zero, or a query |
| Middleware.EveryRunIsCovered | internal/model/http.go:131-155 | The same over every interleaving of calls |
| Middleware.SpendingIsBounded | internal/tokens/budget.go:109-158 | In every interleaving spending never exceeds the estimates in flight at the last reset plus the limit, or, until the first day change, plus the greater of the limit and what had been spent before the start |
| Middleware.ResetByPrefix | internal/tokens/budget.go:109-116 | The first day change has happened as soon as any point of the run lies on another day |
| Middleware.ResetsAreJustReset | internal/tokens/budget.go:109-116 | Every day change of a run leads to the states the next two rows are about |
| Middleware.BoundIsReached | internal/tokens/budget.go:109-158 | After every reset some run of that day spends the limit and all estimates carried over |
| Middleware.OvershootsExactly | internal/tokens/budget.go:109-158 | The limit can be passed on a day if and only if some call was in flight at its reset |
| ModelClient.HttpClient.PostWithMiddleware | internal/model/http.go:113-174 | A fresh cached entry is served without touching the budget; otherwise the result, the account and the cache are those of reserve, send, settle and keep, and a call over the limit is refused whatever the reply would be, with no booking and no cache entry |
| ModelClient.HttpClient.Send | internal/model/http.go:131-155 | Reserve, send, and commit the estimate or zero; a cost of zero is never committed |
| ModelClient.CallByFigures | internal/model/http.go:131-155 | In the figures of the account: over the limit the call is refused whatever the reply would be and nothing is booked; otherwise the reply is handed on, with a reserve line and a commit line of the cost, or of zero after a failure |
| ModelClient.ServedByFiles | internal/model/http.go:126-131 | A call with a key is answered from the cache if and only if the disk holds an entry for it without a source file or with the time the file has; without a key the cache is not asked |
| ModelClient.ChargeIsBeginThenFinish | internal/model/http.go:131-155 | One call's effect on the account is the two steps the interleaving model takes for it |
| ModelClient.ChargeOfOneDay | internal/model/http.go:141-155 | Within a day a success moves the cost to spent and a failure leaves it reserved |
| ModelClient.KeptReplyAnswers | internal/model/http.go:165-171 | What a successful call kept answers the next call with its key whatever the files are, also in a new process on the same disk |
| CacheSpec.GetRefinesDisk | internal/tokens/cache.go:144-186 | A lookup answers exactly what an mtime-filtered lookup in the disk store alone would, and counts one hit or one miss accordingly |
| CacheSpec.GetByFiles | internal/tokens/cache.go:144-178 | On the file map alone: a lookup answers the entry on disk if and only if that has no source file or one that exists with the recorded time |
| CacheSpec.GetLeaves | internal/tokens/cache.go:144-186 | A hit is in memory in front and costs no disk entry; a stale entry leaves memory if it was there and the disk otherwise; no other key loses anything by a miss |
| CacheSpec.PutThenGet | internal/tokens/cache.go:189-216 | A stored entry answers later lookups forever without a source file, and otherwise exactly while the file has the time given or found at the store |
| CacheSpec.PutKeepsOthers | internal/tokens/cache.go:189-216 | Storing leaves the disk entries of all other keys and the counters alone |
| CacheSpec.InvalidateByFiles | internal/tokens/cache.go:220-242 | On the file map alone: an entry in memory of the path is dropped, from memory and disk, if and only if the file is gone or has another time; nothing else is |
| CacheSpec.DroppedCount | internal/tokens/cache.go:220-242 | The number of dropped keys is what memory loses |
| CacheSpec.StepStaysCoherent | internal/tokens/cache.go:144-242 | Every operation keeps memory a duplicate-free excerpt of the disk, within the capacity |
| CacheSpec.EveryRunRefinesDisk | internal/tokens/cache.go:144-284 | So over every sequential run and for every capacity, whatever was evicted |
| CacheSpec.WithoutOne | internal/tokens/cache.go:308-311 | Removing a key from a list of distinct keys takes out exactly its position |
| Caching.Cache.RemoveNode | internal/tokens/cache.go:308-311 | Unlinking a node leaves a well-formed doubly linked chain of the others in order |
| Caching.Cache.LinkFront | internal/tokens/cache.go:288-294 | Linking a new node puts it first and keeps the chain well-formed |
| Caching.Cache.InsertFront | internal/tokens/cache.go:288-295 | The chain gets the entry in front, under its key in the map |
| Caching.Cache.MoveToFront | internal/tokens/cache.go:297-306 | The chain is the old one with that node first |
| Caching.Cache.EvictIfNeeded | internal/tokens/cache.go:313-322 | Keeps exactly the first `capacity` entries: the least recently used go |
| Caching.Cache.Get | internal/tokens/cache.go:144-186 | The pointer code answers and ends as the value model does, with the chain well-formed, in bijection with the map and within the capacity |
| Caching.Cache.Put | internal/tokens/cache.go:189-216 | The same for storing, with the stamped creation and source times |
| Caching.Cache.InvalidateByMtime | internal/tokens/cache.go:220-242 | The pointer code ends as the value model does and returns how many entries memory lost, in any map order |
| Caching.Cache.Clear | internal/tokens/cache.go:268-284 | Memory and disk are empty, counters unchanged |
| Caching.Cache.WarmFromDisk | internal/tokens/cache.go:370-396 | Afterwards the memory is full or holds every named entry on disk, and the structure is valid |
| Caching.Cache.NewCache | internal/tokens/cache.go:65-89 | A new cache over the files on disk is valid and warmed, with 512 as default capacity |
| LruStack.MostRecentMembers | internal/tokens/cache.go:288-322 | The reference order lists every key used since the last clear, once |
| LruStack.MostRecentByLastUse | internal/tokens/cache.go:288-322 | The reference order is by last use: an earlier key was used later |
| LruStack.StepKeepsMirror | internal/tokens/cache.go:144-216 | Each operation keeps the list equal to the most recently used keys cut at the capacity |
| LruStack.StackProperty | internal/tokens/cache.go:144-322 | Without source files, from an empty cache, the list is exactly the most recently used keys cut at the capacity, and hits and misses are those of the trace alone |
| LruStack.LargerCacheExtends | internal/tokens/cache.go:144-322 | A larger capacity holds what a smaller one holds, in the same order, plus older keys; hit and miss counts agree |
| LruStack.EmptyPathExactly | internal/tokens/cache.go:220-242 | After a run without source files and an invalidation of the empty path, two capacities agree on the hits of every such continuation if and only if the smaller one had evicted nothing |
| SourceFiles.HitsAreFreshLookups | internal/tokens/cache.go:144-242 | With source files, hits and misses at every capacity are the lookups whose key was stored since the last clear by an entry that is fresh now, provided no entry found stale is looked up fresh again |
| SourceFiles.StepKeepsMatch | internal/tokens/cache.go:144-242 | Whatever a disk misses of what was stored had been found stale, at every capacity |
| SourceFiles.RevivalTellsMemory | internal/tokens/cache.go:144-178 | A lookup that finds an entry stale and one that finds it fresh again: the second hits if and only if the entry was in memory at the first |
| SourceFiles.ReturningTimeDependsOnCapacity | internal/tokens/cache.go:144-178 | Along any history in which a recorded file time returns there is a trace of four operations whose hits differ between capacities 1 and 2 |
| SourceFiles.CapacityFreeExactly | internal/tokens/cache.go:144-242 | Along a history of file times, hits and misses of all traces that let the store record times are the same at any two capacities if and only if no recorded time returns after the file had another one |
| FileLock.AcquireFlock | internal/state/lock.go:23-55 | The polling loop returns attempt n if and only if it is the first to find the lock free with all earlier ones failed by the deadline, and gives up if and only if an attempt fails past it |
| FileLock.AttemptsAreBounded | internal/state/lock.go:33-55 | It makes at most one attempt per interval of the timeout, and two more |
| VersionedStore.JsonStore.WriteKey | internal/state/store.go:166-187 | The key holds the value with a version one above what the file held; other keys stay |
| VersionedStore.JsonStore.WriteKeyIfVersion | internal/state/store.go:189-214 | Writes exactly when the version matches, and otherwise reports the current one |
| VersionedStore.JsonStore.ClearPrefix | internal/state/store.go:283-312 | The delete loop keeps exactly the keys without the prefix, unchanged, counts the removed ones, and writes only if there were any |
| VersionedStore.StepKeepsInvariant | internal/state/store.go:129-214 | Every lock, read, write, rename, unlock, timeout and crash step keeps the file equal to the committed requests in rename order |
| VersionedStore.FileIsTheLog | internal/state/store.go:129-214 | Over all interleavings the file is the committed requests applied in rename order; a key holds the value committed last and its version is the number of writes since it was last cleared |
| VersionedStore.NothingCommittedIsLost | internal/state/store.go:129-146 | Over every run the commits of any earlier point stay a prefix of the later ones, and the later file is the earlier one with the later commits applied |
| VersionedStore.VersionCountsWrites | internal/state/store.go:166-187 | A version counts the writes since the last clear of the key |
| VersionedStore.FileHoldsLastWritten | internal/state/store.go:150-187 | A key is present exactly when it was written after its last clear, with the value written last |
| VersionedStore.ReturnedVersionCounts | internal/state/store.go:166-214 | A returned version n means that write was the key's n-th since its last clear |
| VersionedStore.RepliesAreDistinctCommits | internal/state/store.go:166-214 | Two acknowledged writes are two different commits |
| VersionedStore.RealTimeOrder | internal/state/store.go:166-214 | A write acknowledged before a call begins is committed before whatever that call commits, in every interleaving |
| VersionedStore.OneWinnerPerVersion | internal/state/store.go:189-214 | Between two clears of a key at most one conditional write with a given expected version is committed |
| VersionedStore.RequestsDo | internal/state/store.go:166-312 | Each request in terms of the entries: a write adds one to the version found, a conditional one happens exactly at the expected version and reports the found one otherwise, a clear removes exactly the keys that start with the prefix and counts them |
| VersionedStore.MismatchIsTrue | internal/state/store.go:189-214 | A reported mismatch is true: at some point of the run the key had the reported version, and that is not the expected one |
| VersionedStore.LockSurvivesCrashes | internal/state/lock.go:23-55 | A crash of the lock holder anywhere frees the lock without touching file, commits or answers, and the next waiting process can take it; a process that gives up waiting is told the lock is busy |
| VersionedStore.UndisturbedCall | internal/state/store.go:166-214 | Run alone, the protocol's steps do what the method does: same file, same answer, lock released |
| PendingCalls.StepKeepsInvariant | internal/adapters/mcp/client.go:182-281 | Every step of callers, read loop and drain keeps the table, channels and lines consistent |
| PendingCalls.ResponsesReachTheirCalls | internal/adapters/mcp/client.go:182-270 | A call returns only the response with its own id, and no response reaches two calls |
| PendingCalls.ReadLoopIsSafe | internal/adapters/mcp/client.go:238-281 | Nothing is sent on or closed twice on a closed channel, and the read loop never blocks on a send |
| PendingCalls.TableListsCallsUnderway | internal/adapters/mcp/client.go:182-196 | While the read loop runs the table lists exactly the registered calls that have not returned, and afterwards no others |
| PendingCalls.AnsweredCallsReceive | internal/adapters/mcp/client.go:238-270 | Whatever steps follow, the response the server writes for a call in the table is in delivery or in its channel until the call takes it or gives up, and taking it ends the wait with that response |
| PendingCalls.ExitReleasesExactly | internal/adapters/mcp/client.go:182-281 | At any point of any run after the server exit, a waiting call can leave through its channel if and only if it was in the table at the exit; later ones wait for their cancellation |
| PendingCalls.OutcomesHaveCauses | internal/adapters/mcp/client.go:213-232 | Over every run a call ends cancelled only after its cancellation, with a write error only after its failed write, and as crashed only after the server exit |
| PendingCalls.CallsCanEnd | internal/adapters/mcp/client.go:189-232 | At any point of a run a waiting call can be cancelled, a failed write ends its call, and leaving hands the outcome on and clears the table |
| PendingCalls.ClosedTellsExit | internal/adapters/mcp/client.go:238-246 | The closed flag is up at every point of every run exactly when the read loop has ended |
| PendingCalls.LateCallsExist | internal/adapters/mcp/client.go:182-196 | A run with such a late call |

## Left out

- PendingCalls.ResponsesReachTheirCalls: assumes a server that answers each id at most once.
- SchedulerSpec.CompletionOrderIsTopological: is about runs with fresh ids in which only runnable tasks complete and completed tasks do not fail; direct status writes are outside it.
- Middleware.SpendingIsBounded: counts the commits the middleware makes; callers that commit actual costs themselves are not part of it.
- LruStack.StackProperty: is about traces without source files and without invalidation of the empty path, after which hits can depend on the capacity (`LruStack.EmptyPathExactly`).
- SourceFiles.HitsAreFreshLookups: is about traces in which no entry found stale is looked up fresh again; `SourceFiles.CapacityFreeExactly` says which file histories allow others, for entries stored without a time of their own.
- Budgets.LedgerReplaysExactly: is about runs without `Reset`, which is not journaled.
- Teams.Team.TaskCreate: the mutexes inside one call are not modelled; of overlapping calls only an update between the scheduler step and the journal line of a creation is.
- TeamSpec.CrashPrefixRecovery: assumes that the journaled envelopes parse back to themselves; the JSON encoder compacts raw payloads and replaces invalid UTF-8, so an envelope with such content parses back to a normalised one.
- Caching.Cache.InvalidateByMtime: removes disk files at once, where the code starts a goroutine for each; concurrent use of the cache, in which `Get` drops its lock before promoting, is not modelled.
- Caching.Cache.Put: disk writes succeed and distinct keys have distinct file names.
- FileLock.AcquireFlock: errors other than a busy lock are not modelled.
- PendingCalls.ReadLoopIsSafe: the request is written in one step; the code holds the table's mutex meanwhile (`internal/adapters/mcp/client.go:209-211`), so a write that blocks also keeps the read loop from the table.
- Calls from `SendMessage` and `TaskUpdate` to the stall detector are not wired into the team object; the detector is modelled on its own.
- Lines over 10 MiB, I/O errors, partially failing writes without a crash, and wrap-around of 64-bit counters.
- The snapshot files `team.json` and `tasks.json`, time formatting, UUIDs, team size and depth guards.
- Closing a team or client, goroutine shutdown, tickers, and the retry loops of `WriteWithRetry` and `postJSON`.
- The raw append file of the state store, key and scope validation, contention counters.
- In-process and subprocess transports beyond line framing; provider clients and streaming.
- Analytics, statistics, pricing, token estimation, and how a cache key is computed.
- CLI, terminal interface, hooks, skills and mode routing: none of the modelled state lives in them.
