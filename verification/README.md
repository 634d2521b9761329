# LocalCloud verification model

LocalCloud is a control plane for local development. It captures what happens between the services of
a backend, records it as scenarios, replays recorded requests, and injects faults. This project models
the parts in which steps interleave, or loops scan, poll and page, and proves what holds of them over
whole runs. `dafny verify dfyconfig.toml` checks everything.

| file | what it models |
|---|---|
| `FaultRules.dfy` | the fault rule matcher and the rule table |
| `FaultEngine.dfy` | one check after another: the rule list as a greedy allocator of hit budgets |
| `FaultProtocol.dfy` | checks that overlap: list, decide and count as separate steps, and how far the hit limit is overshot |
| `Timeline.dfy`, `EventStore.dfy` | events, the ordered listings, and paging through them |
| `Ordering.dfy` | sequences whose elements stand pairwise in a relation, such as order or distinctness, and selections in order |
| `EventApi.dfy` | how the events endpoint prints and reads cursors |
| `Recording.dfy`, `RecordingProtocol.dfy` | start, stop and the event sink, first as calls, then step by step |
| `RedisMonitor.dfy` | the scanner for quoted strings, the line parser and the read loop of the Redis adapter, from the bytes of the connection on |
| `AuditPoller.dfy` | the Postgres adapter's poll over its audit table |
| `MailpitPoller.dfy` | the Mailpit adapter's poll with its time watermark |
| `EventBus.dfy` | subscription ids and the fan-out of the bus, also while subscribers come and go |
| `EventStream.dfy` | the bounded buffers of the live stream |
| `Redaction.dfy`, `Replay.dfy` | header redaction, replay plans, the gate on unsafe methods, tallies, and what is sent |
| `BodyTee.dfy` | the capture of request and response bodies |

Objects whose fields the program updates are classes, and each method is proved against a function of
the old state. Statements about all runs use the same functions as the steps of a state machine. Database
statements are atomic steps; failures of statements, sinks and networks are parameters that may take any
value. Go's library functions (letter case, case folding, duration parsing) are function parameters,
so the results hold whatever they compute; two facts about them are required where they are needed, that ranging over
a map visits each key once (`Ranges`) and that canonical header names differ in case only (`CaseOnly`). A Go string is a sequence of `char`, each standing for one byte.
Fields such as `emitted`, `offered`, `sent`, `born`, `notes` and `frozen` are histories kept to state
what happened; the program does not read them.

## Where the code differs from its intent

- `GetByName` hands on `sql.ErrNoRows` for a free name (internal/storage/repositories.go:62-69), which
  `StartRecording` takes for a failure (internal/agent/recording.go:31-34). It also leaves the scenario's
  config snapshot id empty, and that id is a foreign key (internal/storage/db.go:82). Both are kept:
  `NoRows` says what the lookup answers, and `snapshots` says which snapshot ids exist.
  `StartRecording` succeeds exactly when the lookup answers nil and the empty id exists;
  `NothingIsRecordedAsCoded` shows that otherwise no recording ever becomes active. The other
  results hold in both settings.
- The events endpoint prints its next cursor as `ms:id` (internal/api/server.go:183) and parses a cursor
  as a plain integer (internal/api/server.go:385). `PrintedCursorStartsOver` shows that a client using it gets the first
  page again. The paging results are about the numeric cursor of the storage layer.
- The hit limit of a rule is soft under concurrency. `HitLimitOvershoot` gives the bound m + n - 1 for n
  checkers and `OvershootIsReached` shows that it is exact.
- The event count frozen by a stop misses events that were tagged before it and stored after it.
  `FrozenCountLags` gives the exact difference, `LateInsertIsNotCounted` a run that shows it.
- A page that ends between events of one timestamp loses the rest of them, since the next page starts below it
  (internal/storage/events.go:63-66). `PagingIsCompleteIff` says for which tables nothing is lost, `TiedEventIsLost`
  shows a loss.
- The Redis adapter reads lines through a scanner with a buffer of 64 KiB (internal/adapters/redis/adapter.go:119).
  The first longer line ends the loop for good. `SessionIsCaptured` says exactly when that loses something relevant,
  `LongWordEndsTheCapture` shows a loss.
- A replay that is cut off by its context cannot store its result, because the final update runs under the same
  context (internal/replay/replay.go:156-158 and 198): its row stays `running` with zero tallies. `Execute` states it.
- A hundred audit rows that the sink never takes block every row behind them:
  `ProcessedIffWindowNotClogged` is the exact condition, `CloggedRowWaits` an example.
- Mailpit messages are lost when more than 50 arrive between two polls, and when two were created at the same time,
  since the test is for strictly later (internal/adapters/mailpit/adapter.go:178). `RunIsFilterIff` is the exact
  condition; `OverflowIsLost` and `TiedMessageIsLost` show the losses.
- The Redis scanner drops the backslash of every escape (internal/adapters/redis/adapter.go:318-323), but Redis prints a
  byte that is not printable as an escape with a meaning. `RestoredIffPrintable` says which words come through, and
  by `HeardIsPrintable` a queue whose name holds another byte is never matched.
- A replay drops the query of a request and re-sends the stored, redacted preview as its body
  (internal/replay/replay.go:48-57). `ResentIsCapturedIff` says when it sends what was captured.

## Model

| member | source | states |
|---|---|---|
| FaultRules.TestMatch | internal/fault/matcher.go:11-54 | the early-return checks accept a request exactly when the rule is enabled, neither spent nor expired, and every criterion it sets, headers included, is met |
| FaultRules.MatchDemands | internal/fault/matcher.go:11-54 | what each criterion demands when it is set, one by one; one that is not set demands nothing |
| FaultRules.FindFirstMatch | internal/fault/matcher.go:57-64 | the result is the first rule in list order that matches, and none only if no rule matches |
| FaultRules.FaultRuleRepository.Insert | internal/storage/repositories.go:292-314 | a row with a new id and a new name is added behind the rows that are not newer, so that ids stay distinct and the listing stays in creation order; any other insert fails and changes nothing |
| FaultRules.FaultRuleRepository.SetEnabled | internal/storage/repositories.go:358-368 | exactly the row with the id takes the flag given, and nothing else of it changes |
| FaultRules.FaultRuleRepository.IncrementHitCount | internal/storage/repositories.go:370-377 | exactly the row with the id gains one hit; a missing row is no error |
| FaultRules.FaultRuleRepository.Delete | internal/storage/repositories.go:379-382 | exactly the row with the id goes, and order and distinctness stay |
| FaultEngine.Engine.Check | internal/fault/engine.go:37-61 | the first matching rule, which is the oldest one that matches, is returned and gains one hit; a failed increment does not stop the fault, and a failed listing changes nothing |
| FaultEngine.FirstMatchIsOldest | internal/storage/repositories.go:316-356 | as the listing is in creation order, no matching rule is older than the one chosen |
| FaultEngine.GreedyBudgetLaw | internal/fault/engine.go:37-61 | over N checks in a row for one request, rule i gains exactly clamp(N - budgets ahead of it, 0, its budget) hits, and min(N, sum of budgets) checks inject a fault; unlimited, partly used and non-matching rules included |
| FaultProtocol.LoneCheckRefinesEngine | internal/fault/engine.go:37-61 | the steps list, decide and increment, undisturbed, do to the table what one check does, inject the same rule, and do so where the increment fails too |
| FaultProtocol.OtherStepsActOnTable | internal/storage/repositories.go:292-382 | the steps that insert, enable, disable and delete rules do to the rows what the repository does |
| FaultProtocol.CheckerNeverWaits | internal/fault/engine.go:37-61 | a checker can take its next step whatever the others and the table are up to |
| FaultProtocol.HitLimitOvershoot | internal/fault/engine.go:37-61 | in every reachable state of n overlapping checkers a rule inserted unused with limit m has been injected, or is about to be, at most m + n - 1 times plus its failed increments, and its row count plus the decisions in flight stays within m + n - 1 |
| FaultProtocol.OvershootIsReached | internal/fault/engine.go:37-61 | for every m and n some interleaving with no failure ends with a count of m + n - 1 |
| FaultProtocol.FinishedRuleDrains | internal/fault/matcher.go:12-25 | once a rule is spent, expired, deleted, or disabled and not re-enabled, its row never matches again in any run with a clock that does not go back, and it is injected at most once more for each check then in flight |
| FaultProtocol.RunKeepsLimits | internal/storage/repositories.go:370-377 | every run keeps rows and copies in flight consistent with the rules as inserted, each row counting exactly its counted hits, and every rule within its limit |
| EventStore.ListByTimestampIsPage | internal/storage/events.go:54-77 | the listing holds at most the limit, by descending timestamp, without repeats, only rows below the cursor, and leaves out a row below the cursor only when full and only if it is not newer than its last row |
| EventStore.ListByScenarioIsComplete | internal/storage/events.go:80-93 | a scenario's listing is exactly its events, each once, by ascending timestamp |
| EventStore.WalkMissesExactlyTheCutOff | internal/storage/events.go:54-77 | walking page by page from any cursor, whatever order ties come in, gives no repeats, newest first, and misses an event if and only if some full page ends on its timestamp without it |
| EventStore.PagingIsCompleteIff | internal/storage/events.go:54-77 | a walk from the start returns every event if and only if, in the newest-first rows, no two events on the two sides of a multiple of the limit share a timestamp; it takes at most events / limit + 1 pages, and with distinct timestamps they join to the whole table, newest first |
| EventStore.TiedEventIsLost | internal/storage/events.go:63-66 | of two events with one timestamp, read with limit 1, every walk loses one |
| EventStore.WalkEnds | internal/storage/events.go:54-77 | the walk that the listing produces ends |
| EventApi.PlainNumberIsUnderstood | internal/api/server.go:380-390 | a cursor printed as a plain number of 64 bits, signed or not, is read back as that number |
| EventApi.OtherTextIsNoCursor | internal/api/server.go:380-390 | text with anything but digits behind its first character counts as no cursor |
| EventApi.PrintedCursorStartsOver | internal/api/server.go:180-189 | a full page gives the cursor `ms:id` of its last event, any other none; that cursor leads back to the first page, for every table and page |
| Recording.Database.InsertEvent | internal/storage/events.go:24-51 | unless the statement fails, an event is stored exactly when the tables with it would still have distinct event ids, unique scenario names and only tags that name a scenario; the tables stay so |
| Recording.Database.InsertScenario | internal/storage/repositories.go:22-41 | unless the statement fails, a scenario is stored exactly when its id is new, its config snapshot exists and names would stay unique; the tables stay sound |
| Recording.EventInsertableIffSound | internal/storage/db.go:102-126 | the key and foreign key checks of an event insert refuse exactly what would make the tables unsound |
| Recording.ScenarioInsertableIffSound | internal/storage/db.go:67-83 | for a new id and an existing snapshot, the unique-name check refuses exactly what would make the tables unsound |
| Recording.Database.GetByName | internal/storage/repositories.go:62-69 | finds a row of the table with the name exactly when the name is taken; for a free name the answer is an error or nil as `NoRows` says |
| Recording.Agent.StartRecording | internal/agent/recording.go:21-62 | succeeds exactly when nothing is recorded, the lookup answers that the name is free and the row can be inserted; then the new row is the active recording, otherwise nothing changes; the active recording stays the one row with status recording |
| Recording.Agent.StopRecording | internal/agent/recording.go:65-106 | succeeds exactly when a recording is active and neither statement fails; then the row is completed with the number of stored events that carry its tag and of those among them that may be replayed, and nothing is active; otherwise nothing changes |
| Recording.Agent.Emit | internal/agent/agent.go:207-222 | exactly when it is valid and can be inserted, stores and publishes the event with nothing but its tag changed: the tag it brought, else the active recording, else none; otherwise neither |
| Recording.CountArranged | internal/agent/recording.go:86-93 | the replayable count does not depend on the order of the listing |
| RecordingProtocol.LoneStartRefinesAgent | internal/agent/recording.go:21-62 | the steps of a start, undisturbed, do what the call does, a failing lookup or insert and a taken name included |
| RecordingProtocol.LoneStopRefinesAgent | internal/agent/recording.go:65-106 | the steps of a stop, undisturbed, do what the call does, failing statements included |
| RecordingProtocol.LoneEmitRefinesAgent | internal/agent/agent.go:207-222 | the steps of an emitter, undisturbed, store and publish the event with its tag exactly when the call does |
| RecordingProtocol.EmitterWaitsOnlyToTag | internal/agent/agent.go:212-220 | an emitter waits for the lock only to read the active recording, and stores and publishes whoever holds it |
| RecordingProtocol.RecordingInvariant | internal/agent/recording.go:21-106 | in every reachable state, with emitters interleaved and statements failing, outside the lock the active recording is exactly the one row with status recording; names stay unique, tags name existing scenarios, and published events are stored |
| RecordingProtocol.FrozenCountLags | internal/agent/recording.go:80-101 | for ever after a stop the number of stored events with the tag is the frozen event count plus what emitters held when the stop counted, plus tags brought along since, less failed inserts and events still held, and that lag is never negative; the replayable count, and so the length of a later plan, exceeds its frozen value by at most the same lag |
| RecordingProtocol.QuietStopIsExact | internal/replay/replay.go:38-62 | if no emitter held the tag when the stop counted and none brought it since, the frozen event count is exact and every later plan is no longer than the frozen replayable count |
| RecordingProtocol.LateInsertIsNotCounted | internal/agent/agent.go:212-220 | an event tagged before a stop and stored after it is in the completed scenario but not in its count |
| RecordingProtocol.NothingIsRecordedAsCoded | internal/agent/recording.go:31-37 | while a free name makes the lookup fail, or no config snapshot has the empty id, no run ever activates a recording or adds a scenario |
| RedisMonitor.ParseQuotedStrings | internal/adapters/redis/adapter.go:306-335 | the loop ends on every input and returns what the recursive definition of the scan says |
| RedisMonitor.ReadQuoted | internal/adapters/redis/adapter.go:317-328 | the inner loop finds the closing quote, undoes the escapes and hands on the rest, or reports that there is no closing quote |
| RedisMonitor.TruncationIsMonotone | internal/adapters/redis/adapter.go:306-335 | cutting the input anywhere, inside an escape too, only loses strings from the end of the result |
| RedisMonitor.ParseReadsBack | internal/adapters/redis/adapter.go:306-335 | any list of byte strings, escaped in any way that protects quotes and backslashes, with any quote-free gaps and any incomplete rest, is returned exactly |
| RedisMonitor.AnyListReadsBack | internal/adapters/redis/adapter.go:306-335 | every list of byte strings, each with quotes and backslashes escaped, between quotes and behind a space, is returned exactly |
| RedisMonitor.ParsedWasWritten | internal/adapters/redis/adapter.go:306-335 | conversely every input is such a writing of what the scanner returns |
| RedisMonitor.ParseLineReadsBack | internal/adapters/redis/adapter.go:176-216 | command and arguments are recovered behind any header that starts with a plus and holds no earlier "] " |
| RedisMonitor.LineIsUnderstoodIff | internal/adapters/redis/adapter.go:176-216 | a line is parsed if and only if it starts with a plus and a complete quoted string stands behind its first "] "; the strings there are command and arguments |
| RedisMonitor.FirstLineDelivered | internal/adapters/redis/adapter.go:119-129 | a line of at most 65536 bytes with its newline is handed out less a carriage return at its end; at a longer one it ends |
| RedisMonitor.LastLineDelivered | internal/adapters/redis/adapter.go:119-129 | what remains without a newline when the connection closes is a line too, if shorter than that |
| RedisMonitor.CapturedAt | internal/adapters/redis/adapter.go:117-154 | captured is, in order, what exactly those picked lines say that are pushes or pops, by the six command names, whose first argument is a configured queue |
| RedisMonitor.Adapter.ReadMonitor | internal/adapters/redis/adapter.go:117-154 | from the bytes of the connection, the sink is offered exactly the relevant entries, in order, of the lines ahead of the first one that does not fit the scanner's 64 KiB and of the end of the context; the event count grows by those it takes, each line having its own verdict |
| RedisMonitor.SessionIsCaptured | internal/adapters/redis/adapter.go:117-154 | of a session of printed commands exactly those touching a configured queue and ahead of the first overlong line are captured, in order, each word as its escapes read back; all of them if and only if no relevant command stands at or behind an overlong line |
| RedisMonitor.SessionCapturesByWords | internal/adapters/redis/adapter.go:218-240 | an entry is captured of a session if and only if some command ahead of the first overlong line yields it, its name being one of the six and its first argument a configured queue |
| RedisMonitor.MonitoredIsWellFormed | internal/adapters/redis/adapter.go:176-216 | whatever bytes the words of a command hold, the line that Redis prints for it is one that the session result covers, with each word as the scanner hears it |
| RedisMonitor.HeardIsPrintable | internal/adapters/redis/adapter.go:317-328 | of a word that Redis prints only printable bytes are heard, so a queue name with another byte never matches |
| RedisMonitor.RestoredIffPrintable | internal/adapters/redis/adapter.go:317-328 | a word that Redis prints is heard unchanged if and only if all of its bytes are printable |
| RedisMonitor.LongWordEndsTheCapture | internal/adapters/redis/adapter.go:119 | a word that fills the scanner's buffer hides its own command and the next |
| AuditPoller.Adapter.Show | internal/adapters/postgres/adapter.go:128-137 | a new row becoming visible anywhere in the id order is added unprocessed, in its place, and the books stay right |
| AuditPoller.Adapter.ProcessAuditRows | internal/adapters/postgres/adapter.go:197-282 | whatever fails, each row's emit count stays 1 if processed plus the failed UPDATEs it was part of, the event count is the sum over all rows, and the poll emits in id order and marks exactly the rows of its window that the sink took |
| AuditPoller.PollTakesFirstRows | internal/adapters/postgres/adapter.go:198-267 | a poll emits, in id order, exactly the unprocessed rows that the sink takes with fewer than 100, and fewer than the cursor gets through, unprocessed rows ahead of them |
| AuditPoller.MarkedById | internal/adapters/postgres/adapter.go:271-281 | the UPDATE sets the flag of exactly the rows whose ids it lists |
| AuditPoller.Adapter.EmitBatch | internal/adapters/postgres/adapter.go:213-267 | the row loop emits and collects exactly the accepted rows of the batch, in order |
| AuditPoller.ProcessedIffWindowNotClogged | internal/adapters/postgres/adapter.go:198-204 | with no failure but the sink's, a row the sink would take is eventually processed if and only if fewer than 100 pending rows below it are never taken, whatever rows become visible above it between polls |
| AuditPoller.ProcessedWithin | internal/adapters/postgres/adapter.go:198-204 | and then within any n polls with n * (100 - poison) greater than the other pending rows below it, whatever arrives above it |
| AuditPoller.ProcessedWithinKnown | internal/adapters/postgres/adapter.go:198-204 | where rows arrive below the row too, fewer than 100 of all that ever do being never taken, it is processed within any n polls with n * (100 - poison) greater than the others that ever do |
| AuditPoller.CloggedRowWaits | internal/adapters/postgres/adapter.go:198-204 | behind a hundred rows that are never taken a good row is never processed |
| AuditPoller.ArrivalsAboveDoNotMatter | internal/adapters/postgres/adapter.go:198-204 | over any run of polls, rows that become visible above an id leave the table up to that id as it would be without them |
| AuditPoller.PollMarksEnough | internal/adapters/postgres/adapter.go:257-281 | a poll whose UPDATE succeeds marks at least min(100 - poison, good rows pending) |
| MailpitPoller.Adapter.FetchNewMessages | internal/adapters/mailpit/adapter.go:144-193 | for any listing the backward loop attempts, oldest first, the messages above the moving mark; over any run of polls attempts strictly increase in creation time, so no message is attempted twice, and the event count is their number |
| MailpitPoller.AttemptsAscend | internal/adapters/mailpit/adapter.go:175-192 | one poll's attempts are messages of the listing in strictly increasing time above the mark, and the new mark is the last of them |
| MailpitPoller.TimeTestTakesRecords | internal/adapters/mailpit/adapter.go:175-192 | for any listing, the time test alone takes, in loop order, exactly the messages newer than the mark and than every message ahead of them |
| MailpitPoller.PollTakesNewest | internal/adapters/mailpit/adapter.go:144-193 | over an append-only mailbox in creation order a poll attempts the newest min(50, new) of the new messages, and of messages created at the same time only the first |
| MailpitPoller.RunIsFilterIff | internal/adapters/mailpit/adapter.go:144-193 | over an append-only mailbox in creation order, a run's attempts are the mailbox filtered by start time if and only if no poll finds more than 50 messages that arrived since the one before and no two messages from after the start were created at the same time |
| MailpitPoller.NewerAreKept | internal/adapters/mailpit/adapter.go:178-180 | the filter that the run is compared with keeps exactly the messages created after a time, in order |
| MailpitPoller.RunAscends | internal/adapters/mailpit/adapter.go:175-192 | whatever the mailboxes, a run's attempts strictly increase in creation time |
| MailpitPoller.TiedMessageIsLost | internal/adapters/mailpit/adapter.go:178-180 | of two messages created at the same time, found by one poll, the second is never attempted |
| MailpitPoller.OverflowIsLost | internal/adapters/mailpit/adapter.go:145 | of more than 50 messages found by one poll the oldest is never attempted |
| MailpitPoller.IdTestIsRedundant | internal/adapters/mailpit/adapter.go:181-183 | where ids are not empty and determine the creation time, the test against the last seen id never changes a poll |
| MailpitPoller.IdTestMattersIffRepeated | internal/adapters/mailpit/adapter.go:181-183 | for any listing, that test is without effect if and only if the messages chosen by time alone never repeat an id in a row |
| MailpitPoller.EmptyIdIsLost | internal/adapters/mailpit/adapter.go:181-183 | with an empty id the first message is passed over |
| EventBus.Itoa | internal/eventbus/bus.go:71-83 | for every non-negative 64-bit number the buffer of 20 bytes suffices and the result is its decimal notation; a negative number comes out empty |
| EventBus.DecimalReadsBack | internal/eventbus/bus.go:71-83 | decimal notation decodes to the number it came from |
| EventBus.Bus.Subscribe | internal/eventbus/bus.go:28-37 | over every history of subscribes and unsubscribes the new id is not live, so no handler is overwritten |
| EventBus.Bus.Unsubscribe | internal/eventbus/bus.go:40-44 | exactly the handler with the id goes, and the ids in use remain ones the counter gave out |
| EventBus.Bus.Publish | internal/eventbus/bus.go:48-62 | undisturbed, every live handler is called exactly once with the event, those behind a panicking one too, and no other is called |
| EventBus.PublishServesItsSnapshot | internal/eventbus/bus.go:48-62 | interleaved with any subscribes, unsubscribes and other publishes, a finished publish has called each handler subscribed at its snapshot exactly once with its event, also one that left meanwhile, and no other |
| EventBus.LaterSubscriberIsNotCalled | internal/eventbus/bus.go:28-37 | a subscription given out after the snapshot is never called by that publish |
| EventBus.StepsActOnSubscribers | internal/eventbus/bus.go:28-44 | in the interleaved form, joining and leaving change the subscribers as the bus does |
| EventStream.Server.AddClient | internal/api/server.go:314-321 | a new client gets an id no live client has, an empty buffer, and disturbs nobody |
| EventStream.Server.RemoveClient | internal/api/server.go:323-327 | exactly the client with the id goes |
| EventStream.Server.Broadcast | internal/api/server.go:329-339 | for each client the data is put behind what waits in its buffer if fewer than 64 entries do, and otherwise nothing moves; in every reachable state what a client received and has buffered is the accepted part, in order, of the broadcasts since it joined |
| EventStream.Server.Receive | internal/api/server.go:303-311 | the oldest buffered entry moves from the client's buffer to what it received, nobody else is touched, and the client's account stays true |
| EventStream.StreamIsAccountedFor | internal/api/server.go:329-339 | broadcasts since joining equal received plus buffered plus dropped, and the client misses nothing if and only if at each broadcast fewer than 64 entries had been accepted and not yet read |
| EventStream.ClientsAreIndependent | internal/api/server.go:298-339 | two runs that agree on the broadcasts and on one client's own reads leave that client with the same buffer and stream, whatever the others do |
| Redaction.RedactHeaders | internal/redaction/redaction.go:34-50 | the map is changed in place to its redacted form and the result counts exactly the entries whose values changed |
| Redaction.RedactionIsExactAndIdempotent | internal/redaction/redaction.go:34-50 | exactly the entries whose names equal one of the denylist up to case, and that are not marked yet, change, every such entry is marked `[REDACTED]` afterwards, and a second call changes nothing |
| Replay.Plan | internal/replay/replay.go:31-64 | the loop builds the plan of the listed events |
| Replay.PlanIsReplayable | internal/replay/replay.go:38-62 | every planned request comes from a replayable proxy event, every such event is planned, and the plan is no longer than the replayable count |
| Replay.PlanFollowsListing | internal/replay/replay.go:38-62 | the plan repeats, in the order of the listing, exactly the replayable requests of the proxy, each with its method, path, headers, body, recorded status, and safe if and only if its method is GET, HEAD or OPTIONS in upper case |
| Replay.CopyHeaders | internal/replay/replay.go:228-237 | in whatever order the names are visited, host, connection, content-length and marked values are held back, and each other one sets its canonical name, replacing an earlier one that differs in case only |
| Replay.SetByWhom | internal/replay/replay.go:228-237 | every header set has the canonical name and the value of a header that is not held back |
| Replay.ForwardedIsSet | internal/replay/replay.go:228-237 | every header that is not held back has its canonical name set |
| Replay.CanonicalHeadersSurvive | internal/replay/replay.go:228-237 | where names are canonical, as captured ones are, exactly the headers not held back go out, unchanged |
| Replay.SlashesAreTrimmed | internal/replay/replay.go:215 | of the base URL all slashes at the end go, and nothing else |
| Replay.Executor.Execute | internal/replay/replay.go:100-205 | refuses exactly when there is no such scenario, it is being recorded, nothing in it is replayed, a request with an unsafe method is without leave to send or skip it, or the run cannot be inserted, sending nothing; otherwise runs the plan up to the cancellation; the stored row holds the final status and tallies unless the run was cut off or the update failed, and else stays running with zero tallies |
| Replay.DiffsFollowThePlan | internal/replay/replay.go:155-172 | the diffs compare, in order, exactly the entries not skipped with the status that came back |
| Replay.RequestsFollowThePlan | internal/replay/replay.go:207-238 | the requests sent are, in order, those of exactly the entries that are not skipped and can be built |
| Replay.TalliesAddUp | internal/replay/replay.go:155-190 | of the entries run, passed counts those not skipped that came back with the recorded status, failed the others not skipped, skipped the rest; together they are as many as were run; some failed exactly when one came back otherwise or not at all |
| Replay.UnsafeNeedsConfirmation | internal/replay/replay.go:120-130 | a request whose method is not GET, HEAD or OPTIONS in upper case is sent only when unsafe methods are confirmed and not skipped |
| Replay.ReplaySendsNoDeniedHeader | internal/replay/replay.go:207-237 | no header copied from the capture into a replayed request is on the denylist |
| Replay.ResentIsCapturedIff | internal/replay/replay.go:48-57 | the re-sent method, target, body and own headers are those of the captured request if and only if it had no query, its body fitted the preview and came through redaction unchanged, and none of its own headers was redacted |
| BodyTee.CopyLimited | internal/proxy/proxy.go:109-110 | for any chunking the buffer holds the beginning of the body up to the limit, and the rest stays unread |
| BodyTee.Capture | internal/proxy/proxy.go:106-113 | the stream handed onward still holds the whole body, and the preview is its first min(bodyMaxBytes, length) bytes |
| BodyTee.ReadAll | internal/proxy/proxy.go:157-163 | reading the rejoined stream in any chunks yields the original byte for byte |

## Left out

- SQL and the database drivers: each statement is one atomic step on a map or sequence, with the primary key, unique and foreign key constraints it needs.
- A negative or zero `limit` of the event listing: the endpoint never passes one.
- Events whose timestamps are not positive: a page ending on one would make its cursor count as no cursor.
- The wrap-around of the bus and client counters after 2^63 - 1 ids: `Subscribe` and `AddClient` require a counter below that.
- Headers that Go's HTTP client adds by itself to a replayed request, such as `User-Agent` and those it derives from the base URL.
- The joining of repeated header lines and the decoding of percent escapes in paths at capture: a captured request is taken with one value per name and its decoded path.
- The error texts that adapters keep for their status.
- Failing reads of a captured body: the copy stops there and the error reaches the next reader again.
- `StartRecording` and `StopRecording` of the HTTP API: they bypass the agent's state, and their check and insert are separate.
- Deleting scenarios, replay run listings, service health and config snapshots: single-row operations.
- Validation of events and rules, event field construction, body redaction by JSON path, secret scanning: branch-by-branch facts.
- The writing of faults to HTTP responses, servers, sockets, tickers and logging: input and output.
- JSON, SHA-256, ULIDs and the clock: ids of fault rules are assumed never to repeat and the clock not to go back.
