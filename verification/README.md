# Asset tracker: device events, their order, and request metrics

A Dafny model of the asset tracker's Go service, Node service and trace table.
`dafny verify dfyconfig.toml` checks the whole project.

| file | models |
|---|---|
| `Devices.dfy` | device validation, the SQL statements and what lookups see of them, and every call as one atomic operation (the reference) |
| `DeviceUseCases.dfy` | the repository, the mutable device and the use cases as classes; other requests may commit between two statements |
| `Requests.dfy` | any number of requests whose statements interleave; linearizability; which call committed which operation |
| `Publishing.dfy` | the publisher's retry loop; all publishing goroutines and the topic; conservation |
| `Events.dfy` | consumer validation, `createEvent`, the event store and its queries |
| `Pipeline.dfy` | all of it as one transition system with crashes, ambiguous writes and redelivery |
| `Delivery.dfy` | what the consumer delivers and what it skips, over any stops, starts and commits |
| `Lifecycle.dfy` | how requests begin and publishes end, what a crash takes, what deliveries store, over whole runs |
| `Ordering.dfy` | in which order, and with which times, committed operations can still reach the topic |
| `Completeness.dfy` | what the store holds after a run without failures |
| `Timestamps.dfy` | the calendar, the two timestamp formats, string order against time order |
| `Rfc3339.dfy` | a reader of timestamps after the grammar of RFC 3339, and that it reads back what the services meant |
| `Uuids.dfy` | generated ids, the texts Postgres reads, the pattern Node accepts |
| `Metrics.dfy`, `GoMetrics.dfy`, `NodeMetrics.dfy` | request counters and traces in both services |
| `Limits.dfy`, `TraceTable.dfy` | the `limit` parameter; the filter algebra of the web UI |
| `Text.dfy`, `Bags.dfy` | lexicographic order, trimming, filtering, multisets |

## Assumptions

Generated UUIDs are fresh. The Go service has one clock that does not run
backwards; an instant is a number of nanoseconds, `UtcOf` is its calendar
reading. A SQL statement runs and is answered, fails without effect, or runs
while its answer is lost. One `WriteMessages` call appends zero or one copy
and returns nil only if it appended one. Only the Go service writes to the
topic, which has one partition (docker-compose.yml:82). A stored document is
never changed. Texts are sequences of Unicode characters and JSON carries the
four payload strings unchanged. Environment choices (which statement fails,
what the broker answers, whether an insert succeeds, drawn ids, the time) are
arguments of the methods and labels of the steps, so every theorem holds for
all of them.

## Where a plausible property fails

Each item has the exact condition under which it holds.

- Sorting Go timestamps as strings is chronological except on pairs in one
  second of which one trimmed fraction is a proper prefix of the other; there
  it is reversed (`GoStringOrder`, `GoOrderCounterexample`).
- `DELETE /devices/{id}` publishes the id as the caller spelled it
  (go-service/internal/application/delete_device.go:43), while Postgres
  accepts many spellings. Of these Node accepts those differing in letter
  case only; a query by the device's own id then misses the deletion
  (`AcceptedSpellings`, `ResolveBraced`, `OtherCaseSpelling`, `StoredIdSpelling`).
- A Go-valid device whose name is blank has all its events rejected
  (`ProducerConsumerContract`, `BlankNameIsLost`).
- The name in a deletion event is the one found before the delete statement;
  it is stale exactly if the last update committing in between wrote another
  name (`DeletionName`, `StaleNameExample`).
- A row can change without any event: when the answer of the last statement is
  lost the caller gets an error and nothing is published, ever. All other
  calls answered with an error have changed nothing (`CallsCommitOperations`,
  `FailedCallsLeaveNoTrace`, `LostAnswerLeavesNoTrace`, `LostAnswerExample`).
- `fromBeginning: false`: a consumer started before its first commit skips
  exactly the records between its last position (0 at first) and the end of
  the topic, downtime included, and they are never stored. A run skips nothing
  exactly if there are none at any such start (`StartSkips`,
  `DeliveredOrSkipped`, `NothingSkipped`, `SkippedIsLost`, `SkipExample`).
- A start after a commit delivers again exactly the records from the committed
  offset up to the furthest position so far (`StartRedelivers`), and only so is
  any record delivered twice (`RedeliveryNeedsRestart`).
- A Go metrics response can show more errors than requests, exactly when more
  requests began between its two loads than were free of errors
  (`ErrorsExceedRequests`, `ExcessExample`). Node's cannot
  (`ResponsesAreSnapshots`).
- The services use the same limit exactly if both can read the parameter, or
  only Go can and reads at most 1, or only Node can and reads 50
  (`LimitsAgree`, `PlainLimitsAgree`, `OneSidedSpace`, `HugeLimits`), and
  different counts for a limit below 1 (`RetrievalsAgree`).
- A longer search text in the trace table can show a row that the shorter one
  hid, because `toLowerCase` writes a capital sigma differently at the end of a
  word. Changing the text narrows every list exactly if the old text is empty
  or its lower case is contained in that of the new one; extending a text
  without capital sigma always does (`SearchNarrows`, `LongerSearchNarrows`,
  `SigmaExample`).
- The publisher's comment promises per-device partition ordering
  (go-service/internal/infrastructure/kafka_event_publisher.go:53). Even in one
  partition each operation has a goroutine of its own, so a device's deletion
  can stand before its renaming, and carry an earlier time (`ReorderExample`).
  An operation is sure to precede a later one in the topic if and only if its
  publish had ended when the later one committed (`CommitOrder`;
  `OrderGuaranteed` for any pair at any time). Its time is sure not to be later
  if and only if it is the creation, or its publish had by then ended or built
  its payload (`CommitTimes`, `TimesGuaranteed`).

## Model

| member | source | states |
|---|---|---|
| Pipeline.StepKeeps | go-service/internal/application/delete_device.go:26-49 | every step of every request, goroutine, consumer and crash keeps the joint invariant |
| Pipeline.RunInvariant | go-service/internal/application/update_device.go:28-55 | the invariant holds in every state of every interleaved run |
| Pipeline.DeletedEventMeansGone | go-service/internal/application/delete_device.go:32-46 | no device with a Kafka-sourced `device.deleted` event in the store is still in the table |
| Pipeline.DeletedStaysGone | node-service/src/infrastructure/kafka-event-consumer.js:94-120 | once such an event is stored the device is absent in all later states of the run |
| Pipeline.Provenance | node-service/src/application/log-event.js:25-29 | every Kafka-sourced event stems from one committed operation, with its kind and id text, a name the device held, and a time not before the device's creation, for a creation that very time |
| Pipeline.WrittenRowsAreTold | go-service/internal/infrastructure/kafka_event_publisher.go:35-47 | stored `device.created` and `device.updated` events carry the name and the printed id of the row their operation wrote |
| Pipeline.StoredTimeIsRead | go-service/internal/infrastructure/kafka_event_publisher.go:60 | the timestamp of a stored event, read after RFC 3339, is the payload time of its operation to the nanosecond |
| Pipeline.FailedCallsLeaveNoTrace | go-service/internal/application/create_device.go:31-47 | in every state of every run, a call answered with an error committed no operation, or one (its answer was lost) that has no goroutine, no record and no stored event |
| Pipeline.LostAnswerLeavesNoTrace | go-service/internal/application/update_device.go:41-52 | an operation committed while its caller is not told has no goroutine, no record and no stored event in any later state |
| Pipeline.LostAnswerExample | go-service/internal/application/create_device.go:33-35 | a run of two steps after which a row exists whose creation was answered with an error and is not published |
| Pipeline.OneDeletionPerDevice | go-service/internal/infrastructure/postgres_device_repository.go:90-99 | all stored deletions of one device stem from one operation and carry the same content |
| Pipeline.DeletionName | go-service/internal/application/delete_device.go:23-43 | the published name is the row's name at `FindByID`; it is the name at deletion if and only if no update of the device commits in between or the last one writes the same name, in particular if nothing commits in between |
| Pipeline.StaleNameExample | go-service/internal/application/delete_device.go:23-43 | a run of nine steps that publishes the old name of a device deleted under its new one |
| Pipeline.CreatedEventIsEarliest | go-service/internal/application/create_device.go:28-44 | the time in a stored creation is not after that in any other stored event of the device; their texts are in the wrong order exactly on clashing fractions |
| Pipeline.StoredIdSpelling | go-service/internal/application/delete_device.go:43 | stored ids equal the device's up to letter case; the query by the device's id misses exactly the deletions requested under another spelling |
| Pipeline.AnswerOrder | node-service/src/infrastructure/mongo-event-repository.js:39-54 | of two Kafka-sourced events in an answer the later one has the later time if and only if the two times clash |
| Pipeline.RunsLinearize | go-service/internal/application/update_device.go:28-54 | in every state the table and all replies are those of the calls run one at a time, each at its last statement |
| Pipeline.FieldsNeverEmpty | go-service/internal/domain/device.go:28-33 | in every state of every run no row and no operation has an empty name or type |
| Lifecycle.FinishedCallsBegan | go-service/internal/application/update_device.go:28-29 | every finished call was received at an earlier step with exactly its arguments, a creation with the time of that step; `invokedAt` counts the calls finished by then |
| Lifecycle.OperationsBegan | go-service/internal/domain/device.go:35-40 | every committed operation does what a request received at an earlier step asked for; a creation carries the clock of that step, an update or deletion counts the operations committed by then |
| Lifecycle.NothingIsStuck | go-service/internal/application/create_device.go:33-47 | in every state of every run each waiting request can run its statement, and each publish take its next step, with every outcome |
| Lifecycle.AnythingCanHappen | go-service/internal/application/update_device.go:28-55 | requests of any kind and arguments, the passing of time, crashes, panics, and stops, starts, commits and deliveries of the consumer are possible in every state |
| Lifecycle.CrashTakes | docs/adr/002-outbox-pattern-deferred.md:9 | a crash keeps rows, operations, topic and store, and ends every request and every publish |
| Lifecycle.CrashLosesPublishes | docs/adr/002-outbox-pattern-deferred.md:9 | a publish interrupted by a crash never writes again in any later state |
| Lifecycle.WriteEnds | go-service/internal/infrastructure/kafka_event_publisher.go:74-87 | a write appends at most its record; acknowledged it ends the publish, after a transient first or second failure the task goes on, after any other it has given up |
| Lifecycle.PanicEnds | go-service/internal/application/create_device.go:38-42 | a panic ends the publish without a write |
| Pipeline.RunsConserve | go-service/internal/infrastructure/kafka_event_publisher.go:73-87 | committed operations = running + acknowledged + failed + lost publishes; at most three attempts and copies, at least one copy if acknowledged |
| Ordering.EndedPublishPrecedes | go-service/internal/infrastructure/kafka_event_publisher.go:53 | once a publish has ended, in every later state its records precede those of every operation committed after it |
| Ordering.OrderGuaranteed | go-service/internal/infrastructure/kafka_event_publisher.go:53 | of two committed operations the records of one precede those of the other in all continuations if and only if they do now and its publish has ended, or the other's has ended without a record |
| Ordering.CommitOrder | go-service/internal/application/update_device.go:42-52 | when an operation commits, an earlier one is sure to precede it in the topic if and only if its publish had ended before |
| Ordering.TimesGuaranteed | go-service/internal/application/delete_device.go:43 | of two committed operations no record of one is later than one of the other in all continuations if and only if one never gets a record, or its time is settled and the other's is not settled before it |
| Ordering.CommitTimes | go-service/internal/application/update_device.go:49 | when an operation on a device commits, the time of an earlier one is sure not to be later if and only if that is the creation, or its publish had ended or built its payload before |
| Ordering.ReorderExample | go-service/internal/application/delete_device.go:36-46 | a run in which a device's deletion stands before its renaming in the topic and carries the earlier time |
| Pipeline.OnlyAppends | node-service/src/infrastructure/mongo-event-repository.js:27-31 | operations, topic and store only ever grow at the end |
| Delivery.AtMostOnceWithoutRestart | node-service/src/infrastructure/kafka-event-consumer.js:49-60 | without a consumer restart each message is stored at most once, in topic order, whatever else fails |
| Delivery.DeliveredOrSkipped | node-service/src/infrastructure/kafka-event-consumer.js:49-60 | over any stops, starts and commits, every record the consumer is past was delivered or skipped, never both, and a skipped one stays out of reach |
| Delivery.StartSkips | node-service/src/infrastructure/kafka-event-consumer.js:51 | a start skips nothing if an offset was committed, and otherwise exactly the records from the last position to the end of the topic |
| Delivery.NothingSkipped | node-service/src/infrastructure/kafka-event-consumer.js:51 | a run skips no record if and only if each start without a committed offset finds none past the last position; then everything passed was delivered |
| Delivery.CommitBeforeStopIsSafe | node-service/src/infrastructure/kafka-event-consumer.js:49-60 | that holds if the consumer first starts, at any step, on the empty topic and commits before it ever stops |
| Delivery.SkippedIsLost | node-service/src/infrastructure/kafka-event-consumer.js:49-60 | no later state stores an event of a skipped record |
| Delivery.SkipExample | node-service/src/infrastructure/kafka-event-consumer.js:51 | a run of eight steps in which the record of a created device is skipped |
| Delivery.StartResumes | node-service/src/infrastructure/kafka-event-consumer.js:51 | a start resumes at the offset of the last commit among all earlier steps, or at the end of the topic |
| Delivery.CommitHolds | node-service/src/infrastructure/kafka-event-consumer.js:51-60 | until the next commit, across any stops and starts, every start resumes at the committed offset and nothing below it is delivered |
| Delivery.StartRedelivers | node-service/src/infrastructure/kafka-event-consumer.js:51-60 | a start delivers again exactly the records from the last committed offset to the furthest position so far, none without a commit |
| Delivery.RedeliveryNeedsRestart | node-service/src/infrastructure/kafka-event-consumer.js:51-60 | between two deliveries of one record the consumer started with the last commit at or before it |
| Lifecycle.DeliveryStores | node-service/src/infrastructure/kafka-event-consumer.js:94-120 | a delivery moves to the next record and stores its event exactly if type, id, name and timestamp are acceptable and the insertion works |
| Lifecycle.PostStores | node-service/src/application/log-event.js:25-29 | a valid posted event is appended unchanged |
| Pipeline.StoredEventsAreFound | node-service/src/application/list-events.js:25-50 | every stored event is valid, has a distinct id, and is returned by the queries for its own device id and type |
| Completeness.CleanStepKeeps | node-service/src/infrastructure/kafka-event-consumer.js:94-120 | while nothing fails the store is the accepted part of what was delivered since the consumer's start, in order and once each, and empty before it |
| Completeness.CatchUp | node-service/src/application/log-event.js:25-29 | after a failure-free run has caught up, the store holds the accepted messages published since the consumer's start; if it started on the empty topic, as a multiset those of all operations with an accepted message |
| Completeness.OnlyFailuresAreUnclean | go-service/internal/infrastructure/kafka_event_publisher.go:73-88 | a run is failure-free unless it has a crash, a lost answer, a panic, an ambiguous or final failed write, a consumer stop or a failed insertion |
| Completeness.CatchUpLosesNothing | docs/adr/002-outbox-pattern-deferred.md:9 | the stored multiset is the whole committed history if and only if the consumer started on the empty topic and every operation has a visible name and an id in its own spelling up to case |
| Completeness.CatchUpExample | node-service/src/infrastructure/kafka-event-consumer.js:94-120 | a clean run of seven steps that has caught up and stores the event of a created device |
| Requests.DbStepKeeps | go-service/internal/infrastructure/postgres_device_repository.go:63-99 | every SQL statement of every concurrent request keeps linearizability and the table as a function of the committed operations |
| Requests.LastStatementIsAtomic | go-service/internal/application/update_device.go:38-54 | whatever ran since the first statement, the last one finishes the call with the effect and reply of the whole call run atomically there |
| Requests.CallsCommitOperations | go-service/internal/application/update_device.go:28-55 | finished calls and committed operations correspond one to one in order; unless its answer was lost a call commits exactly if it is no read and did not fail |
| Requests.CreatedAtImmutable | go-service/internal/infrastructure/postgres_device_repository.go:77-87 | a row keeps its creation time for as long as it exists |
| Requests.NameFollowsUpdates | go-service/internal/infrastructure/postgres_device_repository.go:77-87 | between two points at which a device exists its name is the last one written by an update, or unchanged |
| Requests.DeletedForever | go-service/internal/infrastructure/postgres_device_repository.go:90-99 | a deleted device never reappears |
| Requests.DeletedIsLast | go-service/internal/application/delete_device.go:27-34 | a deletion is the device's last operation, so there is at most one |
| Requests.CreationComesFirst | go-service/internal/application/create_device.go:28-35 | a device's creation precedes all its operations, which carry its creation time |
| DeviceUseCases.DeviceEntity.Update | go-service/internal/domain/device.go:45-55 | either an error by the validation order and no change, or exactly name and type replaced in place |
| Devices.CreateAnswer | go-service/internal/domain/device.go:27-41 | a creation is refused for an empty name, else for an empty type, else for an existing id, exactly then; otherwise it returns and stores the given fields |
| Devices.UpdateAnswer | go-service/internal/domain/device.go:43-55 | an update fails like its lookup, else for an empty name, else for an empty type, exactly then; otherwise both are replaced and id and creation time kept |
| Devices.SavedIsFound | go-service/internal/infrastructure/postgres_device_repository.go:25-32 | saving succeeds exactly if the id finds nothing; then every spelling of the id finds the device, and all other lookups are unchanged |
| Devices.FindFollowsSpelling | go-service/internal/infrastructure/postgres_device_repository.go:63-74 | a device is found under exactly the spellings of its id, all alike; a database error answers exactly the texts that spell no id |
| Devices.UpdatedIsFound | go-service/internal/infrastructure/postgres_device_repository.go:77-87 | updating succeeds exactly if the id finds a device; then every spelling finds it with new name and type and the old creation time, and all other lookups are unchanged |
| Devices.DeletedIsNotFound | go-service/internal/infrastructure/postgres_device_repository.go:90-99 | deleting fails like the lookup of the same text; otherwise no spelling of the id finds anything, and all other lookups are unchanged |
| DeviceUseCases.UseCases.Create | go-service/internal/application/create_device.go:27-50 | is the atomic create; one publish with the creation time exactly on success |
| Devices.GetSeesLastWrite | go-service/internal/application/get_device.go:20-26 | after a create or update and any calls not addressing the device, a get under any spelling returns exactly what that call returned; after a delete it finds nothing |
| DeviceUseCases.UseCases.Update | go-service/internal/application/update_device.go:28-55 | with any calls committing between its statements it equals one atomic update after them; the returned device is the written row |
| DeviceUseCases.UseCases.Delete | go-service/internal/application/delete_device.go:26-49 | with any calls committing between its statements it equals one atomic delete after them; publishes the found name and the caller's id text exactly on success |
| Devices.CreationTimeSurvives | go-service/internal/infrastructure/postgres_device_repository.go:78 | no sequence of calls that does not create the id anew changes a row's creation time |
| Publishing.KafkaEventPublisher.Publish | go-service/internal/infrastructure/kafka_event_publisher.go:55-88 | one to three writes; a transient failure before the third is followed by another write, any other failure ends it with an error, an acknowledgement with nil; only copies of this one message reach the topic |
| Publishing.RetryRule | go-service/internal/infrastructure/kafka_event_publisher.go:92-102 | a failed first or second write is retried exactly if its text says one of the five phrases somewhere |
| Publishing.PubStepKeeps | go-service/internal/infrastructure/kafka_event_publisher.go:73-88 | spawning, payload, each write and panic keep the accounting of all publishes and the provenance of all records |
| Publishing.Conservation | go-service/internal/application/create_device.go:37-47 | running, acknowledged, abandoned and lost publishes add up to the committed operations |
| Publishing.CopiesBounded | go-service/internal/infrastructure/kafka_event_publisher.go:73-87 | at most three copies per operation, all identical, at least one if acknowledged |
| Events.CreateEvent | node-service/src/domain/event.js:39-73 | fails exactly if type or name is blank or the id is no version-4 UUID, with the complaints in order; otherwise the event carries the given fields or the default time |
| Events.ComplaintsSayWhy | node-service/src/domain/event.js:42-60 | for each complaint exactly the inputs that receive it, once each and in order |
| Text.WhiteSpace | node-service/src/domain/event.js:42-58 | the characters trimmed are the 25 of ECMA-262, sections 12.2 and 12.3 |
| Events.LogEventUseCase.Execute | node-service/src/application/log-event.js:25-29 | an invalid draft is rejected and nothing stored; otherwise exactly the described event is appended unless the insertion failed, and the caller gets an error unless it was confirmed |
| Events.KafkaEventConsumer.Start | node-service/src/infrastructure/kafka-event-consumer.js:49-71 | never fails; runs exactly if every start-up call succeeds |
| Events.KafkaEventConsumer.Stop | node-service/src/infrastructure/kafka-event-consumer.js:76-85 | never fails; stops what was started, or leaves it if disconnecting fails |
| Events.KafkaEventConsumer.HandleMessage | node-service/src/infrastructure/kafka-event-consumer.js:94-156 | for any bytes at all: exactly one event is appended if all four members are texts, the type one of the three, the id version 4, the name visible, the timestamp non-empty and the insertion works; otherwise nothing changes |
| Events.BothValidations | node-service/src/infrastructure/kafka-event-consumer.js:129-156 | the consumer's check and `createEvent`'s together accept exactly the known kinds with version-4 id, visible name and a timestamp |
| Events.ProducerConsumerContract | go-service/internal/domain/device.go:27-41 | a published message is accepted if and only if the name is visible and the id text is the printed id up to case |
| Events.PrintedIdContract | node-service/src/domain/event.js:46-58 | for creations and updates only the name decides |
| Events.BlankNameIsLost | go-service/internal/domain/device.go:28-33 | a one-space name passes Go and fails Node |
| Events.EventRepository.FindByDeviceId | node-service/src/infrastructure/mongo-event-repository.js:39-54 | a string-descending permutation of exactly the matching events |
| Events.EventRepository.FindByType | node-service/src/infrastructure/mongo-event-repository.js:62-77 | a string-descending permutation of exactly the matching events |
| Events.ListEventsUseCase.Execute | node-service/src/application/list-events.js:25-35 | answers exactly for version-4 ids, with a correct answer |
| Events.ListEventsUseCase.ExecuteByType | node-service/src/application/list-events.js:44-50 | answers exactly for visible types, with a correct answer |
| Events.OwnQueriesFind | node-service/src/application/list-events.js:25-50 | a valid stored event's own id and type are allowed queries whose answers hold it |
| Events.AnswerHolds | node-service/src/infrastructure/mongo-event-repository.js:39-53 | an answer holds each matching event as often as stored and no other |
| Events.AnswersAgree | node-service/src/infrastructure/mongo-event-repository.js:62-66 | two answers to one query have the same sequence of timestamps |
| Timestamps.UtcOfInverse | go-service/internal/domain/device.go:39 | every instant has a calendar reading that denotes it |
| Timestamps.FieldOrderIsChronological | node-service/src/infrastructure/mongo-event-repository.js:40-43 | comparing calendar fields is comparing seconds on a continuous scale |
| Timestamps.GregorianYears | go-service/internal/domain/device.go:39 | the days before a year in closed form: every fourth year is leap, of the centuries every fourth |
| Timestamps.GregorianMonths | go-service/internal/domain/device.go:39 | the first days of the twelve months |
| Timestamps.StringOrderIsTimeOrder | node-service/src/infrastructure/mongo-event-repository.js:40-43 | for any two UTC texts, with fractions of any lengths, string order is time order unless they share the second and one fraction properly prefixes the other |
| Timestamps.StringOrderReversed | node-service/src/infrastructure/mongo-event-repository.js:62-66 | in that case the shorter fraction sorts later though it is never later |
| Timestamps.GoStringOrder | go-service/internal/infrastructure/kafka_event_publisher.go:60 | Go timestamps sort correctly except exactly on clashing pairs, which are reversed |
| Timestamps.FormatInstantInjective | go-service/internal/infrastructure/kafka_event_publisher.go:60 | a Go timestamp text determines its instant |
| Timestamps.NodeStringOrder | node-service/src/domain/event.js:69 | Node timestamps sort exactly by millisecond |
| Timestamps.GoOrderCounterexample | go-service/internal/infrastructure/kafka_event_publisher.go:60 | in every second, .51 sorts before .5 |
| Rfc3339.ReadsNano | go-service/internal/infrastructure/kafka_event_publisher.go:60 | a Go timestamp is read back as exactly its time |
| Rfc3339.ReadsMillis | node-service/src/domain/event.js:69 | a Node timestamp is read back as its time cut to milliseconds |
| Rfc3339.AcceptsOnly | go-service/internal/infrastructure/kafka_event_publisher.go:60 | the reader accepts only texts with each separator in its place and a final Z |
| Uuids.NewV4 | go-service/internal/domain/device.go:36 | fixes version and variant and keeps all other random digits |
| Uuids.HyphenatedSpelling | node-service/src/domain/event.js:52 | a text spells an id in hyphenated form exactly if its lower case is the printed id |
| Uuids.PrintedMatchesIffV4 | node-service/src/domain/event.js:52 | a printed id matches the pattern exactly if it is version 4, and its digits can be read back |
| Uuids.PrintLayout | go-service/internal/domain/device.go:36 | hyphens in columns 8, 13, 18 and 23, each digit in its column as a lower-case hexadecimal character, version and variant in columns 14 and 19 |
| Uuids.ResolvePrinted | go-service/internal/infrastructure/postgres_device_repository.go:64-66 | Postgres reads a printed id back as itself |
| Uuids.ResolveBraced | go-service/internal/infrastructure/postgres_device_repository.go:91-92 | an id in braces addresses the row but fails the Node pattern |
| Uuids.ResolveCompact | go-service/internal/infrastructure/postgres_device_repository.go:64-66 | the digits without hyphens address the row but fail the Node pattern; a hyphen after the second digit addresses nothing |
| Uuids.AcceptedSpellings | node-service/src/application/list-events.js:30-32 | of all texts addressing a row the pattern accepts those equal to the printed id up to case |
| Uuids.OtherCaseSpelling | go-service/internal/application/delete_device.go:43 | an id with a letter digit has another spelling that is addressed and accepted |
| GoMetrics.StepKeeps | go-service/internal/interfaces/metrics_handler.go:126-154 | every atomic action of any goroutine keeps the accounting of requests, errors and traces and what readers hold |
| GoMetrics.RunInvariant | go-service/internal/interfaces/metrics_handler.go:137-152 | requests = traces + in flight + panicked, and errors = failed traces + counted failures not yet pushed, in every state of every run |
| GoMetrics.QuietIsExact | go-service/internal/interfaces/metrics_handler.go:137-152 | with no request under way requests = traces + panicked requests, and errors = failed traces |
| GoMetrics.ResponsesAreReads | go-service/internal/interfaces/metrics_handler.go:92-110 | every response is three reads of one goroutine in order: the newest traces then, the requests begun before the second, the errors counted before the third; errors exceed requests exactly when more requests began in between than were free of errors |
| GoMetrics.CountersCountSteps | go-service/internal/interfaces/metrics_handler.go:112-119 | in every state the counters are the requests begun and the errors counted so far |
| GoMetrics.NothingBlocks | go-service/internal/interfaces/metrics_handler.go:126-154 | in every state a goroutine can begin a request or a read, or take its next step with any outcome |
| GoMetrics.ErrorsExceedRequests | go-service/internal/interfaces/metrics_handler.go:92-101 | every response covers its traces; errors exceed requests exactly when more requests began between the loads than were free of errors |
| GoMetrics.ExcessExample | go-service/internal/interfaces/metrics_handler.go:104-109 | a run whose response shows one error and no request |
| GoMetrics.MetricsHandler.GetTraces | go-service/internal/interfaces/metrics_handler.go:48-68 | the index loop returns the newest traces, newest first |
| GoMetrics.MetricsHandler.Serve | go-service/internal/interfaces/metrics_handler.go:128-153 | alone, a business request counts itself, its error and its trace, keeping the counters exact, and an infrastructure request changes nothing |
| NodeMetrics.RunIsExact | node-service/src/index.js:61-87 | at every callback boundary errors = failed traces and requests = traces + unfinished business requests |
| NodeMetrics.Server.HandleRequest | node-service/src/index.js:61-72 | counts a request exactly if its path begins with neither /health nor /metrics, and keeps exactness |
| NodeMetrics.Server.HandleFinish | node-service/src/index.js:72-87 | pushes the trace of a counted request and counts a status from 400 as an error together, keeping exactness |
| Metrics.InfraPaths | node-service/src/index.js:62-69 | not counted are exactly the paths that begin with /health or /metrics |
| NodeMetrics.MetricsHandler.GetTraces | node-service/src/interfaces/metrics-handler.js:31-40 | the push loop returns the newest traces, newest first |
| NodeMetrics.ResponsesAreSnapshots | node-service/src/interfaces/metrics-handler.js:72-84 | every response of every run shows the newest of the first n traces, exactly their errors, and one request for each of them and each unfinished one; errors never exceed requests |
| Metrics.RetrievalsAgree | node-service/src/interfaces/metrics-handler.js:31-40 | both services answer alike exactly for positive limits or empty histories |
| Metrics.PositiveLimits | go-service/internal/interfaces/metrics_handler.go:56-67 | for a positive limit both return that many of the newest traces, or all if there are fewer |
| Metrics.AnswersExtend | go-service/internal/interfaces/metrics_handler.go:56-67 | the answer for a smaller limit is a prefix of that for a larger one, in both services |
| Limits.GoLimit | go-service/internal/interfaces/metrics_handler.go:72-88 | the parsed limit is always in 1..10000 |
| Limits.LimitsAgree | node-service/src/interfaces/metrics-handler.js:58-64 | for every parameter: the same limit exactly if both services can read it, or only Go can and reads at most 1, or only Node can and reads 50 |
| Limits.PlainLimitsAgree | go-service/internal/interfaces/metrics_handler.go:72-88 | without leading white space that only one parser skips, exactly if Go can read it |
| Limits.OneSidedSpace | go-service/internal/interfaces/metrics_handler.go:77-80 | after a newline only Node reads on, and both answer 50 to "50"; after U+0085 only Go, and they differ |
| Limits.SpacesDiffer | node-service/src/interfaces/metrics-handler.js:61 | the two services take the same characters for white space except U+0085 and U+FEFF |
| Limits.NoParameter | node-service/src/interfaces/metrics-handler.js:58-64 | both answer 50 without the parameter; to an empty one Go answers 50 and Node 1 |
| Limits.NumberThenText | go-service/internal/interfaces/metrics_handler.go:78 | a plus sign before a number and any text after it change nothing |
| Limits.DecimalLimits | go-service/internal/interfaces/metrics_handler.go:77-87 | both read the decimal text of a 64-bit integer as the nearest number from 1 to 10000 |
| Limits.HugeLimits | node-service/src/interfaces/metrics-handler.js:61-63 | beyond 64 bits Go answers 50, Node 10000 or 1 |
| TraceTable.Composition | web-ui/src/components/layout/TraceTable.tsx:16-23 | filtering is the composition of the three single filters |
| TraceTable.AnyOrder | web-ui/src/components/layout/TraceTable.tsx:16-23 | in every order |
| TraceTable.Idempotent | web-ui/src/components/layout/TraceTable.tsx:16-23 | filtering twice is filtering once |
| TraceTable.ShownRows | web-ui/src/components/layout/TraceTable.tsx:16-23 | the shown rows are exactly the fitting ones, each at its place in the original order |
| TraceTable.ChipShows | web-ui/src/components/layout/TraceTable.tsx:7-18 | the chip of a method shows exactly the requests of that method, the first chip all |
| TraceTable.SearchNarrows | web-ui/src/components/layout/TraceTable.tsx:20 | a changed search text narrows every list if and only if the old one is empty or its lower case is contained in that of the new one |
| TraceTable.LongerSearchNarrows | web-ui/src/components/layout/TraceTable.tsx:20 | extending a search text without capital sigma, on either side, only narrows the result |
| TraceTable.SigmaExample | web-ui/src/components/layout/TraceTable.tsx:20 | the search for an alpha and a sigma hides a path that the search for alpha, sigma, alpha shows |
| TraceTable.FinalSigma | web-ui/src/components/layout/TraceTable.tsx:20 | a capital sigma becomes final exactly if a cased character precedes it and none follows, ignorable ones not counting |
| TraceTable.CountActiveFilters | web-ui/src/components/layout/TraceTable.tsx:25-31 | counts the components that differ from the cleared state |
| TraceTable.InactiveIsIdentity | web-ui/src/components/layout/TraceTable.tsx:69-70 | the count is 0 exactly for the cleared state, and exactly that state shows every list unfiltered |
| TraceTable.ActionsLeave | web-ui/src/components/layout/TraceTable.tsx:92-145 | what a click, two clicks on one method, toggling, typing and clearing leave behind |
| TraceTable.ClearReachable | web-ui/src/components/layout/TraceTable.tsx:92-162 | after any actions either everything is shown or the clear button leads to the cleared state |

## Left out

- Liveness: crashes and swallowed errors lose events by design (docs/adr/002-outbox-pattern-deferred.md:9); conservation and conditional completeness stand in its place.
- Internals of Kafka, Postgres, Mongo and the UUID generator; Kafka partitions beyond the first and consumer groups of more than one member.
- `FindAll`: one ordered read, without a bearing on the pipeline.
- HTTP routing, CORS, status codes, logging, authentication, health probes, and the React components around the filter functions.
- The 100 ms pause between write attempts, `WriteTimeout`, durations, and Postgres rounding of `created_at` to microseconds.
- Events.CreateEvent: a draft whose `timestamp`, `actor` or `description` is not a string is not modelled; the code declares these strings (node-service/src/domain/event.js:26-38) but stores other values unchecked, and Mongo then sorts by type.
- Pipeline.NodeNext: `POST /events` appends any valid event, of any type, so the statements about deletions and provenance are limited to Kafka-sourced events.
- GoMetrics.MetricsHandler.Serve: the class runs one request at a time; interleavings are in the transition system of the same module, and 64-bit overflow of the counters is not modelled.
- DeviceUseCases.UseCases.Update: a failing database is modelled in `Requests`, not in the class.
