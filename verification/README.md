# Fleet Hub: a verified model of the process-local core

Fleet Hub is a small web server in front of a message broker. Its hardest promises are kept by code
that lives in one process: an event bus that browsers resume from, a registry that makes retried
intents run once, a redaction that bounds and cleans untrusted JSON, the suppression of the hub's own
echoes, and a handful of bounded transforms around them. This project models that code in Dafny and
proves what it promises, for every input and every interleaving.

`dafny verify dfyconfig.toml` checks everything.

## How the model is laid out

Code that changes things step by step is a class, or a method with a loop, over the same fields as
the original; each method is proved against a function of the old state. What the code promises is
then proved about those functions, step by step and over whole runs. Asynchronous code is cut at its
awaits: a section without an await is one step, and runs interleave steps freely.

| files | component |
|---|---|
| `EventIds`, `Ring`, `EventBus`, `EventStreams`, `SseResume`, `SseTranscript` | the event bus and the resumable event stream |
| `Idempotency`, `IdempotencyStore`, `SingleFlight`, `Recency` | the single-flight registry and its concurrent callers |
| `Ordering`, `Redaction`, `Redactor`, `RedactionBounds`, `RedactionLaws`, `RedactionMeaning`, `RedactionOrder`, `RedactionSize`, `SensitiveKeys` | the redaction of open JSON |
| `SentIds`, `Echo`, `HubLogs`, `Dedupe`, `Roster`, `Replay` | sends, echoes, the logs, recipients, replay |
| `Base64Url`, `JsonText`, `Cursor`, `Paging`, `Listings` | opaque cursors and the pages they lead through |
| `MissionSnapshot`, `NeedsJohn`, `NeedsJohnLaws`, `NeedsJohnItems` | the attention items derived from a snapshot |
| `Recovery`, `RecoveryClient`, `RecoveryLaws`, `RecoveryMeaning` | the browser's snapshot cache and recovery scheduler |
| `Sessions`, `SessionStore`, `SessionLaws` | the session registry |
| `Wrappers`, `Joining` | shared definitions |

What comes from outside is a parameter or an oracle: random identifiers and process epochs, the clock
(a `real` or a count of milliseconds that never goes back), the outcome of each broker call, and what
Python's `int()`, base64 and JSON decoders make of text they accept beyond their own encoders' output.
SHA-256 and HMAC are arbitrary functions; results that need it assume that the digest has no
collisions, and then the texts given to it are proved to determine what they were built from.

## What the proofs found

- Redacting twice is not always redacting once, although every open field is validated again on its
  way out (`src/hub/mission_contract.py:203`). A key is judged whole in the first pass and clipped to
  128 characters in the second. `IdempotentExactlyWhenSettled` gives the exact condition on the input;
  `SecondPassForgetsASecret`, `SecondPassSuspectsAPlainKey` and `BothLongKeysExist` give the keys. It
  is not enough that clipping never makes a plain key sensitive: a sensitive key whose clipped form is
  plain, at the deepest level, leaves the redaction marker the first time and the truncation marker
  the second. With keys of at most 128 characters nothing can change.
- The comment on the redaction says that the whole traversal retains at most 512 nodes
  (`src/hub/mission_contract.py:129-131`). Of values that are not truncation markers it does. Counting
  the markers it emits beyond the budget, the output can have up to 953 nodes: that bound holds for every
  input and `LargestOutput` is an input that reaches it. The output has more than 512 exactly when it
  would have without a budget.
- A walk through pages can be handed a cursor that the next request refuses: one past offset 100000, or
  one longer than 512 characters. A walk whose limits cover the list reads all of it if and only if none
  of its rounds but the first starts, short of the end, at such a cursor (`FinishesExactlyUnlessJammed`).
  With one limit throughout the longest list read is the first multiple of the limit above 100000. Neither
  listing comes near that length: at most 128 missions and 1001 items are listed. A provider that names
  source versions of its own, of up to 256 characters, can reach the length limit: when quoted kind and
  version take more than 337 characters, no listing of more than one page can be read
  (`LongSourceVersionStopsAtFirstPage`, and `LongestNamesStopAtFirstPage` for an input). With plain
  versions of up to 165 characters, those made by `snapshot_version` among them, every listing can.
- The configuration check accepts deployment names of up to 128 characters, and a prefix of 13 is put
  before them, but the deduplication scope allows 128 in all. The scope of a send is refused exactly when the
  name has more than 115 (`RefusedExactlyForLongDeployments`).
- The two-second check against repeated refetches remembers only the newest start. Two keys that alternate
  start a recovery each time, however fast (`AlternatingKeysStartAtOnce`); a key repeated within two
  seconds starts again only directly after another key (`SoonRepeatedOnlyAfterAnotherKey`).
- `revoke` and `revoke_all` do not purge first, so they also report sessions that had expired; that is
  exactly when the lazy registry can be told from one that purges at once.

## How to read the laws

A function that a method is proved against is in turn pinned by laws that do not mention it: what a stream
has said (`SseTranscript`), which results are used and let go (`RecencyLaws`), what every part of a redacted value
stands for (`RedactionMeaning`), what every attention item says (`NeedsJohnItems`), and what the client's
cache holds (`RecoveryMeaning`) are told in terms of the actions and inputs alone.

## Model

| member | source | states |
|---|---|---|
| EventIds.FormatParses | src/hub/state.py:78-82 | an issued event id parses back to its epoch and number whatever dashes the epoch holds |
| Ring.HeaderMeaning | src/hub/state.py:78-84 | any resume header: absent when missing or empty, of an epoch and number split at its last dash, and malformed without a dash or when what follows it is no number |
| Ring.IdTextIsFaithful | src/server.py:1748-1753 | the cutoff filter and the resume header, working on the id text, see the frame's own epoch and number |
| Ring.PublishRepresents | src/hub/state.py:45-48 | after a publish the bounded ring is still the tail, of the right length, of the log of everything published |
| Ring.SinceRefinesLog | src/hub/state.py:73-93 | for an id of this process a reset is demanded exactly when more than `capacity` events followed it; otherwise the backlog is exactly the log after it |
| Ring.SinceAnswers | src/hub/state.py:73-93 | the answer to any header: which headers are reset, and the full log's events otherwise |
| EventBuses.Queue.Deliver | src/hub/state.py:49-70 | a subscriber queue takes the event, or collapses to one overflow reset of the same id |
| EventBuses.EventBus.Publish | src/hub/state.py:45-71 | the very event is numbered next, appended to ring and log, and put on every queue, which if full is left with one overflow reset of that number instead |
| EventBuses.EventBus.Since | src/hub/state.py:73-93 | on a live bus, a reset is answered exactly for a header that is unreadable, foreign, from the future or more than the capacity behind; otherwise the backlog is the full log after it |
| EventBuses.EventBus.Attach | src/hub/state.py:95-100 | refused exactly at the subscriber limit; otherwise a new empty queue joins and nothing else changes |
| EventBuses.EventBus.Detach | src/hub/state.py:102-104 | exactly the given queue leaves |
| EventStreams.EventStream.Open | src/server.py:1770-1785 | attach and cutoff read are one step: the new stream starts with an empty queue at the bus's current number |
| EventStreams.EventStream.Advance | src/server.py:1787-1824 | each step of the generator, on the object, is the step of the interleaving model |
| EventStreams.EventStream.PublishWhileAttached | src/hub/state.py:45-71 | a publish through the shared bus reaches an attached stream as the model's receive step |
| EventStreams.EventStream.Close | src/server.py:1827-1829 | the closed stream's queue, and no other, is detached |
| SseResume.BacklogReadKeepsChain | src/server.py:1799-1804 | reading the backlog late, after any publishes since the cutoff, splices ring and queue without loss or repetition |
| SseResume.StepKeepsInvariant | src/server.py:1770-1829 | every publish, attach, stream step and detach keeps every stream an unbroken continuation from its base to the newest id |
| SseResume.ExactlyOnce | src/server.py:1787-1824 | in every reachable system, a stream that met no overflow has sent exactly the log's events after its base, in order, none missing and none twice |
| SseResume.LossOrReset | src/hub/state.py:49-70 | for every stream in every reachable system: ids strictly increase, end at the newest, an event follows its predecessor by one, every id is sent or covered by a later reset, the queue keeps its bound |
| SseResume.LiveFilterDropsNothing | src/server.py:1821-1824 | the cutoff filter in the live loop passes every queued frame, overflow resets included |
| SseResume.ResetExactlyWhenUnanswerable | src/server.py:1799-1813 | at the backlog read a reset is sent exactly when the header is unreadable, foreign, from the future, or beyond the ring by then |
| SseTranscript.TranscriptOfEveryStream | src/server.py:1787-1824 | what every stream has said: nothing before the greeting, then the greeting with the process epoch and a number no older than the cutoff, then the resets it is due, and then exactly the frames it delivered |
| SseTranscript.ResetsAreSaidExactlyWhenUnanswerable | src/server.py:1799-1813 | however a run goes on after the backlog read, a live stream has said both reset frames, before any other, exactly when its header could not be answered then, and no reset frame otherwise |
| SseTranscript.ServedToTheEnd | src/server.py:1787-1824 | from any phase of any reachable system, turns of the stream alone bring it to say everything owed, in order: greeting, both resets or the log from its position to the cutoff, and its queue |
| SseTranscript.AttachOpensOneStream | src/server.py:1770-1785 | a new stream starts at the newest number with nothing said and nothing queued; a full bus admits none |
| SseTranscript.DetachEndsOneStream | src/server.py:1827-1829 | a detach ends that stream and touches no other |
| SseTranscript.PublishReachesEveryStream | src/hub/state.py:45-71 | the log gets the event published, as given, under the next number, and every stream's queue gets it, or one overflow reset when full |
| Registry.AdmissionMeaning | src/hub/state.py:170-200 | which calls conflict, join, own or are refused, in terms of the unexpired entries found |
| Registry.EnterRemovesFairly | src/hub/state.py:154-190 | a first section removes an entry only if it is settled and expired, or the registry was full and only entries in flight stood before it |
| Registry.FindsOwn | src/hub/state.py:205-227 | an owner's key always leads to the owner's own entry while its operation is in flight |
| Registry.EnterKeepsOk | src/hub/state.py:170-200 | the first section keeps capacity, one entry per key, and an entry for every operation in flight |
| Registry.SucceedKeepsOk | src/hub/state.py:217-227 | so does the owner's section after success, whose result is due one TTL after completion |
| Registry.FailKeepsOk | src/hub/state.py:205-215 | so does the owner's section after failure |
| SingleFlight.AtMostOneInFlight | src/hub/state.py:159-227 | over all interleavings, one principal and key never has two operations in flight |
| SingleFlight.EntryPendingIffOwnerRuns | src/hub/state.py:159-227 | an entry is pending exactly while its owner runs, and a running owner finds its own entry |
| SingleFlight.ReusedFromTheOwner | src/hub/state.py:202-203 | a reused result or exception is what its owner got, who asked with the same principal, key and fingerprint |
| SingleFlight.CoWaitersAgree | src/hub/state.py:202-203 | all callers served by one operation get one answer |
| SingleFlight.NoWaiterIsStranded | src/hub/state.py:202-227 | whoever waits, either the operation has ended and the next step returns its owner's answer, or the owner still runs that very operation and either end of it ends the wait |
| SingleFlight.SaturatedExactlyWhenAllInFlight | src/hub/state.py:181-193 | entries never exceed capacity; saturation is raised exactly when the key is absent and all slots are in flight |
| SingleFlight.OnlyAcceptedResultsAreHeld | src/hub/state.py:205-227 | a result is held exactly when accepted, until one TTL after completion; failures and rejected results are forgotten at once |
| RecencyLaws.HeldUntilLetGo | src/hub/state.py:154-200 | over any run a held result stays held and unchanged unless some action let it go: its time had run out, or it was the least recently used of the entries not in flight in a full registry |
| RecencyLaws.RunsAgainOnlyAfterLetGo | src/hub/state.py:154-200 | a key with a held result runs its operation again only after such an action |
| RecencyLaws.EntriesStandInOrderOfUse | src/hub/state.py:179-227 | after any run the entries stand in the order of the actions that last used them: an entering call that owns or joins, or a completion that is kept |
| RecencyLaws.EvictsTheLeastRecentlyUsed | src/hub/state.py:181-190 | when a reusable result is evicted, every slot was live, the key had none, and every other entry not in flight was used later in the run |
| RecencyLaws.EnterAnswers | src/hub/state.py:170-203 | a new call waits exactly for the live entry of its key and body, conflicts exactly at one of another body, is refused for saturation exactly when its key is absent and all slots are in flight, and else runs its operation |
| SingleFlight.InFlightStays | src/hub/state.py:154-190 | a pending entry is never purged or evicted |
| IdempotencyStores.IdempotencyStore.PurgeLocked | src/hub/state.py:154-157 | the purge loop keeps exactly the pending and unexpired entries, in order |
| IdempotencyStores.IdempotencyStore.EnterSection | src/hub/state.py:170-200 | purge, conflict, hit, eviction and insertion, in place on the ordered entries, are the model's first section, and keep the registry's invariant |
| IdempotencyStores.IdempotencyStore.SucceedSection | src/hub/state.py:217-227 | settling the future and keeping or dropping its entry, in place, is the model's section after success, and keeps the invariant |
| IdempotencyStores.IdempotencyStore.FailSection | src/hub/state.py:205-215 | dropping the entry and failing the future, in place, is the model's section after failure, and keeps the invariant |
| RedactionBounds.VisitCost | src/hub/mission_contract.py:136-139 | past the budget a visit costs one stub; within it, at most the siblings left over at each level still open when the budget runs out |
| RedactionBounds.TotalVisits | src/hub/mission_contract.py:134-178 | any input costs at most 512 + 63 * 7 = 953 visits |
| RedactionSizes.OutputSize | src/hub/mission_contract.py:136-178 | the output has exactly as many nodes as the counter counted, and so at most 953 |
| RedactionSizes.RetainsAtMostTheBudget | src/hub/mission_contract.py:134-139 | at most 512 visited nodes are not budget stubs, and at most 512 output nodes are not the truncation marker |
| RedactionSizes.BudgetMattersExactlyWhenExceeded | src/hub/mission_contract.py:134-139 | the output exceeds 512 nodes if and only if it would without a budget; otherwise the budget changes nothing |
| RedactionSizes.LargestOutput | src/hub/mission_contract.py:136-178 | an input whose output has 953 nodes, 441 of them budget stubs, whatever keys are sensitive |
| RedactionBounds.RedactedIsBounded | src/hub/mission_contract.py:144-178 | output containers hold at most 64 entries under sorted distinct keys of at most 128 characters, strings are at most 2048 + 11, no container lies below level 6, an object stays an object |
| Ordering.LessEqMeaning | src/hub/mission_contract.py:165-166 | the order that keys are sorted by puts prefixes first and otherwise the lesser character where two texts first differ |
| RedactionLaws.SecretsDoNotInterfere | src/hub/mission_contract.py:136-178 | inputs that differ only beneath sensitive keys, at any depth, give the same output |
| RedactionLaws.IdempotentExactlyWhenSettled | src/hub/mission_contract.py:125-178 | a second pass returns the same value if and only if every key the first pass reaches is settled, and then spends the same budget |
| RedactionLaws.RevalidationChangesNothing | src/hub/mission_contract.py:181-205 | validating an open field again changes nothing when clipping keeps the verdict on its keys |
| RedactionMeaning.RedactedIsShown | src/hub/mission_contract.py:134-178 | what every part of the output stands for: item i of a list for item i, an entry for the least of the first 64 string-keyed entries whose keys clip to its key, plain values for themselves; only beyond the budget may a part be the truncation marker instead |
| RedactionOrder.RedactedIsTheFreeOneCut | src/hub/mission_contract.py:134-178 | the redaction is what the value is shown as without a budget, with every node that stands after the first 512 in document order, and no other, cut to a marker |
| RedactionMeaning.LeavesAloneExactlyTheClean | src/hub/mission_contract.py:134-178 | a value of at most 512 nodes is returned unchanged if and only if nothing in it needs redacting: no sensitive key, long text, excess entry, unsupported value or deep container |
| SensitiveKeys.VerdictMeaning | src/hub/mission_contract.py:105-122 | any key is sensitive exactly when, case folded, a maximal alphanumeric run of it is one of the words, or its alphanumerics together are one or end in a suffix |
| SensitiveKeys.SuffixIsSensitive | src/hub/mission_contract.py:105-122 | no spelling of a suffix, by case or separators, escapes |
| SensitiveKeys.SecondPassForgetsASecret | src/hub/mission_contract.py:136-178 | a sensitive key that clips to a plain one, at the deepest level, is redacted and then truncated |
| SensitiveKeys.SecondPassSuspectsAPlainKey | src/hub/mission_contract.py:136-178 | a plain key that clips to a sensitive one is shown and then redacted |
| SensitiveKeys.BothLongKeysExist | src/hub/mission_contract.py:105-122 | both kinds of key exist for the verdict the code applies |
| SensitiveKeys.SecondPassCanDiffer | src/hub/mission_contract.py:203 | so redacting twice is not always redacting once |
| Redactors.Redactor.Visit | src/hub/mission_contract.py:136-176 | the recursion over a shared counter returns the value, and leaves the count, of the threaded form |
| Redactors.Redactor.VisitItems | src/hub/mission_contract.py:154-155 | list items are visited in order, each from the count the last one left |
| Redactors.Redactor.VisitPairs | src/hub/mission_contract.py:167-175 | the loop that skips taken clipped keys visits and keeps the first of each clipped key, without spending budget on the others |
| Redactors.SelectMembers | src/hub/mission_contract.py:159-165 | the selection loop takes the first 64 string keys and looks no further |
| SentIds.SentIds.Add | src/hub/state.py:117-121 | an added key is newest, once, and the oldest go while over the cap |
| SentIds.SentIds.Discard | src/hub/state.py:126-127 | exactly that key leaves |
| SentIds.Survives | src/hub/state.py:110-127 | an added key stays through any adds and discards that add fewer than `cap` others and do not discard it |
| SentIds.HeldExactlyWhileRoom | src/hub/state.py:110-127 | under any later adds and discards, an added key is held exactly when it was not discarded and at no time since were `cap` other keys added and not discarded |
| SentIds.GoneExactlyAtCap | src/hub/state.py:117-121 | with nothing discarded, it is gone exactly when `cap` others were added |
| Echo.DistinctMessagesDistinctKeys | src/hub/natsio.py:158-162 | two frames share an echo key exactly when subject and bytes are the same |
| Echo.ReceiveMeaning | src/hub/natsio.py:384-423 | which frames are suppressed, quarantined, shown in the raw feed only, in the chat, or in which agent's log, told by subject, text, addressee and the record of own sends |
| Echo.SafeSubjectMeaning | src/hub/natsio.py:137-140 | a subject is safe exactly when it is dot-separated non-empty tokens of the allowed characters within the length limit |
| Echo.TimelyIsHeld | src/hub/natsio.py:384-387 | the key of a send not given up is on record while fewer than `cap` sends began after it |
| Echo.ProjectedExactlyOnce | src/hub/natsio.py:828-911 | however sends, acks, fallbacks, failures and timely echoes interleave, a successful first-time send is in the logs once, an attempt echoed at most once never twice, and a send given up exactly as often as its chat- or agent-addressed echoes return after that |
| Echo.RecognisedExactlyWhileRecent | src/hub/natsio.py:384-387 | in every run, failures included, a returning frame is recognised exactly when its send was not given up and at no time since were `cap` later sends begun and not given up |
| HubLogs.HubState.RecordRaw | src/hub/natsio.py:165-209 | the raw feed takes the next number, keeps its bound, its numbers stay consecutive, a quarantined frame shows neither an unsafe subject nor its payload, and a live entry is published |
| HubLogs.RawForMeaning | src/hub/natsio.py:165-209 | a raw entry shows a safe subject as it is, the size, and at most 160 characters of how the payload is shown; of a quarantined frame nothing of the payload |
| HubLogs.KeptAreTheNewest | src/hub/natsio.py:165-209 | a bounded log holds exactly the newest entries of all ever appended, in order |
| HubLogs.HubState.HandleMsg | src/hub/natsio.py:212-423 | told by subject, text, addressee and the record of own sends: the chat grows by exactly this frame when it is on the chat subject with text and is no echo of our own, one known agent's log when it is addressed to that agent, nothing else grows, and live growth is published as such |
| HubLogs.HubState.BeginSend | src/hub/natsio.py:828-831 | the key is on record before the first await, as the interleaving model's begin step |
| HubLogs.HubState.CompleteSend | src/hub/natsio.py:874-908 | last_seq is only raised, a duplicate is not projected, any other send grows and publishes to exactly one log, as the model's step |
| HubLogs.HubState.FailSend | src/hub/natsio.py:847-872 | giving up discards the key and projects nothing |
| HubLogs.HubState.HandleEcho | src/hub/natsio.py:384-387 | a returning frame of the hub's own, handled by `handle_msg`, is the model's echo step |
| Dedupe.SendsShareIdExactlyForSameScope | src/server.py:121-127 | two sends by any principals and under any keys share an id exactly when they share deployment, principal and key: nothing the hub builds can hold the separator |
| Dedupe.PrincipalHoldsNoSeparator | src/hub/auth.py:165-177 | a principal is its mode and 24 hexadecimal digits, so it holds no separator and fits |
| Dedupe.NamespaceHoldsNoSeparator | src/server.py:121-127 | no namespace holds the separator, whatever was configured |
| Dedupe.SameIdExactlyForSameScope | src/hub/natsio.py:725-742 | for any scopes whose namespace and principal hold no separator, ids agree exactly when namespace, principal and key do |
| Dedupe.SeparatorInPrincipalCollides | src/hub/natsio.py:738-742 | of the function alone, outside the scopes the hub builds: a separator inside a principal makes two scopes share an id |
| Dedupe.RefusedExactlyForLongDeployments | src/hub/natsio.py:734-741 | a send's scope is refused exactly when the deployment name exceeds 115 characters |
| Dedupe.LongDeploymentIsAcceptedAndRefused | src/server.py:121-127 | a name of 116 characters passes the configuration check, and every send under it is refused |
| Roster.RegisterIndexes | src/hub/natsio.py:45-78 | one turn of the loop keeps the tables exact: one claimant leads to it, two or more are ambiguous |
| Roster.BuildIndexes | src/hub/natsio.py:45-78 | after the loop both tables are exact for all claims made |
| Roster.TablesNameTheAgents | src/hub/natsio.py:45-78 | the tables in terms of the agents: a name leads to the uid of the only agent whose uid, callsign or display name folds to it, a safe subject to the only agent reached at it, and a name is ambiguous exactly when two agents share it |
| Roster.OrderDoesNotMatter | src/hub/natsio.py:45-78 | listings of the same agents in any order give the same tables |
| Roster.DirectExactlyToTheOnlyClaimant | src/hub/natsio.py:766-784 | a named send goes to a subject exactly when one unarchived agent alone goes by the name and has it; it is refused as ambiguous exactly when two agents go by it, as archived when the only one is, and as unknown when none does |
| Replays.Replayer.FirstPass | src/hub/natsio.py:448-475 | the lookups of the agents leave no error exactly when every active agent with a subject was answered or has no message |
| Replays.Replayer.WalkStream | src/hub/natsio.py:500-560 | one stream's messages are handed over in order up to the cap; the walk fails exactly when no short, empty or timed-out fetch ended it |
| Replays.Replayer.Walk | src/hub/natsio.py:477-563 | over all streams: everything offered is handed over in order up to the cap, and below the cap an error is counted exactly when a subscription or a walk failed |
| Replays.WalkMeaning | src/hub/natsio.py:500-560 | a walk ends by itself exactly when no fetch it comes to fails, and reads every full batch up to the first fetch that is none, and that one too if it is a batch |
| Replays.StreamsInOrder | src/hub/natsio.py:477-499 | streams are read one after the other, in order |
| Replays.OneStream | src/hub/natsio.py:479-500 | of one stream that is everything its walk reads, under its name, and nothing if it cannot be subscribed to |
| Replays.Replay | src/hub/natsio.py:433-577 | completeness is claimed exactly when no lookup of an active agent failed, every subscription succeeded, no fetch a walk came to failed and fewer than 5000 messages were held; what is handled is the first 5000 in order; per-stream sequences are exact, and last_seq ends at the highest of what was known, read, and acknowledged to sends during the waits |
| Replays.HighestIsMaximum | src/hub/natsio.py:514-529 | the sequence recorded for a stream is one that was read and none read was above it |
| Base64Url.DecodeEncode | src/server.py:796-803 | decoding an encoding returns the bytes |
| Base64Url.StripThenRepad | src/server.py:796-803 | dropping the padding and restoring it by length returns the encoding, of the length stated |
| JsonText.QuoteRoundTrip | src/server.py:788-792 | every string is read back from its JSON quotation, whatever follows |
| JsonText.QuoteIsAscii | src/server.py:788-792 | a quotation is ASCII whatever the string |
| Cursors.IssuedCursorDecodes | src/server.py:787-824 | an issued cursor gives its offset under its own kind and version, is stale under another version, invalid under another kind, and is refused exactly beyond the two limits |
| Cursors.AnyCursorDecodes | src/server.py:799-824 | any text as a cursor: it opens an offset exactly when, within 512 characters, it carries a body under its own signature that names this kind, version and that offset of at most 100000; it is stale exactly when the body names this kind and not this version; all else is invalid |
| Cursors.CursorLength | src/server.py:787-796 | the exact length of an issued cursor, for any kind, version and offset |
| Cursors.CursorFitsExactly | src/server.py:800-801 | an issued cursor is within 512 characters exactly when its quoted kind, quoted version and offset take at most 338 |
| Cursors.IssuedCursorsAreDistinct | src/server.py:787-824 | two issued cursors are the same text exactly when kind, offset and version are the same |
| Paging.FollowingIssued | src/server.py:827-845 | following an issued cursor gives the page at its offset and the next cursor, unless it is past the last offset accepted or too long, and is then refused |
| Paging.AnyCursorIsServed | src/server.py:827-845 | any cursor text: a page is served exactly at an offset it opens within the list, with as many items as limit and list allow and a next cursor exactly when items remain; beyond the list it is refused |
| Paging.OldCursorIsStale | src/server.py:815-816 | an issued cursor used after the version changed is refused and never yields a page |
| Paging.WalkStands | src/server.py:827-845 | where any walk stands after any rounds, over any list and listing |
| Paging.FinishesExactlyUnlessJammed | src/server.py:799-845 | a walk whose limits cover the list collects exactly the list if and only if no round but the first starts, short of the end, at a cursor that is refused |
| Paging.PagesPartitionTheList | src/server.py:827-845 | up to 100001 items, following the cursors with any limits finishes within as many rounds as items and collects exactly the list |
| Paging.EqualLimitsFinishExactly | src/server.py:818-819 | with one limit throughout, exactly the lists up to the first multiple of it above 100000 are read to their end |
| Paging.CursorsFitExactly | src/server.py:800-801 | no cursor of a listing is too long exactly when its quoted kind and version take at most 332 characters |
| Listings.DerivedIsShort | src/hub/needs_john.py:239-318 | a snapshot derives at most one item per lease and task, and one for the mission |
| Listings.MissionsAreReadThrough | src/server.py:1342-1366 | every catalog is read to its end, in pages of any sizes |
| Listings.NeedsJohnIsReadThroughExactly | src/server.py:1491-1503 | a needs-john listing, under any version at all, is read to its end exactly when no page but the first starts where kind, version and offset exceed what a cursor holds |
| Listings.NeedsJohnIsReadThrough | src/server.py:1491-1503 | so it is in pages of any sizes whenever quoted kind and version take at most 334 characters |
| Listings.PlainVersionsLeaveRoom | src/server.py:1491-1503 | any mission id with any plain source version of up to 165 characters, a snapshot's own among them, takes no more than that |
| Listings.LongSourceVersionStopsAtFirstPage | src/server.py:1491-1503 | when quoted kind and version take more than 337 characters, a listing of more than one page ends after the first, whatever the page size |
| Listings.LongestNamesStopAtFirstPage | src/server.py:1491-1503 | such listings exist: a 128-letter mission id with a 256-letter source version |
| MissionSnapshots.SizesAgreeIffDistinct | src/hub/mission_contract.py:308-335 | comparing a list's size with its set's finds every repeated identity |
| MissionSnapshots.AcceptedIdsDistinct | src/hub/mission_contract.py:308-335 | records are accepted exactly when all are of the mission and no task, attempt, claim or receipt id stands twice |
| NeedsJohn.Derive | src/hub/needs_john.py:239-318 | the loops over leases and tasks and the final sort compute the listing as a function of the snapshot |
| NeedsJohnLaws.PreimageInjective | src/hub/needs_john.py:176-180 | the text fed to the hash determines kind, mission and entity |
| NeedsJohnLaws.ItemIdInjective | src/hub/needs_john.py:176-180 | item ids agree exactly when kind and entity do |
| NeedsJohnLaws.SubjectsDistinct | src/hub/needs_john.py:239-318 | no two rules single out the same subject in an accepted snapshot |
| NeedsJohnLaws.ExactCover | src/hub/needs_john.py:239-318 | the items are exactly one per expired lease, one per task in one of the four statuses, each of its kind, and one for the mission exactly when its state is not coherent and not an expiry that a lease tells of |
| NeedsJohnLaws.ItemExactlyWhenSingledOut | src/hub/needs_john.py:239-318 | a subject has an item of its id exactly when the rules single it out |
| NeedsJohnItems.TaskHasItemExactlyInItsStatus | src/hub/needs_john.py:133-173 | a task has an item blocked_task, quarantined_task, input_required or auth_required exactly when its folded status is blocked, quarantined, input-required or auth-required respectively |
| NeedsJohnItems.ItemsAreSpelledOut | src/hub/needs_john.py:188-318 | an item is listed exactly when it is, field by field, the item of an expired lease, of the mission's state or of a task in one of the four statuses, with the evidence each calls for, cut at 32 references |
| NeedsJohnItems.ListedInOrder | src/hub/needs_john.py:311-318 | kinds ascend in the listing, and identities within a kind |
| NeedsJohnLaws.IdentitiesAreStable | src/hub/needs_john.py:176-180 | the list of kinds and ids is the same for any order of the records and any observation time, source version, attempts and receipts |
| NeedsJohnLaws.EvidenceKeepsWhatComesFirst | src/hub/needs_john.py:183-209 | the bound on evidence never displaces what the rule puts first |
| RecoveryLaws.CacheIsFenced | src/static/app.js:633-675 | in every run a cached snapshot was requested under the present snapshot and session revisions, while signed in, after the newest recovery; a joined request is current too |
| RecoveryMeaning.CacheHoldsTheNewestAnswer | src/static/app.js:641-675 | in every run the cache holds a mission exactly when signed in and an answer to a request of the present revisions has come, and then what the last such answer said, be it a text or that the mission is unavailable |
| RecoveryMeaning.JoinedIsTheNewestRequest | src/static/app.js:641-675 | a caller joins exactly the last request for the mission under the present revisions, while it is under way |
| RecoveryMeaning.FetchedExactlyWhenUnserved | src/static/app.js:641-669 | a new request is sent exactly when forced, or when neither an answer nor a request under way serves; it is of the present revisions and never made before |
| RecoveryLaws.PromiseIsTheNewestRecovery | src/static/app.js:705-724 | a recovery promise is that of the newest recovery id, which is still running |
| RecoveryLaws.SupersededRecoveryIsInert | src/static/app.js:715-716 | a recovery from before a sign-out changes nothing when it ends |
| RecoveryLaws.DroppedExactlyWhenJustStarted | src/static/app.js:697-699 | a request is dropped exactly when the newest start of the session had its key under two seconds ago |
| RecoveryMeaning.AskMeaning | src/static/app.js:694-725 | what asking does in every run: nothing when signed out or just started, one place in the queue while a recovery of this session runs, and otherwise one start at once under a new revision with an empty cache |
| RecoveryMeaning.EndWithoutQueue | src/static/app.js:715-722 | a recovery that ends with nothing queued starts no other and leaves the cache alone |
| RecoveryMeaning.SignedInExactlyAfterSignIn | src/static/app.js:2084-2088 | the client counts as signed in exactly when the last of all sign-ins and sign-outs was a sign-in |
| RecoveryMeaning.SignOutForgets | src/static/app.js:1943-1991 | signing out ends cache, requests, recovery, queue and duplicate memory, and no request made before is current afterwards |
| RecoveryLaws.StartsOfAKeyAreApart | src/static/app.js:697-708 | neighbouring starts of one key in a session are at least two seconds apart, each with a newer revision |
| RecoveryLaws.SoonRepeatedOnlyAfterAnotherKey | src/static/app.js:697-708 | of two starts of one key in one session less than two seconds apart, the later directly follows a start of another key |
| RecoveryLaws.AlternatingKeysStartAtOnce | src/static/app.js:697-708 | a run in which two alternating keys start three recoveries at one instant |
| RecoveryLaws.QueuedRequestIsServed | src/static/app.js:700-722 | a queued request is never dropped: the end of the recovery it waits for starts exactly one more, for the newest request queued, unless the user signs out |
| RecoveryClient.Page.ScheduleProjectionRecovery | src/static/app.js:694-725 | the scheduler, on the page's own variables, is the model's |
| RecoveryClient.Page.RecoveryEnds | src/static/app.js:715-722 | the end of a recovery, with the draining of its queue, on the page's own variables, is the model's |
| RecoveryClient.Page.LoadSnapshot | src/static/app.js:641-669 | serves the cache, joins the request under way, or issues one under the present revisions |
| RecoveryClient.Page.SnapshotArrives | src/static/app.js:652-667 | a reply is cached and returned exactly when signed in under unchanged revisions |
| RecoveryClient.Page.RequestSettles | src/static/app.js:670-674 | a settled request removes itself and never its successor |
| RecoveryClient.Page.EnterApp | src/static/app.js:2084-2088 | signing in marks the page signed in and drops every snapshot and request of before |
| RecoveryClient.Page.ResetPrivateState | src/static/app.js:1943-1991 | signing out ends session, cache, queue and promise together |
| SessionLaws.GetFindsExactlyTheCurrent | src/hub/auth.py:91-97 | over every run, `get` finds a session exactly when it was issued under that name and is not revoked, evicted or expired |
| SessionLaws.CsrfHoldsExactlyForTheCurrent | src/hub/auth.py:111-120 | a CSRF token is accepted exactly when it is the current session's |
| SessionLaws.SizeIsBounded | src/hub/auth.py:71-75 | the registry never exceeds its bound and counts the current sessions |
| SessionLaws.EvictsTheOldestOnlyWhenFull | src/hub/auth.py:71-77 | issuing evicts only when as many sessions as the bound are current, and then one of least issue time, the first issued of those |
| SessionLaws.IssueAddsOneCurrentSession | src/hub/auth.py:71-89 | issuing adds one session under a fresh name and its TTL, keeping all others when there is room |
| SessionLaws.IssueGivesTheFirstFreeDraw | src/hub/auth.py:78-89 | a session is given whenever some draw is no current session's name, under the first draw that none remaining bears |
| SessionLaws.RevokeMeaning | src/hub/auth.py:99-103 | `revoke` answers whether a session of that name was stored, which every current one is and no revoked or evicted one; afterwards none of that name is stored or found and every other is |
| SessionLaws.RevokeAllMeaning | src/hub/auth.py:105-109 | `revoke_all` empties the registry and counts what was stored, which was every current session and only sessions never revoked nor evicted |
| SessionLaws.LazyRefinesEager | src/hub/auth.py:66-125 | over every run the lazy registry keeps what one that purges at once keeps |
| SessionLaws.CallRefines | src/hub/auth.py:66-125 | each call leaves the two registries in agreement and, unless it revokes, answers alike |
| SessionLaws.RevokeTellsThemApartExactlyWhenStale | src/hub/auth.py:99-103 | the answer of `revoke` differs exactly when the session named has expired and is still stored |
| SessionLaws.RevokeAllTellsThemApartExactlyWhenStale | src/hub/auth.py:105-109 | the count of `revoke_all` differs exactly when an expired session is still stored |
| SessionStores.SessionStore.PurgeLocked | src/hub/auth.py:66-69 | the purge loop keeps exactly the unexpired sessions, in order |
| SessionStores.SessionStore.Issue | src/hub/auth.py:71-89 | the section, in place on the dictionary, with its eviction and fresh-name loops, is the model's |
| SessionStores.SessionStore.Get | src/hub/auth.py:91-97 | without a name it finds nothing and leaves the store alone; otherwise the expired go and the answer is the model's |
| SessionStores.SessionStore.Revoke | src/hub/auth.py:99-103 | the named session goes, expired or not, and the answer says whether it was stored, whatever the time |
| SessionStores.SessionStore.CheckCsrf | src/hub/auth.py:111-120 | the answer and the store are the model's; an empty candidate does not even purge |

## Left out

- Connection quotas, keepalive frames, and a stream whose generator is never started: no effect on what a stream delivers.
- A resume header above the cutoff names an id the process has not issued yet; such a stream is taken to resume from the cutoff, as the code treats it.
- SHA-256, HMAC, random tokens and constant-time comparison: arbitrary functions and oracles; collision-freedom is assumed where stated.
- Odd spellings that `int()`, the base64 decoder or the JSON decoder accept beyond what the encoders write: arbitrary functions, over which the results are quantified.
- Case folding: an arbitrary function, of one character where it matters for keys and of a whole text elsewhere.
- Clocks are mathematical reals or integers and never go back; a session call that reads the clock before another thread takes the lock first is not modelled.
- Deep copies of idempotent results: results are values here.
- Waiting for the registry's lock: its sections hold no await, so it is free whenever it is asked for.
- HubLogs.HubState.HandleMsg: does not model presence, which a frame updates and may publish before the suppression test, nor payloads that are not bytes.
- HubLogs.HubState.RecordRaw: the text a payload is shown by is given, and times are not written out; what is published is a sequence of notices, not the bus of the other component.
- HubLogs.HubState.CompleteSend: does not model message fields other than subject and bytes.
- Replays.Replay: does not model the presence that the first pass records, nor times and the fields of the report derived from others.
- Messages of other senders in the interleaving model: only frames of the hub's own sends return there; `HubLogs.HubState.HandleMsg` covers any frame.
- Echo.ProjectedExactlyOnce: assumes each echo of a send not given up returns before `cap` later sends began, and that every send has wire bytes of its own, because a later echo is indistinguishable from a stranger's frame.
- RecoveryMeaning.CacheHoldsTheNewestAnswer: does not model that a forced load aborts the request it replaces; here that request may still be answered.
- Reconnecting to the broker.
- The digest that versions a snapshot, mission records beyond what the rules look at, and the wording of attention items.
- Text beyond Unicode scalar values: lone surrogates cannot be written here.
- Routing, middleware, static files, rendering and the service worker.
