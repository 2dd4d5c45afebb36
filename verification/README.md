# Verified model of Rhythm's stateful core

Rhythm monitors services: it runs checks on execution agents, receives alerts from OpenSearch,
asks an AI provider for help under a concurrency limit, and ships a test lab that exercises
authentication and rate limiting. This project models the parts of it that are state machines,
protocols, codecs and text transformations, and proves what holds of them over all inputs and
all runs. `dafny verify dfyconfig.toml` checks everything.

| file | models |
|---|---|
| `ExecutionAgents.dfy` | the agent allocator: register, heartbeat, status, greedy claim, release |
| `ConcurrencyGate.dfy` | the AI service's channel semaphore, step by step, for any number of callers |
| `Alerts.dfy`, `AlertLifecycle.dfy` | applying an upstream alert event, acknowledging, resolving, notifying; runs of these |
| `AlertStatements.dfy`, `AlertRaces.dfy` | the same calls one SQL statement at a time, with calls interleaved; what overlapping calls do |
| `AlertKeys.dfy`, `AlertEvidence.dfy`, `AlertRows.dfy` | what a deduplication key identifies; what of the evidence masking keeps; what a row tells of its events |
| `AlertIngest.dfy` | webhook deliveries: validation, deduplication by body, prefix processing |
| `AlertPaging.dfy` | keyset paging of the alert list |
| `Masking.dfy` | masking of retained evidence |
| `JsonStrings.dfy`, `TemplatedJson.dfy` | the string lexer against the JSON grammar; replacing `{{...}}` templates before JSON parsing, and mapping error offsets back |
| `Cursors.dfy`, `Base64.dfy`, `Numerals.dfy` | cursor tokens, the offset paginator, the codecs below them |
| `RateLimit.dfy` | the test lab's fixed-window rate limiter |
| `MacAuth.dfy` | the MAC header, its verification, and the nonce replay window |
| `LabIds.dfy` | deterministic identifiers |
| `Migrations.dfy` | the resumable migration runner |
| `Outcomes.dfy`, `Text.dfy`, `Orders.dfy` | shared result types, string operations, ordered listings |

## Conventions

- Code that updates state is a class whose methods are proved against functions on values; the
  properties of runs are then lemmas about those functions. Code with loops keeps its loops.
- A clock reading, a new identifier, a random choice or a fault is a parameter. Times are
  integers, nanoseconds where the source compares durations.
- A Go string is a sequence of bytes and each byte is a char of that code, except in `Masking.dfy`,
  where keys and paths are sequences of code points. JavaScript strings are sequences of
  characters; only ASCII characters matter to the code modelled here.
- SQL tables are maps and sets, one SQL statement or transaction is one step, and the database
  does not fail except where faults are the subject (`Migrations.dfy`).
- HMAC, SHA-256, JSON decoding and event normalisation are function parameters. Where a result
  needs the hash to be injective it says so.

## What the code does differently from what one might expect

Each of these is stated and proved in the model.

- The bound on MAC replays has to allow for the time a request spends between the validation of
  its timestamp and the check of its nonce, because the two read the clock separately. With that
  time the bound is exact (`MacAuth.ReplayBound`, `MacAuth.ReplaysPossibleIff`), so that enough
  delay admits any number of replays (`MacAuth.DelayedChecksAdmitMore`).
- The rate limiter reads the clock before it locks. A client is allowed at most nine requests in
  any ten seconds if the readings are in the order of the lock, and about four more for each ten
  seconds by which they may lag; the number for each lag is exact (`RateLimit.BoundPerInterval`, `RateLimit.BoundIsReached`).
  The five requests per window hold in any order (`RateLimit.AtMostFivePerWindow`).
- The lab's `itoa` prints nothing for a counter of 2^63 or more, so identifiers repeat from there
  on (`LabIds.IdentifiersEqualIff`).
- An upstream acknowledgement that arrives first makes an alert active without ALERT_OPENED
  (`AlertLifecycle.RecoveryWithoutOpening`). Deliveries are unique per alert, channel and kind,
  so an alert that has opened and recovered before delivers nothing in a later episode
  (`AlertLifecycle.LaterDeliverNothingIff`, `AlertLifecycle.SilentOnceBothDelivered`); one whose
  first episode was not announced does (`AlertLifecycle.UnannouncedThenAnnounced`).
- A deduplication key is shared by another alert of the receiver exactly when one of the four
  upstream identifiers in it contains a colon (`AlertKeys.KeyIsSharedIff`). Among alerts whose
  other identifiers contain none, colons in the alert identifier, where normalisation puts them,
  do no harm (`AlertKeys.KeyIdentifiesAlert`).
- An acknowledgement is lost exactly when an event update writes bad news after having read the
  alert before it was acknowledged (`AlertStatements.AcknowledgementLostIffStale`,
  `AlertStatements.AcknowledgementCanBeLost`).
- A manual resolution leaves a resolved alert that is active upstream exactly when the
  last event written between its check and its update says so (`AlertRaces.ResolutionOvertakenIff`,
  `AlertRaces.ResolutionCanBeOvertaken`).
- A deduplication key gets a second row exactly when an INSERT comes between the SELECT and the
  INSERT of another call and not both rows are open or acknowledged, which is all the unique
  index covers (`AlertRaces.SecondRowIff`, `AlertRaces.SecondRowIffRaced`,
  `AlertRaces.RacingInserts`).
- Template rewriting preserves JSON lexing exactly when every template text is neutral where it
  stands; templates without quotation marks and backslashes always are, and the template of a
  single quotation mark is not (`TemplatedJson.LexingPreservedIffNeutral`,
  `TemplatedJson.QuotationMarkBreaksLexing`).
- A list of strings in alert evidence is not cut to twenty entries as other lists are
  (`AlertEvidence.IdentifierListsStayWhole`, `AlertEvidence.TwentyOneEntries`).

## Model

| member | source | states |
|---|---|---|
| `ExecutionAgents.Matches` | services/api/internal/agents/service.go:257-283 | the loops decide eligibility, written out: active, fresh within 90 s, free slot, id, group, all tags in lower case, all capabilities offered |
| `ExecutionAgents.HealthyIffClaimable` | services/api/internal/agents/service.go:136-150 | an agent reads HEALTHY exactly when an unconstrained claim may take it, AT_CAPACITY exactly when only a slot is missing; when it reads REVOKED, OFFLINE and DRAINING |
| `ExecutionAgents.NormalizeTags` | services/api/internal/agents/service.go:151-163 | the stored tags are the trimmed, lowered, non-empty submitted ones, each once, sorted |
| `ExecutionAgents.TagsAreCanonical` | services/api/internal/agents/service.go:151-163 | submissions with the same normalised tags are stored identically whatever their order and repetitions |
| `Text.LowerIff` | services/api/internal/agents/service.go:267-270 | lowering identifies exactly the texts that differ in ASCII case |
| `Text.TrimSpaceIs` | services/api/internal/agents/service.go:151-163 | trimming removes all white space at both ends and nothing else |
| `ExecutionAgents.Service.Register` | services/api/internal/agents/service.go:82-103 | which inputs are refused and why, and the whole stored agent otherwise; keeps 0 <= active <= max <= 1000 |
| `ExecutionAgents.Service.Heartbeat` | services/api/internal/agents/service.go:104-115 | which refusal applies, in which order: capacity, active runs, unknown, revoked; otherwise the whole new agent |
| `ExecutionAgents.Service.SetStatus` | services/api/internal/agents/service.go:116-125 | the three statuses only; the revocation time is set by REVOKED and kept otherwise |
| `ExecutionAgents.Service.Claim` | services/api/internal/agents/service.go:223-244 | whatever the iteration order, grants a least loaded suitable agent with a free slot, or fails exactly when there is none |
| `ExecutionAgents.Service.Release` | services/api/internal/agents/service.go:245-256 | one run less, never below zero, nothing else but the update time |
| `ExecutionAgents.ReleaseUndoesClaim` | services/api/internal/agents/service.go:240-256 | a release after a claim restores the fleet up to update times and leaves the agent claimable |
| `ExecutionAgents.GreedyBalance` | services/api/internal/agents/service.go:223-244 | from idle agents, after any claims, each on the fleet as it finds it, no suitable agent is more than one run ahead of another in proportion to size, even when some are full |
| `ExecutionAgents.GrantsExactlyFreeSlots` | services/api/internal/agents/service.go:223-244 | consecutive claims succeed exactly as often as the suitable agents had free slots, then fail |
| `ConcurrencyGate.GateSafety` | services/api/internal/ai/service.go:770-795 | in every interleaving the channel holds one token per holder and undecided caller, and holders never exceed the limit |
| `ConcurrencyGate.AdmissionWithinOwnLimit` | services/api/internal/ai/service.go:779-783 | a caller is admitted exactly when holders and undecided callers together are within its own limit at that moment |
| `ConcurrencyGate.ReceiveNeverBlocks` | services/api/internal/ai/service.go:654-657 | the deferred release and the withdrawal always find a token |
| `ConcurrencyGate.FinishedCallersLeaveNothing` | services/api/internal/ai/service.go:784-793 | a cancelled or released caller can be forgotten: no token of it is left |
| `ConcurrencyGate.LoneCallerAdmittedIffRoom` | services/api/internal/ai/service.go:770-795 | with no other caller undecided, a caller is admitted exactly if a place is free |
| `ConcurrencyGate.EnabledIff` | services/api/internal/ai/service.go:778-793 | what a caller can do at each point of `acquire`, with a buffer of 32 |
| `ConcurrencyGate.RefusedAttemptLeavesNoTrace` | services/api/internal/ai/service.go:779-793 | push, length read, withdrawal and timer bring the whole gate back to where it was |
| `ConcurrencyGate.AdmittedAttemptGivesBack` | services/api/internal/ai/service.go:654-657 | from push to release one token is held and given back |
| `Alerts.Service.Apply` | services/api/internal/alerts/service.go:1036-1088 | inserts or updates the row of the deduplication key, records history with its evidence and requests notifications as specified, and changes nothing else |
| `Alerts.Service.Enqueue` | services/api/internal/alerts/service.go:1090-1110 | which transition requests an opening with a Sahara dispatch, which a recovery, and which nothing, written out |
| `Alerts.Service.AcknowledgeAlert` | services/api/internal/alerts/service.go:456-467 | only open or errored alerts; the whole new store |
| `Alerts.Service.ResolveAlert` | services/api/internal/alerts/service.go:469-487 | refused while active upstream, not found when absent or resolved; the whole new store |
| `AlertLifecycle.MapStateOf` | services/api/internal/alerts/service.go:1112-1123 | on the five upstream states the mapping is exactly the documented one, both ways |
| `AlertLifecycle.LifecycleInvariant` | services/api/internal/alerts/service.go:1036-1083 | over every run: OPEN implies upstream ACTIVE, ERROR implies ERROR, RESOLVED implies COMPLETED, DELETED or ERROR, and a resolution time exists exactly when resolved |
| `AlertLifecycle.AcknowledgementSticks` | services/api/internal/alerts/service.go:1076-1078 | ACKNOWLEDGED is left only for RESOLVED; a step never removes rows nor touches two |
| `AlertLifecycle.ManualResolutionIffErrored` | services/api/internal/alerts/service.go:469-487 | by hand an alert resolves exactly when it is unresolved and its monitor is in error |
| `AlertLifecycle.RepeatedEventIsQuiet` | services/api/internal/alerts/service.go:1052-1088 | the same event again requests nothing and keeps the state, and the whole table if it carries its time |
| `AlertLifecycle.HiddenEvidenceLeavesNoTrace` | services/api/internal/alerts/service.go:1045-1051 | events that differ only in masked values or dropped samples leave the same store |
| `AlertLifecycle.ViewFollowsStore` | services/api/internal/alerts/service.go:1036-1110 | each alert moves as the single-alert machine of the episode results, the requests are its notices with its identifier, and other alerts stay as they are |
| `AlertLifecycle.RequestsAreNotices` | services/api/internal/alerts/service.go:1036-1110 | over any run of the store the requests with an alert's identifier are exactly the notices of its own machine |
| `AlertLifecycle.DispatchedIffOpened` | services/api/internal/sahara/service.go:84-104 | over any run, Sahara has exactly the alerts with an ALERT_OPENED request |
| `AlertLifecycle.OpeningIff` | services/api/internal/alerts/service.go:1092-1104 | ALERT_OPENED comes exactly with bad news that changes an alert that is not acknowledged, between OPEN and ERROR too |
| `AlertLifecycle.StoredNoticesCounted` | services/api/internal/alerts/service.go:1090-1110 | over any run the openings and recoveries requested for an alert number exactly those changes and its completions |
| `AlertRows.RowTellsFirstAndLatest` | services/api/internal/alerts/service.go:1056-1079 | after any run an alert has a row exactly if it had an event, with the identity of its first event and the contents of its latest |
| `AlertRows.EventStep` | services/api/internal/alerts/service.go:1069-1087 | description, dates, acknowledgement and the history entry after one event |
| `AlertRows.SeverityIs` | services/api/internal/alerts/service.go:1124-1137 | which upstream severities give which |
| `AlertLifecycle.AnnouncedIffNeverAcknowledgedWhileInactive` | services/api/internal/alerts/service.go:1090-1110 | every episode starts with ALERT_OPENED exactly if no upstream acknowledgement arrives while the alert is absent or resolved |
| `AlertLifecycle.RecoveryEndsEpisode` | services/api/internal/alerts/service.go:1105-1106 | ALERT_RECOVERED comes exactly when an upstream completion ends an active episode |
| `AlertLifecycle.OpeningsCoverRecoveries` | services/api/internal/alerts/service.go:1090-1110 | with announced episodes, openings exceed recoveries by at least one while active |
| `AlertLifecycle.RecoveriesNeverExceedOpenings` | services/api/internal/alerts/service.go:1090-1110 | from a new alert on, at any point of the run |
| `AlertLifecycle.StoredRecoveriesNeverExceedOpenings` | services/api/internal/alerts/service.go:1036-1110 | the same for the requests in the store, after any run of operations on all alerts |
| `AlertLifecycle.RecoveryWithoutOpening` | services/api/internal/alerts/service.go:1090-1110 | the proviso is needed: acknowledged, then completed, recovers without opening |
| `AlertLifecycle.EachKindDeliveredOnce` | services/api/internal/notifications/service.go:140-143 | the conflict rule delivers each kind once per alert and channel, for ever |
| `AlertLifecycle.LaterDeliverNothingIff` | services/api/internal/notifications/service.go:140-143 | later requests deliver nothing exactly when all their kinds have been requested before |
| `AlertLifecycle.UnannouncedThenAnnounced` | services/api/internal/alerts/service.go:1090-1110 | acknowledged, completed, active: the recovery and the later opening are both delivered |
| `AlertKeys.KeyIsSharedIff` | services/api/internal/alerts/service.go:1044 | another name has the same key exactly when one of the four identifiers contains a colon |
| `AlertKeys.KeyIdentifiesAlert` | services/api/internal/alerts/service.go:1044 | without colons in monitor, trigger and bucket the key identifies receiver and alert, whatever the alert identifier |
| `AlertEvidence.IdentifierListsStayWhole` | services/api/internal/alerts/service.go:1045-1046 | findings and documents stay whole unless a rule of the application hides them; samples are masked and cut |
| `AlertEvidence.TwentyOneEntries` | services/api/internal/alerts/service.go:989-1034 | twenty-one findings stay, of twenty-one samples twenty |
| `AlertStatements.RowsHoldUnderInterleaving` | services/api/internal/alerts/service.go:1054-1079 | under any interleaving of single statements, inserts and stale reads included: a resolution time exists exactly when resolved, OPEN implies upstream ACTIVE, ERROR implies ERROR, ACKNOWLEDGED excludes completed, and no key has two open or acknowledged rows |
| `AlertStatements.AcknowledgementLostIffStale` | services/api/internal/alerts/service.go:1054-1079 | in any run an acknowledged row returns to OPEN or ERROR exactly when bad news is written by a call whose read came before the acknowledgement and found another state |
| `AlertStatements.AcknowledgementCanBeLost` | services/api/internal/alerts/service.go:1054-1079 | the losing run: read, acknowledge, write |
| `AlertStatements.AdjacentStatementsAreApplyEvent` | services/api/internal/alerts/service.go:1036-1083 | a read followed at once by its write is the atomic event application, if no key has two rows |
| `AlertStatements.AcknowledgeRowIsAcknowledge` | services/api/internal/alerts/service.go:456-467 | the statement of an acknowledgement is the atomic one, refusals included |
| `AlertStatements.CheckedResolveIsResolve` | services/api/internal/alerts/service.go:469-487 | the check passes exactly when a resolution is not refused, and followed at once by the UPDATE it is the atomic one |
| `AlertRaces.ResolutionOvertakenIff` | services/api/internal/alerts/service.go:469-487 | in any run a manual resolution resolves the row, and leaves an alert active upstream exactly when such an event updated it after the check, as the last before the UPDATE |
| `AlertRaces.StrandedWasOvertaken` | services/api/internal/alerts/service.go:469-487 | a resolved row that is active upstream has always come from such a resolution |
| `AlertRaces.ResolutionCanBeOvertaken` | services/api/internal/alerts/service.go:469-487 | such a run: check of an errored row, event writes ACTIVE, UPDATE resolves |
| `AlertRaces.SecondRowIff` | services/api/internal/alerts/service.go:1054-1069 | from one row per key, a statement makes a second row exactly when it inserts for a key that has a row by now, and not both are open or acknowledged |
| `AlertRaces.SecondRowIffRaced` | services/api/internal/alerts/service.go:1054-1069 | in any run, exactly when that row was inserted after the SELECT of the inserting call |
| `AlertRaces.RacingInserts` | services/api/db/migrations/000003_alerting.up.sql:31 | such runs from any table without the key, for any two events |
| `AlertRaces.OlderRowHearsNothing` | services/api/internal/alerts/service.go:1054 | of two rows with one key events update the newer only |
| `AlertIngest.ValidateEvent` | services/api/internal/alerts/service.go:944-962 | which of the three problems is reported, in which order |
| `AlertIngest.Inbox.Process` | services/api/internal/alerts/service.go:882-894 | applies exactly the longest prefix of valid events and reports the problem of the next |
| `AlertIngest.Inbox.Ingest` | services/api/internal/alerts/service.go:841-900 | the whole new state and the reply, for refused, malformed, duplicate, partly valid and valid deliveries; a duplicate gets its record if that is among the latest hundred |
| `AlertIngest.FirstOccurrencesCover` | services/api/internal/alerts/service.go:864-881 | the first occurrences have distinct bodies and cover every accepted body |
| `AlertIngest.ExactlyOncePerBody` | services/api/internal/alerts/service.go:841-900 | for any sequence of deliveries the alert store is the work of the first occurrence of each accepted body, each for its longest valid prefix; the record says PROCESSED exactly when that is all |
| `AlertIngest.DeliveryIsRun` | services/api/internal/alerts/service.go:882-892 | working on a delivery is a run of the alert state machine, event by event, never as reconciliation |
| `AlertIngest.RedeliveryChangesNothing` | services/api/internal/alerts/service.go:873-881 | an authorised body sent again has no effect, rejected ones included |
| `AlertPaging.PageAt` | services/api/internal/alerts/service.go:314-380 | a page holds the next rows of the ordered listing up to the limit and knows whether more are left |
| `AlertPaging.PageIs` | services/api/internal/alerts/service.go:314-380 | for any cursor: the newest of the rows left, by update time and identifier, under each filter, limits 50 and 200, whether more are left, the total |
| `AlertPaging.PagingIsComplete` | services/api/internal/alerts/service.go:314-380 | following last rows until no more yields every matching row once, newest first, and stops |
| `AlertPaging.ContinuesIffNonZeroTime` | services/api/internal/alerts/service.go:345-350 | a cursor continues after its row exactly if the row's update time is not zero; a zero time restarts; the total is always the full count |
| `Masking.MaskingIsExact` | services/api/internal/alerts/service.go:989-1034 | masked outputs are equal exactly when the inputs differ only under hidden keys or past the twentieth entry |
| `Masking.MaskingIsIdempotent` | services/api/internal/alerts/service.go:989-1034 | masking twice is masking once |
| `Masking.MaskingIsComplete` | services/api/internal/alerts/service.go:989-1034 | the fixed points are exactly the well-masked values; keys are kept, lists are at most twenty long, rows stay objects |
| `Masking.FieldIsMaskedIff` | services/api/internal/alerts/service.go:987-1010 | a field is replaced exactly when its dotted path contains one of the listed words in any case, or a rule is its path or key |
| `Masking.ListIsCut` | services/api/internal/alerts/service.go:1011-1030 | the first twenty entries stay, each masked |
| `JsonStrings.IsInsideJsonString` | apps/web/src/lib/templated-json.ts:19-33 | the loop computes the lexer state of the prefix |
| `JsonStrings.InStringIff` | apps/web/src/lib/templated-json.ts:19-33 | the lexer is inside a string exactly when the text so far ends inside a string literal of the JSON grammar, escapes included |
| `TemplatedJson.NextTemplateIsLeftmostShortest` | apps/web/src/lib/templated-json.ts:1 | the search is the regular expression's leftmost, shortest match |
| `TemplatedJson.RewriteJsonTemplates` | apps/web/src/lib/templated-json.ts:35-60 | the loop builds the specified text and spans |
| `TemplatedJson.LexingPreservedIffNeutral` | apps/web/src/lib/templated-json.ts:35-60 | string context agrees at every position outside templates exactly when every template text is neutral where it stands |
| `TemplatedJson.QuotationMarkBreaksLexing` | apps/web/src/lib/templated-json.ts:35-60 | the template `{{"}}` outside a string is not neutral and the contexts differ |
| `TemplatedJson.PlainTemplatesPreserveLexing` | apps/web/src/lib/templated-json.ts:35-60 | so it does whenever no template contains a quotation mark or backslash |
| `TemplatedJson.SpansAreOrdered` | apps/web/src/lib/templated-json.ts:50-56 | spans are in order, disjoint and inside both texts, with equal gaps |
| `TemplatedJson.SpansCoverPlaceholders` | apps/web/src/lib/templated-json.ts:46-56 | each span covers a template and the placeholder for it: the bare word inside a string literal, the quoted one elsewhere |
| `TemplatedJson.CharactersStay` | apps/web/src/lib/templated-json.ts:44-58 | outside templates every character stays, at its forward position |
| `TemplatedJson.RewrittenOffsetToOriginal` | apps/web/src/lib/templated-json.ts:62-76 | the loop is the recursive map |
| `TemplatedJson.ForwardThenBackward` | apps/web/src/lib/templated-json.ts:62-76 | mapping a position outside templates forward and back gives it again |
| `TemplatedJson.OffsetMapMonotone` | apps/web/src/lib/templated-json.ts:62-76 | the map back is monotone and stays in the source |
| `TemplatedJson.InsidePlaceholder` | apps/web/src/lib/templated-json.ts:69 | an offset inside a placeholder maps to the start of its template |
| `TemplatedJson.OffsetToLineColumn` | apps/web/src/lib/templated-json.ts:78-91 | clamps, then one more than the line breaks before and the characters since the last |
| `TemplatedJson.PositionIs` | apps/web/src/lib/templated-json.ts:80-90 | line breaks counted, and the distance from the last one, both from 1 |
| `TemplatedJson.PositionsIncrease` | apps/web/src/lib/templated-json.ts:78-91 | larger offsets get lexicographically larger positions |
| `Base64.DecodeOfEncode` | services/api/internal/api/pagination.go:46-54 | unpadded URL-safe base64 of RFC 4648 section 5 round-trips every byte string |
| `Base64.SameNumber` | services/api/internal/api/pagination.go:46-54 | bytes and sextets are the same number |
| `Base64.LineBreaksIgnored` | services/api/internal/api/pagination.go:49-54 | the decoder skips line breaks |
| `Numerals.ParsePrinted` | services/api/internal/api/pagination.go:47-62 | printed integers parse back exactly when they fit 64 bits |
| `Cursors.CursorRoundTrip` | services/api/internal/api/pagination.go:97-118 | a cursor decodes to its number exactly when that is a non-negative 64-bit integer, and is refused otherwise |
| `Cursors.AcceptedIff` | services/api/internal/api/pagination.go:49-67 | which cursors are accepted, and for which number |
| `Cursors.KindsDoNotMix` | services/api/internal/api/pagination.go:109-112 | a cursor of one kind is refused as another kind |
| `Cursors.PageContents` | services/api/internal/api/pagination.go:19-44 | a page holds the next items from its offset and its cursor leads to its end, strictly further |
| `Cursors.RefusedIff` | services/api/internal/api/pagination.go:19-36 | which requests are refused, first for the limit, then for the cursor; neither asked for returns the whole list |
| `Cursors.LimitIs` | services/api/internal/api/pagination.go:25-32 | the default, or a number from 1 to the maximum |
| `Cursors.TraversalIsComplete` | services/api/internal/api/pagination.go:19-44 | following cursors ends and yields the whole list in order |
| `RateLimit.Limiter.RateLimit` | test-lab/internal/lab/handlers.go:361-388 | the new record of the client, nobody else's, and the answer with its numbers |
| `RateLimit.BoundPerInterval` | test-lab/internal/lab/handlers.go:361-388 | how many requests of a client are allowed in any half-open ten seconds, as a function of the lag of the clock readings behind the lock order |
| `RateLimit.BoundIsReached` | test-lab/internal/lab/handlers.go:361-388 | that number is reached for every lag |
| `RateLimit.AtMostNinePerInterval` | test-lab/internal/lab/handlers.go:361-388 | at most nine for readings in lock order |
| `RateLimit.DelayedReadingsUnbounded` | test-lab/internal/lab/handlers.go:366-374 | without a bound on the lag, any number |
| `RateLimit.AtMostFivePerWindow` | test-lab/internal/lab/handlers.go:368-381 | at most five allowed requests per window, whatever the order of the readings |
| `RateLimit.RetryAfterSuffices` | test-lab/internal/lab/handlers.go:381-386 | a silent client is allowed after `Retry-After` seconds, and when one second less would do |
| `MacAuth.ParseMac` | test-lab/internal/lab/auth.go:112-123 | the loop collects the matches, later ones winning |
| `MacAuth.HeaderRoundTrip` | test-lab/internal/lab/auth.go:334-347 | parsing recovers the five printed fields exactly when key, timestamp and nonce contain no quotation mark |
| `MacAuth.HonestRequestPasses` | test-lab/internal/lab/auth.go:124-152 | a correctly signed request passes exactly when its timestamp is in the window and its nonce is 8 to 128 long |
| `MacAuth.PassesIffFieldsSigned` | test-lab/internal/lab/auth.go:124-152 | any header passes exactly when its fields are those the server would sign itself for this request, with an acceptable timestamp and nonce |
| `MacAuth.PassesIffSigned` | test-lab/internal/lab/auth.go:124-152 | with another identifier, body hash or MAC a header is refused |
| `MacAuth.SignatureBindsRequest` | test-lab/internal/lab/auth.go:136-143 | with an injective hash a header signed for one verb, resource, host, port and body passes for no other |
| `MacAuth.MatchHereIff` | test-lab/internal/lab/auth.go:112 | the pattern matches exactly a name of small letters with a quoted value |
| `MacAuth.TimestampWindow` | test-lab/internal/lab/auth.go:74-88 | the timestamp is valid exactly within the window on both sides, expired after it and in the future before it |
| `MacAuth.ReplayGuard.Admit` | test-lab/internal/lab/auth.go:153-166 | accepts and stores exactly when the nonce is new or older than the window |
| `MacAuth.AcceptancesAreSpaced` | test-lab/internal/lab/auth.go:153-166 | consecutive acceptances of a nonce with one timestamp are more than the replay window apart, among any other requests |
| `MacAuth.ReplayBound` | test-lab/internal/lab/auth.go:74-88 | in any run, n acceptances of one nonce and timestamp: n - 1 replay windows are less than two signature windows plus the longest delay of a check |
| `MacAuth.PromptChecksBoundReplays` | test-lab/internal/lab/auth.go:153-166 | without delay, at most two acceptances for equal windows and one for a double replay window |
| `MacAuth.ReplaysPossibleIff` | test-lab/internal/lab/auth.go:153-166 | n acceptances are possible exactly if n - 1 least gaps fit into two signature windows and the delay |
| `MacAuth.DelayedChecksAdmitMore` | test-lab/internal/lab/auth.go:153-166 | with enough delay, any number of acceptances for any window |
| `LabIds.PrintDecimal` | test-lab/internal/lab/state.go:79-93 | the digit loop and the in-place reversal print the decimal numeral, and nothing for a negative number |
| `LabIds.IdentifiersEqualIff` | test-lab/internal/lab/state.go:56-62 | identifiers are equal exactly for equal prefixes and equal counters, or two counters of at least 2^63 |
| `LabIds.IdentifiersNeverRepeat` | test-lab/internal/lab/state.go:43-78 | over any run of operations, resets included, with the counter below 2^63 |
| `LabIds.IdentifiersRepeatAtTheBound` | test-lab/internal/lab/state.go:56-62 | from 2^63 on they do repeat |
| `LabIds.State.Id` | test-lab/internal/lab/handlers.go:302-308 | advances the counter by one and prints it |
| `LabIds.State.RandomInt` | test-lab/internal/lab/state.go:67-78 | advances the same counter unless the bound is not positive; the number is in range |
| `LabIds.State.Reset` | test-lab/internal/lab/state.go:43-55 | clears all records and leaves the counter alone |
| `Migrations.Database.ApplyPending` | services/api/db/migrations/migrations.go:88-116 | the loop, with a fault possible at each file, leaves the specified store |
| `Migrations.RunAppends` | services/api/db/migrations/migrations.go:88-116 | a run appends only unrecorded names in order, and a run that returns nil leaves none unrecorded |
| `Migrations.RunIs` | services/api/db/migrations/migrations.go:88-116 | exactly the files reached are recorded and executed, and the result is nil exactly when nothing interrupts |
| `Migrations.ExactlyOnce` | services/api/db/migrations/migrations.go:76-115 | over any runs with any faults and file sets no script is committed twice and the table lists exactly the committed ones |
| `Migrations.HistoryIsPrefix` | services/api/db/migrations/migrations.go:86-115 | while the files stay the same, the history is always a prefix of the sorted names |
| `Migrations.CompleteAfterSuccess` | services/api/db/migrations/migrations.go:88-116 | after a run that returns nil the history is the whole list, whatever interruptions came before |

## Left out

- SQL text, connection handling, HTTP, JSON parsing and printing, HTML unescaping: inputs and outputs of the modelled code.
- `PostgresRepository` of the agents: its claim differs from the in-memory one at an age of exactly 90 seconds and skips locked rows.
- ExecutionAgents.NormalizeTags: trimming and lower-casing are those of ASCII; the source's are those of Unicode.
- The AI provider circuit breaker, the tool-round loop, budgets and text sanitising.
- Liveness of `acquire`: two undecided callers can both withdraw again and again, so only safety is claimed.
- ConcurrencyGate.GateSafety: the callers are phases of a step machine on values, not a class; the 25 ms timer is a step that may happen at any time.
- Alerts.Service.Apply: rows are found by deduplication key, which identifies a row as long as events are applied one at a time; the investigation queue drops alerts without a Rhythm monitor, as these are, and is not modelled.
- AlertStatements.RowsHoldUnderInterleaving: history and notifications are not among the statements.
- AlertIngest.Inbox.Ingest: token comparison is a given answer, the body hash is injective where exactly-once is claimed; records are listed in the order of receipt, without ties of the clock.
- Reconciliation against the Alerting API, service assignment of alerts, receiver administration, retention of samples.
- AlertPaging.PagingIsComplete: the table does not change between pages; the RFC 3339 form of the time cursor is not modelled.
- Masking: `strings.EqualFold` is a parameter; the key pattern is written out with the two non-ASCII letters that fold to ASCII ones.
- TemplatedJson: finding the offset in the parser's message, and the parser itself.
- Cursors.PageContents: `limit` and `cursor` are taken after trimming.
- MacAuth.HonestRequestPasses: URL splitting into resource, host and port is done by the same code on both sides and is an input; the other authentication schemes are not modelled.
- Nondeterministic identifiers of the test lab; workflows, chains, retries and chaos handlers.
- Selecting and sorting the names of the embedded migration files: the runs are given sorted names.
- Moving an old installation's objects into the schema, and the advisory lock that keeps migration runs apart.
