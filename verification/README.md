# EggReplay verification

A Dafny model of the parts of EggReplay whose behaviour depends on interacting state, branching or arithmetic, with
proofs of what they guarantee on every input, every run or every interleaving. `dafny verify dfyconfig.toml` checks it.

| area | files | what is modelled |
|---|---|---|
| WebSocket | `WebSocketTranscript`, `WebSocketRelay`, `RelayTheorems`, `TranscriptTheorems` | the transcript validator; the two-peer relay loop as a class whose methods change its flags, ping lists and transcript; which relay runs are accepted, what their transcripts say and what redaction keeps out of them |
| Completion | `Completion` | the mutex and condition variable protocol of a conversation's completion, as interleaved steps |
| Stream timelines | `StreamTimeline`, `Reconciliation`, `StreamRecorder`, `RequestTee`, `Cadence` | the timeline validator, the capped list, the three frame loops, the rewrite after redaction, the cadence comparison |
| Matching | `Ordering`, `TextParsing`, `Json`, `JsonTheorems`, `Wildcard`, `Absorption`, `Tracking`, `Redaction`, `RedactionTheorems`, `Matching`, `MatchingTheorems`, `RedactedFixture` | redaction and what it hides, JSON pointers and their removal, the lazy matcher and its consumption session |
| Scenarios | `Template`, `Scenario`, `ScenarioTheorems`, `ExtractionTheorems`, `RenderingTheorems`, `StepTheorems` | rule validation, the transactional state machine, variables, responses, the template language |
| Command line | `FixtureReplacement`, `ReplacementTheorems`, `CrashSafety`, `Scheduler`, `Base64`, `Base64Decoding` | fixture replacement with crashes, the concurrent scheduler, the base64 preview |
| Parsers | `Sse`, `SseTheorems`, `SseRoundTrip`, `GrpcFraming`, `GrpcTheorems` | Server-Sent Events and gRPC framing |

## Conventions

- Text is held in its encoded form, one `char` for each byte (`Bytes` in `Prelude`), so lengths are byte counts as in
  the source. Binary data is `seq<Octet>`.
- Saturating 64-bit arithmetic is written out (`SatAdd`, `SatSub`, `AbsDiff`).
- What the code cannot decide for itself is a parameter: what the WebSocket codec delivers and which `select!` branch
  fires, clock readings, the fate of each filesystem step, which task finishes next, the SHA-256 digest, JSON decoding
  and encoding, the verdict of UTF-8 validation, the form-body heuristic. A theorem that needs a property of one of
  these, such as a collision-free digest, requires it by name (`CollisionFree`, `Faithful`, `CodecLegal`).
- A loop of the source is a method with a loop. Its contract ties the result to a specification that does not repeat
  the loop: a predicate on the input (`Accepted`, `ValidFlow`), a function of the history (`Recorded`, `Forwarded`,
  `Outstanding`) or a reference definition (`EventOf` on blocks of lines, `Encoded` on bit strings, `Prune` on sets of
  paths). Theorems are lemmas about those specifications.
- A specification that is itself recursive is pinned down by a law that does not use it: what a filter keeps is said by
  the ascending list of the places kept (`Listing.Lists`), what a chain of updates does by the sequence of states it
  goes through (`Trace`, `Replacing`), what redaction hides by which inputs it no longer tells apart.
- The relay reads its clock once for each message; the source reads it twice in a row, for the duration limit and for
  the recorded delta.

## Promises that do not hold as stated

For each, the exact condition under which the code keeps the promise, and a concrete input where it does not.

- Not every relay run passes the transcript validator: a JSON-redacted text message may exceed the validator's bounds on
  pointers or payload. `RelayTheorems.RelayRunAccepted` gives the condition; `RelayTheorems.RootPointerRefused` is a run
  that fails it.
- Rewriting a timeline to a new body length does not always keep it valid: without a Data event to replace, new data
  lands after the trailers or the terminal. `Reconciliation.ReconciledValidIff`; `Reconciliation.EndOnlyMisplaced`. The
  recorder never gets there: a body without bytes is stored empty, which `RequestTee.RecordFlow` uses.
- A redacted JSON pointer is not always a wildcard: the last token of a pointer is not unescaped, the root pointer is
  never removed, and removing an array element moves the later ones.
  - `Tracking.RemovalHidesRedactionIff`: for every document and any lists of pointers, following each redacted value
    through the shifts of array elements.
  - `Absorption.RemovalAbsorbsRedactionIff` and `Absorption.PolicyAbsorbedIff`: in simpler terms, where no removed path
    ends at an array element, for one document and for all of them. `Absorption.PointerAbsorbedIff`: for one pointer.
  - Failing inputs: `Absorption.ArraysBreakAbsorption`, `Absorption.EscapesBreakAbsorption`,
    `Absorption.RootBreaksAbsorption`.
- Recovery does not always restore the latest fixture: backups are tried in reverse order of their names as strings.
  `CrashSafety.RecoversLatestIff`; `CrashSafety.StaleBackupWins`.
- Long responses do not always record: `StreamRecorder.RecordResponse` states exactly which do;
  `StreamRecorder.LongBodyNotRecorded` is the shortest body of one-byte frames that does not.
- A skipped scenario transition is not always treated as not matching: `ScenarioTheorems.SkipAsDocumentedIff`;
  `ScenarioTheorems.SkipStopsTheSearch`.

Where the code and its own comments disagree, the model follows the code:

- The comment on exhausted results says that their near misses include consumed exact candidates
  (crates/eggreplay-core/src/matching.rs:187-191); the code lists mismatches only (377-391).
- The comment on `Skip` says that the request is treated as not matching (crates/eggreplay-core/src/scenario.rs:68);
  the code returns without trying a later transition (413). `ScenarioTheorems.SkipAsDocumentedIff` says when this shows.
- The comment on comparing wildcarded bodies allows exact bytes when either side is not JSON and no path is redacted
  (crates/eggreplay-core/src/matching.rs:565-567); the code never falls back (574-581).
- The relay can end with the causes `storage-error` and `capture-limit`, which the validator's list
  (crates/eggreplay-core/src/websocket.rs:324-338) does not contain.

## Model

| member | source | states |
|---|---|---|
| WebSocketTranscript.ValidateTranscript | crates/eggreplay-core/src/websocket.rs:180-344 | at the default limits, which every caller passes, accepts exactly the transcripts that satisfy the declarative condition `TranscriptAccepted`: schema, handshake metadata, distinct names, session-wide message and payload totals, and every conversation accepted |
| WebSocketTranscript.ValidateConversation | crates/eggreplay-core/src/websocket.rs:192-342 | one conversation within what earlier ones left of the payload budget |
| WebSocketTranscript.Validate | crates/eggreplay-core/src/websocket.rs:230-342 | the message loop and the terminal check accept exactly the conversations that satisfy `Accepted`, within that budget: contiguous sequence numbers, monotone bounded times, size and close rules, nothing after a close in its direction, a terminal that agrees with the last close |
| WebSocketTranscript.ValidateMessages | crates/eggreplay-core/src/websocket.rs:230-300 | the running totals and the set of closed directions decide the condition on all messages, and the set returned holds exactly the directions that closed |
| WebSocketTranscript.ValidateTerminal | crates/eggreplay-core/src/websocket.rs:301-341 | a clean terminal needs a close from both sides and the metadata of the last message; an abnormal one a cause of the vocabulary |
| WebSocketTranscript.ValidateRedactions | crates/eggreplay-core/src/websocket.rs:348-372 | accepts exactly the markers that fit the message kind and the pointer bounds |
| WebSocketRelay.Relay.Screen | crates/eggreplay-http/src/recording.rs:1635-1662 | a pong is suppressed exactly when it answers an outstanding ping of the other side, and both ping lists stay equal, as multisets, to the pings outstanding in the history |
| WebSocketRelay.Relay.Record | crates/eggreplay-http/src/recording.rs:1689-1731 | stores and appends one transcript entry, or ends the relay with `storage-error` or `capture-limit` and leaves the transcript alone |
| WebSocketRelay.Relay.HandleClose | crates/eggreplay-http/src/recording.rs:1732-1757 | only the first close overall is forwarded; the second side's close ends the relay cleanly with its code and reason |
| WebSocketRelay.Relay.Step | crates/eggreplay-http/src/recording.rs:1575-1770 | one turn of the loop ends the relay exactly as the history says (`Exit`) or restores the loop-head invariant with the delivery appended to the history |
| WebSocketRelay.RelayWebSocket | crates/eggreplay-http/src/recording.rs:1550-1773 | for every delivery sequence the relay stops at the first delivery that ends it, with the terminal, transcript and forwarded messages the history determines |
| RelayTheorems.NeverBothClosedAtLoopHead | crates/eggreplay-http/src/recording.rs:1590-1615 | at every loop head the close flags are not both set, so the clean exit without close data is unreachable |
| RelayTheorems.ClosesForwarded | crates/eggreplay-http/src/recording.rs:1732-1757 | over any history exactly one close is forwarded, in one direction, once any close was seen, and none before |
| RelayTheorems.DataForwardedInOrder | crates/eggreplay-http/src/recording.rs:1758-1769 | text, binary and ping messages all reach the other peer unchanged and in order |
| RelayTheorems.PingConservation | crates/eggreplay-http/src/recording.rs:1635-1662 | each side's pings are, as a multiset, its outstanding pings and the pongs of the other side that were suppressed |
| RelayTheorems.PongConservation | crates/eggreplay-http/src/recording.rs:1643-1660 | each side's pongs are, as a multiset, those forwarded and those suppressed |
| RelayTheorems.MessagesAcceptedIffFit | crates/eggreplay-core/src/websocket.rs:230-300 | the transcript of any legal history passes the message checks exactly when every JSON redaction fits the validator's bounds |
| RelayTheorems.RelayRunAccepted | crates/eggreplay-http/src/recording.rs:1550-1773 | every run against a legal codec leaves an accepted conversation if and only if it did not end in `storage-error` or `capture-limit` and every JSON-redacted message fits |
| RelayTheorems.RootPointerRefused | crates/eggreplay-http/src/recording.rs:1670-1678 | a run with a root redaction pointer whose transcript is refused |
| RelayTheorems.SendableCodesValid | crates/eggreplay-core/src/websocket.rs:374-376 | the validator knows exactly the close codes that section 7.4 of RFC 6455 lets an endpoint send |
| TranscriptTheorems.EntriesAreMessages | crates/eggreplay-http/src/recording.rs:1664-1731 | over any history the transcript's entries are the observed messages, one for each and in order, with their side, time and kind; an entry whose message the policy leaves alone holds the very bytes, code and reason received and no marker, any other the mask and the marker that names it |
| TranscriptTheorems.TranscribedEqualIff | crates/eggreplay-http/src/recording.rs:1664-1731 | two messages leave the same entry if and only if side and time are the same and they are equal or the policy masks their difference |
| TranscriptTheorems.MaskedContentInvisible | crates/eggreplay-http/src/recording.rs:1550-1773 | two runs that differ only in contents the policy masks stop at the same delivery with the same terminal and the same transcript |
| TranscriptTheorems.CauseTellsWhy | crates/eggreplay-http/src/recording.rs:1550-1773 | each cause of an abnormal terminal is read back to what happened |
| TranscriptTheorems.GoesOnIff | crates/eggreplay-http/src/recording.rs:1575-1770 | exactly which deliveries the relay goes on after |
| TranscriptTheorems.OverLimitIff | crates/eggreplay-http/src/recording.rs:1711-1720 | the capture limit is hit exactly by the first message with which the transcript would exceed the validator's bounds |
| TranscriptTheorems.MessagesAcceptedIff | crates/eggreplay-core/src/websocket.rs:230-300 | the running checks of the message loop are conditions on all pairs of messages: time never goes back, and a close is the last of its direction |
| TranscriptTheorems.WellFormedIff | crates/eggreplay-core/src/websocket.rs:252-299 | what each kind of message may hold, with its numbers spelled out |
| TranscriptTheorems.CleanIsHandshake | crates/eggreplay-core/src/websocket.rs:301-323 | an accepted clean end is a whole closing handshake: two closes, one from each side, the second the last message, whose code and reason the terminal repeats |
| TranscriptTheorems.TranscriptAcceptedIff | crates/eggreplay-core/src/websocket.rs:180-344 | the validator's conditions as conditions on pairs of conversations, with the numbers spelled out |
| TranscriptTheorems.OrdinaryRunAccepted | crates/eggreplay-http/src/recording.rs:1550-1773 | a message, a close and its answer make a legal run that ends cleanly and is accepted |
| Completion.InvRun | crates/eggreplay-http/src/recording.rs:1386-1522 | every state reachable by any interleaving of completer, waiter and clock satisfies the invariant |
| Completion.WaiterReturnsOnlyAfterSignal | crates/eggreplay-http/src/recording.rs:1411-1478 | a waiter returns normally only after the completer's store, and `Err(elapsed)` only with `elapsed` at least the deadline, even if the condition variable times out early; without a deadline it never times out |
| Completion.SignalPassedThroughStore | crates/eggreplay-http/src/recording.rs:1498-1521 | the flag is set only by the completer's store under the mutex, by `complete` or by drop |
| Completion.NoLostWakeup | crates/eggreplay-http/src/recording.rs:1498-1521 | once the signal is fully delivered no reachable state has the waiter still parked |
| Completion.SignalledWaiterProgresses | crates/eggreplay-http/src/recording.rs:1411-1478 | after the signal each waiter step strictly shortens its way to a normal return and no other step lengthens it |
| Completion.NeverStuck | crates/eggreplay-http/src/recording.rs:1386-1522 | in every reachable state before both threads finish, one of them can move |
| Completion.LateWaiterReturnsInFour | crates/eggreplay-http/src/recording.rs:1424-1478 | in every run a waiter whose deadline has passed takes at most four more steps and then has returned |
| Completion.LateWaiterReturns | crates/eggreplay-http/src/recording.rs:1431-1438 | a check at or after the deadline returns then and there: `Ok` if the flag is set, and otherwise the time that has really passed |
| Completion.SignalledWaiterReturnsInThree | crates/eggreplay-http/src/recording.rs:1411-1478 | in every run a signalled waiter takes at most three more steps and then has returned |
| Completion.CompleterProgresses | crates/eggreplay-http/src/recording.rs:1498-1521 | every completer step brings it strictly closer to its end, and at its end the flag is set |
| StreamTimeline.ValidateDirection | crates/eggreplay-core/src/stream.rs:152-198 | accepts exactly the event lists in order (monotone, contiguous offsets, trailers after data, nothing after the terminal) whose events are within bounds |
| StreamTimeline.ValidateFlow | crates/eggreplay-core/src/stream.rs:140-199 | both directions valid and at most 4096 events together |
| StreamTimeline.Push | crates/eggreplay-http/src/recording.rs:2385-2412 | appends below the cap, absorbs contiguous data at the cap, refuses anything else and then leaves the list alone |
| StreamTimeline.PushKeepsOrder | crates/eggreplay-http/src/recording.rs:2385-2412 | pushing an event that continues the list keeps it in order and moves its end by the event's length; data is never refused |
| StreamTimeline.PushKeepsEvents | crates/eggreplay-http/src/recording.rs:2385-2412 | a push keeps all events but the last; on a full list the last keeps its time and first byte and reaches to the end of the new data |
| Reconciliation.Reconcile | crates/eggreplay-http/src/recording.rs:2422-2462 | the in-place rewrite equals `Reconciled`, and a failed flow is left alone |
| Reconciliation.ReconciledTotal | crates/eggreplay-http/src/recording.rs:2422-2462 | afterwards the data lengths sum to the stored body length |
| Reconciliation.ReconciledIdempotent | crates/eggreplay-http/src/recording.rs:2422-2462 | rewriting twice is rewriting once |
| Reconciliation.ReconciledErrorOffset | crates/eggreplay-http/src/recording.rs:2457-2461 | when the length changed every error reports the new length |
| Reconciliation.RewriteKeepsOthers | crates/eggreplay-http/src/recording.rs:2422-2462 | a rewrite keeps every event that is not data, in order and unchanged but for the offset of an error, and puts one data event of the new length, at the time of the first data before, in the place of all data |
| Reconciliation.DataTotalIsEnd | crates/eggreplay-http/src/recording.rs:2428-2441 | in a list in order the data lengths add up to the end of the data |
| Reconciliation.TerminalIsLast | crates/eggreplay-core/src/stream.rs:152-198 | a list in order has nothing after its terminal, and an error there reports all the data there was |
| Reconciliation.ReconciledValidIff | crates/eggreplay-http/src/recording.rs:2422-2462 | a valid timeline stays valid if and only if the length is unchanged, the new length is 0, there was data to replace, or the list was empty |
| Reconciliation.MisplacedData | crates/eggreplay-http/src/recording.rs:2444-2456 | without data to replace, a rewrite to a positive length is never valid |
| Reconciliation.EndOnlyMisplaced | crates/eggreplay-http/src/recording.rs:2444-2456 | a valid timeline of one end event that a rewrite to one byte makes invalid |
| Reconciliation.ReconciledNotLonger | crates/eggreplay-http/src/recording.rs:2422-2462 | a rewrite that has data to replace never lengthens the list, so the flow stays within its event bound |
| StreamRecorder.EventCount | crates/eggreplay-http/src/recording.rs:470-537 | a body has one event for each non-empty data frame and each trailers frame, and one for its end |
| StreamRecorder.EventsMirrorFrames | crates/eggreplay-http/src/recording.rs:470-537 | the events of a body are those of its non-empty data frames and its trailers, one for each and in order, each with the frame's time, byte range and fields |
| StreamRecorder.EndingMirrored | crates/eggreplay-http/src/recording.rs:470-537 | the last event says when and how the body ended, an error at the byte it had got to |
| StreamRecorder.EventsValidIff | crates/eggreplay-core/src/stream.rs:152-198 | the events of any HTTP body on a monotone clock are in order and end at its length, so they are valid exactly when each is within the validator's own bounds |
| StreamRecorder.RecordResponse | crates/eggreplay-http/src/recording.rs:466-537 | recording succeeds if and only if the body's events fit 2048 and its bytes the blob bound, and then lists the body verbatim; always the list tiles the bytes written |
| StreamRecorder.LongBodyNotRecorded | crates/eggreplay-http/src/recording.rs:466-537 | 2047 one-byte frames and the end fill the list, one more frame is one event too many |
| StreamRecorder.PushCandidate | crates/eggreplay-http/src/regression.rs:731-764 | like the recorder's push, but events later than 60 s are refused |
| StreamRecorder.ObserveCandidate | crates/eggreplay-http/src/regression.rs:524-650 | the candidate loop succeeds if and only if the events fit, all are timely and the bytes fit, and then lists what the recorder would |
| RequestTee.TeeStream.PollNext | crates/eggreplay-http/src/recording.rs:2155-2279 | each poll keeps the list in order and tiling the staged bytes, and the trailers collected those of the staged frames; a terminal on a full list is dropped silently, trailers on a full list end the stream with an error, data the sink refuses is not listed |
| RequestTee.TeePolls | crates/eggreplay-http/src/recording.rs:2155-2279 | however a request is polled, with refused writes and given up at any point, its list is in order and within 2048 events, and valid when what was polled is within the validator's bounds; until the stream is over the consumer sees every answer of the inner body unchanged and in order, except data the sink refuses |
| RequestTee.TrailersOfHttp | crates/eggreplay-http/src/recording.rs:2255-2257 | the trailers collected are the fields of the body's one trailers frame, whether or not the full list refuses its event |
| RequestTee.TeeRequest | crates/eggreplay-http/src/recording.rs:2155-2279 | a drained request's list is the body's own timeline when that fits, and within bounds when the body's is |
| RequestTee.RecordFlow | crates/eggreplay-http/src/recording.rs:406-651 | a flow that records, however its request was polled, passes the validator with both directions, and its response data lengths sum to the stored length after the rewrite |
| Cadence.CompareStreamEvents | crates/eggreplay-core/src/report.rs:440-485 | the findings are exactly the differences, one if the shapes differ and one for each gap off by more than the tolerance, in the order of their field names; none if and only if the timelines agree |
| Cadence.DriftBound | crates/eggreplay-core/src/report.rs:461-482 | without findings at tolerance t, event i of monotone timelines differs by at most (i + 1) t in absolute time |
| Cadence.DriftBoundSharp | crates/eggreplay-core/src/report.rs:461-482 | for every length, period and tolerance there are data timelines, valid ones where they fit the validator's limits, that reach that bound without a finding |
| Cadence.CleanComposes | crates/eggreplay-core/src/report.rs:440-485 | no findings from a to b and from b to c give none from a to c at the sum of the tolerances |
| Cadence.SameEventIsKernel | crates/eggreplay-core/src/report.rs:487-528 | event-shape equality is equality after forgetting trailer values and the case of names, hence an equivalence relation |
| Json.TargetOfDeleted | crates/eggreplay-core/src/matching.rs:672-695 | the path a pointer redacts and the path it removes differ exactly in the escapes of the last token |
| Json.RemoveIsDelete | crates/eggreplay-core/src/matching.rs:672-695 | removal deletes that path; the root and malformed pointers remove nothing |
| Wildcard.DeleteIsPrune | crates/eggreplay-core/src/matching.rs:672-695 | deleting a path that does not end at an array element is pruning it, through objects and arrays |
| Wildcard.ViewOfPruned | crates/eggreplay-core/src/matching.rs:568-589 | pruning hides what is at or below a pruned path, and nothing else |
| Absorption.RemoveAllIsPrune | crates/eggreplay-core/src/matching.rs:582-588 | removing pointers one by one, in any order and with any overlap, is pruning their set of paths at once |
| Absorption.RemovalAbsorbsRedactionIff | crates/eggreplay-core/src/security.rs:147-163 | in a document where no removed path ends at an array element, removing paths hides a redaction if and only if every redacted target is at or below a removed path, is absent, or holds the marker already |
| Absorption.PolicyAbsorbedIff | crates/eggreplay-core/src/security.rs:147-163 | a policy is hidden in all such documents if and only if each of its well-formed pointers redacts something at or below a removed path |
| Absorption.RemovedPolicyInvisible | crates/eggreplay-core/src/matching.rs:413-448 | removing what is redacted, and more, covers it in every document when the last tokens hold no escapes and no pointer is the root |
| Absorption.PointerAbsorbedIff | crates/eggreplay-core/src/matching.rs:672-695 | one pointer is hidden by its own removal in every document, arrays included, if and only if it is not the root and its last token unescapes to itself |
| Tracking.DeleteMovesSet | crates/eggreplay-core/src/matching.rs:672-695 | deleting a path moves any value, or takes it away, exactly as computed from the document, and takes a marker put in its place along |
| Tracking.RemovalHidesRedactionIff | crates/eggreplay-core/src/matching.rs:568-589 | for every document and any lists of pointers to redact and remove, the removal hides the redaction if and only if each redacted target is absent, holds the marker already, or is removed in the end, followed through array shifts |
| Wildcard.PrunedEqualIffAgree | crates/eggreplay-core/src/matching.rs:568-589 | documents are equal after pruning if and only if they look the same at every path outside the pruned ones |
| Absorption.RedactedMatchesIffAgree | crates/eggreplay-core/src/matching.rs:413-448 | a redacted recording equals an actual document after the removal if and only if original and actual agree outside the removed paths |
| Absorption.ArraysBreakAbsorption | crates/eggreplay-core/src/matching.rs:686-691 | redacting and removing the first two elements of an array leaves a marker visible |
| Absorption.EscapesBreakAbsorption | crates/eggreplay-core/src/matching.rs:676-694 | an escaped pointer is redacted but not removed |
| Absorption.RootBreaksAbsorption | crates/eggreplay-core/src/matching.rs:672-675 | the root pointer is redacted but never removed |
| Redaction.RedactFlow | crates/eggreplay-core/src/security.rs:72-120 | in all four header lists and the query every value under a configured name is `<redacted>` afterwards; names, order, every other value and every other field are as before; the markers are appended |
| RedactionTheorems.RedactionHidesExactly | crates/eggreplay-core/src/security.rs:72-120 | two flows are published alike if and only if they differ at most in values under configured names |
| RedactionTheorems.HeaderMarkersInOrder | crates/eggreplay-core/src/security.rs:267-281 | the markers of a header list are those of exactly its configured entries, in order, each with prefix, name and profile |
| RedactionTheorems.QueryMarkersInOrder | crates/eggreplay-core/src/security.rs:105-118 | the same for the query |
| Redaction.ApplyJsonRedaction | crates/eggreplay-core/src/security.rs:147-163 | overwrites the targets of all paths in ascending order, and fails on malformed JSON |
| Redaction.PushBodyMarkers | crates/eggreplay-core/src/security.rs:123-140 | appends one marker for each JSON path, in ascending order, under the prefix of the request or response body and the given profile |
| Ordering.AscendingUnique | crates/eggreplay-core/src/security.rs:147-163 | the ascending listing in which a set of paths is visited is the only one |
| Matching.NormalizeHeaders | crates/eggreplay-core/src/matching.rs:523-538 | a name is a key if and only if it is the lower-case name of some header and not ignored, and its group is that header's values |
| Matching.ValuesInOrder | crates/eggreplay-core/src/matching.rs:523-538 | a header's values are those of exactly the entries with its lower-case name, in the order of the entries |
| Matching.GroupsEqualIff | crates/eggreplay-core/src/matching.rs:334-355 | normalized headers are equal if and only if every header that is not ignored has the same values in the same order |
| Matching.PairsKept | crates/eggreplay-core/src/matching.rs:661-669 | the query pairs compared are exactly those whose key is not redacted, in order |
| Matching.DifferencesTell | crates/eggreplay-core/src/matching.rs:330-359 | each dimension is reported if and only if the request differs in it, and once; case of scheme, authority and header names and an empty path do not count |
| Prelude.LowerEqualIff | crates/eggreplay-core/src/matching.rs:523-527 | lower-casing forgets the case of ASCII letters and nothing else |
| Matching.MatcherSession.Consume | crates/eggreplay-core/src/matching.rs:513-520 | what each consumption mode remembers of a match |
| Matching.Evaluate | crates/eggreplay-core/src/matching.rs:330-381 | the mismatch of one candidate, with the loader called exactly when its bytes are needed and everything else agrees |
| Matching.SelectWithLoader | crates/eggreplay-core/src/matching.rs:312-398 | the first matching available candidate, or exhausted, or no match, with the near misses and loader calls that follow from the mismatches of all candidates |
| Matching.LoadListSound | crates/eggreplay-core/src/matching.rs:401-488 | a loader call is only made for a scanned candidate whose other dimensions agree |
| Matching.LoadListComplete | crates/eggreplay-core/src/matching.rs:401-488 | every scanned candidate that needs its bytes is loaded |
| Matching.LoadListIncreasing | crates/eggreplay-core/src/matching.rs:329-370 | loader calls are in increasing order, so none is made twice for one candidate |
| Matching.SortNearSorted | crates/eggreplay-core/src/matching.rs:392-397 | near misses are reported by cost and index, none lost or added by the sort |
| MatchingTheorems.SelectAll | crates/eggreplay-core/src/matching.rs:312-398 | one session serving any list of requests makes a run in the sense of the following theorems |
| MatchingTheorems.ConsumedIsPastMatches | crates/eggreplay-core/src/matching.rs:498-520 | over any run the consumed set is the set of past matches |
| MatchingTheorems.OnceNeverRepeats | crates/eggreplay-core/src/matching.rs:503-520 | in `Once` mode no candidate is matched twice in a run |
| MatchingTheorems.ExhaustedIffAllMatchedBefore | crates/eggreplay-core/src/matching.rs:371-397 | in `Once` mode a selection is exhausted if and only if some candidate matches and all that do were matched before |
| MatchingTheorems.LastIsStable | crates/eggreplay-core/src/matching.rs:503-520 | in `RepeatLast` mode the remembered candidate never changes once set |
| MatchingTheorems.RepeatLastIsOneCandidate | crates/eggreplay-core/src/matching.rs:503-520 | in `RepeatLast` mode all matches of a run are the same candidate |
| MatchingTheorems.UnlimitedIsStateless | crates/eggreplay-core/src/matching.rs:503-520 | in `Unlimited` mode the session never changes, nothing is exhausted, and each match is the first matching candidate |
| MatchingTheorems.FirstMissesAreFirst | crates/eggreplay-core/src/matching.rs:377-392 | the near misses are the first mismatches in fixture order: one is left out only when the list is already full |
| MatchingTheorems.NearMissesOfResult | crates/eggreplay-core/src/matching.rs:377-397 | reported near misses are mismatches, never consumed exact candidates, within the bound and sorted |
| MatchingTheorems.LazyRefinesEager | crates/eggreplay-core/src/matching.rs:401-488 | with a collision-free digest and a truthful loader a digest candidate and an inline candidate match the same requests, and differ in the same dimensions in exact modes |
| MatchingTheorems.LazySelectionRefinesEager | crates/eggreplay-core/src/matching.rs:312-398 | over a whole fixture both give the same verdict and session in every body mode, and the very same result in exact modes |
| MatchingTheorems.LoadsOnlyIfNeeded | crates/eggreplay-core/src/matching.rs:401-488 | bytes are loaded only for a candidate that agrees in all else, has none at hand, and is compared as JSON or is redacted |
| MatchingTheorems.NotLoadedDiffers | crates/eggreplay-core/src/matching.rs:401-488 | a candidate that would have to be loaded and differs in something else counts as differing in the body too |
| RedactedFixture.WildcardsAreRedactedFields | crates/eggreplay-core/src/matching.rs:613-659 | the wildcards read back from a recorded flow's markers are exactly the header names, query keys and JSON paths that were redacted |
| RedactedFixture.HeadMatchesIffAgrees | crates/eggreplay-core/src/matching.rs:330-359 | a redacted flow has no difference outside the body if and only if method, scheme, authority and path agree, the query pairs whose key was not redacted are the same, and every header that is neither ignored nor redacted has the same values in the same order |
| RedactedFixture.RedactedFixtureIsWildcard | crates/eggreplay-core/src/matching.rs:329-448 | a flow recorded under a redaction policy that the removal hides matches a request, in every body mode, for digest and inline candidates alike, if and only if original and request agree outside the redacted and ignored fields, header by header in their values; no removed path may end at an array element |
| RedactedFixture.RecordedRequestMatchesIff | crates/eggreplay-core/src/matching.rs:329-448 | for every document, a redacted recording matches the very request it was recorded from if and only if the removal hides its redaction |
| RedactedFixture.PlainBodyMatchesIff | crates/eggreplay-core/src/matching.rs:401-488 | a body that is not redacted matches if and only if it is empty where nothing was recorded, the very bytes in the exact modes (UTF-8 in text mode), and in JSON mode the same document outside the ignored paths |
| JsonTheorems.TargetOfPointer | crates/eggreplay-core/src/matching.rs:672-695 | every path has a pointer (section 3 of RFC 6901), and splitting and unescaping it gives the path back |
| JsonTheorems.ElementToken | crates/eggreplay-core/src/security.rs:147-163 | array elements are selected by their decimal indices and by nothing else |
| JsonTheorems.FreeIndex | crates/eggreplay-core/src/matching.rs:686-691 | removal also accepts a plus sign and leading zeros |
| JsonTheorems.GetOfSet | crates/eggreplay-core/src/security.rs:147-163 | a value written at a pointer's target is found there |
| JsonTheorems.GetElsewhere | crates/eggreplay-core/src/security.rs:147-163 | nothing apart from the target is touched |
| TextParsing.SplitJoin | crates/eggreplay-core/src/matching.rs:672-695 | splitting at a separator distributes over it, so a pointer is its parent's tokens and its last token |
| Template.ParseIsUniqueSegmentation | crates/eggreplay-core/src/scenario.rs:664-692 | the segmentation of a template into literals and variables is the one canonical segmentation that prints back to it |
| Template.Render | crates/eggreplay-core/src/scenario.rs:664-692 | the loop evaluates that segmentation, and fails exactly on an overlong template, an unterminated variable, an invalid or unbound name or an overlong final output: the size check inside the loop never changes the verdict |
| Template.RendersIff | crates/eggreplay-core/src/scenario.rs:664-692 | a template renders to an output if and only if both are within bound and the template prints back from segments whose names are valid and bound and whose literals and values, in order, are the output |
| Template.InsertedVerbatim | crates/eggreplay-core/src/scenario.rs:664-692 | at any variable of any template the output is what comes before, the value as it is, and what comes after: an inserted value is never expanded again |
| Scenario.ValidateRules | crates/eggreplay-core/src/scenario.rs:288-325 | accepts exactly the rules that satisfy the declarative condition, scenario by scenario and transition by transition |
| Scenario.ValidateScenario | crates/eggreplay-core/src/scenario.rs:297-322 | one scenario: names, distinct declared states, bounded transitions between them |
| ScenarioTheorems.ValidRulesLimits | crates/eggreplay-core/src/scenario.rs:288-325 | what accepted rules can ask for at most, in numbers; a response header can be written on one line |
| Scenario.ExtractVariables | crates/eggreplay-core/src/scenario.rs:401-420 | the loop computes `ExtractAll`, of which the following five rows say what it is |
| ExtractionTheorems.ExtractedIff | crates/eggreplay-core/src/scenario.rs:401-420 | extraction ends with a result if and only if a sequence of variables leads there, each extraction binding its name, and nothing else, to its source's value under what the earlier ones left: to the end, to the first source without a value, or to the first value that is too long |
| ExtractionTheorems.ExtractValueIff | crates/eggreplay-core/src/scenario.rs:607-662 | a source has a value if and only if it is not redacted and stands for that value: the first query pair of its key, the first header of its name in any case, the n-th non-empty path segment, the pointer's target, an earlier variable |
| ExtractionTheorems.StepBindsExtractions | crates/eggreplay-core/src/scenario.rs:401-420 | a step binds exactly the names its transition extracts, each to its source's value, and leaves every other variable as it was |
| ExtractionTheorems.RedactedNeverExtracted | crates/eggreplay-core/src/scenario.rs:607-662 | requests that differ only in redacted header and query values extract the same variables |
| ExtractionTheorems.RedactedSourcesRefused | crates/eggreplay-core/src/scenario.rs:607-662 | a redacted query key, header or pointer has no value whatever the request holds |
| Scenario.RenderBody | crates/eggreplay-core/src/scenario.rs:421-439 | the response body is `RenderedBody`, of which `RenderingTheorems.BodyIff` says what it is |
| RenderingTheorems.BodyIff | crates/eggreplay-core/src/scenario.rs:421-439 | the body is the rendered template or, with replacements, what its document is after them one by one, each with an existing target |
| RenderingTheorems.ReplacedThere | crates/eggreplay-core/src/scenario.rs:425-433 | after a replacement the rendered text stands at its target, and what stands apart from it is as it was |
| RenderingTheorems.ResponseIff | crates/eggreplay-core/src/scenario.rs:440-466 | a response is rendered if and only if its status is in range, its body is that, and its headers keep names and order with their values rendered; its fault is passed on |
| Scenario.ScenarioRuntime.Advance | crates/eggreplay-core/src/scenario.rs:363-468 | the outcome and the whole new state are `Advanced` of the old state, which `StepTheorems.StepIff` and `StepTheorems.NoStepIff` describe |
| StepTheorems.StepIff | crates/eggreplay-core/src/scenario.rs:363-468 | the machine steps if and only if the first transition whose state and conditions the request meets is within its limits, extracts its variables and renders its response; step, state and variables are then exactly those |
| StepTheorems.NoStepIff | crates/eggreplay-core/src/scenario.rs:363-420 | it makes no step if and only if no transition is met, or the first one met asks to be skipped and a source has no value |
| StepTheorems.ValidStepBindsAll | crates/eggreplay-core/src/scenario.rs:401-420 | in a validated scenario no extraction of a step overwrites another: every name ends up with its own source's value |
| StepTheorems.HoldsIff | crates/eggreplay-core/src/scenario.rs:471-486 | what each condition asks of a request, header names in any case |
| ScenarioTheorems.AdvanceKeepsBounds | crates/eggreplay-core/src/scenario.rs:363-468 | one request keeps a declared state, at most 64 variables of at most 4096 bytes, and emits only bounded responses |
| ScenarioTheorems.ReachableInBounds | crates/eggreplay-core/src/scenario.rs:288-468 | so does every runtime reachable from validated rules by any list of requests |
| ScenarioTheorems.StepsAreTransactional | crates/eggreplay-core/src/scenario.rs:363-468 | an error or no step leaves state and variables unchanged; a step is that of the first enabled transition |
| ScenarioTheorems.SkipAsDocumentedIff | crates/eggreplay-core/src/scenario.rs:368-420 | the code agrees with a search that passes over skipped transitions if and only if the first enabled transition is not skipped or every later enabled one is skipped too |
| ScenarioTheorems.SkipStopsTheSearch | crates/eggreplay-core/src/scenario.rs:411-415 | rules in which they differ: a skipped transition hides a later one that would step |
| FixtureReplacement.Disk.Replace | crates/eggreplay-cli/src/main.rs:1300-1323 | the directory and outcome after a replacement for every fate of its steps, crashes included |
| ReplacementTheorems.SuccessMeansMoved | crates/eggreplay-cli/src/main.rs:1300-1323 | a replacement that reports success has moved the staged fixture onto the target and changed nothing else: old fixture, staged entry and backup are gone |
| ReplacementTheorems.SucceedsIff | crates/eggreplay-cli/src/main.rs:1300-1323 | it succeeds if and only if something is staged and every step it needs takes effect |
| ReplacementTheorems.FirstPublication | crates/eggreplay-cli/src/main.rs:1304-1306 | with the target absent it succeeds if and only if something is staged and its rename works, and otherwise leaves the directory as it was |
| ReplacementTheorems.FailureLeaves | crates/eggreplay-cli/src/main.rs:1307-1322 | a failed or crashed replacement leaves the old directory, the old fixture at the backup, or the new one with the backup standing, and which of them follows from the fates of its steps |
| ReplacementTheorems.CrashedIff | crates/eggreplay-cli/src/main.rs:1300-1323 | it reports a crash if and only if a step that was reached crashed |
| ReplacementTheorems.RecoveryMeans | crates/eggreplay-cli/src/main.rs:1325-1353 | recovery moves the greatest whole backup onto an absent target if its rename works, does nothing otherwise, and reports success unless that rename was needed and failed |
| FixtureReplacement.Disk.Recover | crates/eggreplay-cli/src/main.rs:1325-1353 | an absent target is restored from the backup with the greatest name that opens, if there is one |
| FixtureReplacement.GreatestFound | crates/eggreplay-cli/src/main.rs:1338-1351 | the reverse scan of the sorted backups finds the greatest whole one |
| CrashSafety.StepSafe | crates/eggreplay-cli/src/main.rs:1300-1353 | staging (which may leave nothing or a torn directory), replacing and recovering, failed or cut off anywhere, keep the target whole or some backup whole, with only known fixtures |
| CrashSafety.RunSafe | crates/eggreplay-cli/src/main.rs:1300-1353 | the same over any number of replacements, crashes and recoveries |
| CrashSafety.RecoveryAlwaysPublishes | crates/eggreplay-cli/src/main.rs:1325-1353 | after any such run one undisturbed recovery leaves a complete fixture, published or staged before, at the target |
| CrashSafety.OldOrNew | crates/eggreplay-cli/src/main.rs:1300-1353 | without stale whole backups, a crash at any point and then recovery leave exactly the old or the new fixture, the new one if and only if its rename took effect |
| CrashSafety.RecoversLatestIff | crates/eggreplay-cli/src/main.rs:1325-1353 | with stale backups the old fixture comes back if and only if its backup's name is greater than all of theirs; otherwise the greatest stale one does |
| CrashSafety.StaleBackupWins | crates/eggreplay-cli/src/main.rs:1288-1298 | the backup of process 9 beats the later one of process 10 |
| Scheduler.TimelineOrder | crates/eggreplay-core/src/stream.rs:99-115 | succeeds exactly within its bounds, with every flow once, by offset and then index |
| Scheduler.StartOrderUnique | crates/eggreplay-core/src/stream.rs:99-115 | that order is the only one |
| Scheduler.StartsInTime | crates/eggreplay-core/src/stream.rs:99-115 | no flow starts before one that was recorded earlier |
| Scheduler.SimultaneousInFixtureOrder | crates/eggreplay-core/src/stream.rs:99-115 | flows recorded at the same moment start in fixture order |
| Scheduler.RunSequential | crates/eggreplay-cli/src/main.rs:1460-1478 | succeeds if and only if every comparison does, with the reports in fixture order |
| Scheduler.RunTimeline | crates/eggreplay-cli/src/main.rs:1527-1573 | for every completion order it terminates, starts each flow once in the start order, never has more than the maximum in flight, and fills the report vector like the sequential scheduler |
| Scheduler.CompareSchedulers | crates/eggreplay-cli/src/main.rs:1458-1573 | both schedulers succeed on the same inputs, with the same findings flow by flow; only the tag differs |
| Base64.Preview | crates/eggreplay-cli/src/main.rs:2291-2314 | the loop emits the encoding of section 4 of RFC 4648, defined on bit strings, of the first 3075 bytes or fewer |
| Base64.PushChunk | crates/eggreplay-cli/src/main.rs:2297-2310 | one chunk of up to three bytes adds its quantum of four characters |
| Base64.ChunkEncodes | crates/eggreplay-cli/src/main.rs:2301-2307 | shifting and masking the combined 24-bit number gives the symbols of the chunk's six-bit groups, the last filled up with zero bits |
| Base64.EncodedExtends | crates/eggreplay-cli/src/main.rs:2296-2310 | whole triples encode independently of what follows |
| Base64Decoding.DecodeUndoesEncode | crates/eggreplay-cli/src/main.rs:2291-2314 | a strict decoder gives back every buffer from its encoding, padding included |
| Base64Decoding.EncodeUndoesDecode | crates/eggreplay-cli/src/main.rs:2291-2314 | whatever the decoder accepts is the encoding of what it yields, so encodings are unique |
| Sse.ParseSse | crates/eggreplay-core/src/stream.rs:280-392 | for every body and every error case, events and error are those read off the blocks between blank lines |
| Sse.PoppedPieces | crates/eggreplay-core/src/stream.rs:324-332 | popping the last line feed and concatenating the pieces joins the data lines with single LFs |
| SseTheorems.SucceedsIff | crates/eggreplay-core/src/stream.rs:280-392 | parsing has no error if and only if the body is within 16 MiB and UTF-8, every line is short enough, no field value is refused and the events are not too many; it never yields more than the maximum |
| SseTheorems.ErrorIff | crates/eggreplay-core/src/stream.rs:280-392 | which error a body comes to: its size, its encoding, the first line that is too long, the first event too many, or a refused field when neither stops the parser |
| SseTheorems.EventsBeforeError | crates/eggreplay-core/src/stream.rs:280-392 | with an error the events are those closed by the lines read until then |
| SseRoundTrip.PrintedParses | crates/eggreplay-core/src/stream.rs:280-392 | a stream printed event by event in the format of section 9.2.6 of the HTML Living Standard parses without error to exactly those events, without their comments when those are not asked for |
| SseRoundTrip.LastEventIff | crates/eggreplay-core/src/stream.rs:349 | of a repeated event field the last value is kept |
| SseRoundTrip.LastIdIff | crates/eggreplay-core/src/stream.rs:350-356 | of a repeated identifier the last that is not refused |
| SseRoundTrip.LastRetryIff | crates/eggreplay-core/src/stream.rs:357-367 | of a repeated retry the last that is not refused |
| SseRoundTrip.RefusedIff | crates/eggreplay-core/src/stream.rs:350-367 | a field is refused if and only if it is an identifier with a NUL or a retry that is not a 64-bit decimal number |
| SseTheorems.BlankLineComposes | crates/eggreplay-core/src/stream.rs:280-392 | joining two error-free bodies with a blank line parses without error exactly when the joined body is within the byte bound and the event counts fit together, to the events of the first and then of the second |
| SseTheorems.CrLfParsesAlike | crates/eggreplay-core/src/stream.rs:280-392 | the CRLF and LF forms of a text without CRs parse alike if and only if it is not the case that only the longer one exceeds the byte bound |
| SseTheorems.DataIsItsDataLines | crates/eggreplay-core/src/stream.rs:324-348 | cutting an event's data at its line feeds gives back the values of its data lines |
| SseTheorems.EventDataJoinsDataLines | crates/eggreplay-core/src/stream.rs:280-392 | every event of every body, with or without an error, comes from one block of consecutive lines between blank ones and carries exactly that block's data values, in order |
| SseTheorems.ComparesEqualIffMaskedEqual | crates/eggreplay-core/src/stream.rs:395-405 | two views compare equal if and only if they are equal with the ignored fields blanked, so comparison is an equivalence |
| GrpcFraming.ParseGrpcFrames | crates/eggreplay-http/src/grpc.rs:125-158 | the offset loop computes the frame-by-frame reading of the body, and never reports trailing bytes |
| GrpcFraming.ToBigEndian | crates/eggreplay-http/src/grpc.rs:281-286 | the length prefix reads back |
| GrpcFraming.ParsedEncode | crates/eggreplay-http/src/grpc.rs:125-158 | encoded messages followed by anything parse to their frames and then whatever the rest parses to |
| GrpcTheorems.EncodedFramesParse | crates/eggreplay-http/src/grpc.rs:281-286 | the encoding of any list of messages within the bounds parses to their frames |
| GrpcTheorems.ParsesIffWritten | crates/eggreplay-http/src/grpc.rs:125-158 | a body parses to given frames if and only if it is within bounds and some messages that read as those frames encode to it |
| GrpcTheorems.ParsedReEncodes | crates/eggreplay-http/src/grpc.rs:125-158 | the frames of a parsed body account for all its bytes and encode back to it with the unused flag bits cleared |
| GrpcTheorems.ConcatenationParses | crates/eggreplay-http/src/grpc.rs:125-158 | parsing distributes over concatenation, up to the frame bound |
| GrpcTheorems.RefusedIff | crates/eggreplay-http/src/grpc.rs:125-158 | within the byte bound a body is refused with an error if and only if whole messages are followed by something that starts with no frame for that reason |
| GrpcTheorems.CutBodyRefused | crates/eggreplay-http/src/grpc.rs:125-158 | a body cut off inside a frame is refused wherever the cut is: as truncated before the end of the prefix, as an overrun after it |
| GrpcTheorems.OneFrameTooMany | crates/eggreplay-http/src/grpc.rs:125-158 | whatever follows the greatest number of frames is refused for that |
| GrpcFraming.BigEndianOrder | crates/eggreplay-http/src/grpc.rs:140 | lengths order as their octets do, the first octet first |

## Left out

- Sockets, the async runtime, TLS, HTTP adapters, bindings, argument parsing and report output: plumbing around the modelled cores.
- WebSocketTranscript.ValidateTranscript: limits other than the defaults; every caller passes the defaults.
- The outer checks of the stream-event validator (schema version, flow ids, session-wide counts, start offsets): one flow is validated.
- Error message texts: errors are told apart by kind only.
- RequestTee.RecordFlow: covers frames, timeline and rewrite; the flow's other fields, the sinks and redaction of the bodies are not modelled, and the stored length after redaction is a parameter.
- Matching: what the request-form wildcard (`try_form_wildcard`) decides is a parameter, and `select` is `select_with_loader` with a loader that never answers.
- RedactedFixture.RedactedFixtureIsWildcard: asks that no removed path ends at an array element, where "outside the removed paths" has no fixed meaning because positions shift (`RedactedFixture.RecordedRequestMatchesIff` does not ask it); it does not extend over the header changes after body redaction (crates/eggreplay-core/src/security.rs:201-242), which change a compared header, nor to form redaction.
- Json: numbers keep their canonical text, object members have no order and equal documents are equal values, as in the value library; its parsing and printing are parameters.
- Scheduler.RunTimeline: the sleep of each task until its offset and the cancellation of running tasks after an error are not modelled; a comparison is a function of the flow.
- FixtureReplacement.Disk.Recover: what makes a directory open as a session is reduced to whole or damaged, and listing the parent directory does not fail; the same holds for symbolic links and permissions.
- Completion: threads are sequentially consistent and the mutex is not poisoned.
- Redaction of URLs, forms and content framing, HAR import and export, fixture migration, floating-point timing, diagnostics of gRPC status and messages, protobuf decoding: little interacting state, or work done by libraries.
- Sse: the UTF-8 check itself is a parameter.
- WebSocket candidate comparison (`compare_websocket_candidate`): dominated by timeouts and peer input.
- Scenario faults beyond their validation: they are carried out by the HTTP adapter.
