# guardy, modelled and proved

guardy checks the text an application is about to show or act on. Validators and policies run in a pipeline; their
reports are composed into one decision; a delivery is let through, refused, corrected or replaced by one checked
fallback; a stream is cut into units which are checked and released one by one; and redaction replaces personal data by
tokens that can be turned back. This project models the code that decides those things and proves what it promises, for
every input, every configuration and every schedule.

## What is here

| files | about |
|---|---|
| Utf8, StreamBuffer, FrameScanner | Go's rune decoding against the octet grammar of RFC 3629 (section 4); the ring buffer; the incremental scanners for newline and JSON units |
| JsonGrammar | JSON texts of RFC 8259 (sections 2 to 7) as syntax trees, and the proof that counting brackets frames them exactly |
| ReleaseSpec, ReleaseTheorems, ReleaseCases | what a stream must deliver, as functions of the bytes received: cut, validate, release; what follows from them for all inputs; and which inputs succeed, wait or fail with which category |
| StreamProcessor | the stateful stream, proved to refine ReleaseSpec at every call |
| Reports, Errors, ParallelPhase, Pipeline | the decision algebra, error trees and the evidence they carry, the parallel phase as a transition system, the whole run |
| GuardedOutput | checked delivery with its one-level fallback |
| JsonScanner, JsonScannerTheorems, JsonText, BindingScanner | the hand-written recogniser, proved sound and complete for the byte grammar; which of its texts are JSON texts; and the class that scans in place |
| PiiSpans, TokenVault, Redaction | finding e-mail addresses and merging spans; the token store; replacing and restoring |
| EndToEnd | the pipeline's and the stream's theorems put together: from every check to the transport |
| Adapters | lifting a check of one text to a slice or to the string leaves of a JSON document |
| Scope | checking and merging scope requirements |

Two definitions carry the stream. `ReleaseSpec.Drain` releases every unit the bytes received so far already show, and
`ReleaseSpec.Outcome` adds completion. `StreamProcessor` is the source's object, with its ring, framer, outcome and
sticky error; each of its methods states its new journal (sink, sequence, decision, category) and its waiting bytes by
these functions. `ReleaseTheorems` then proves of the functions what the documentation promises of the stream, so the
promises hold of every sequence of calls. They are two-sided: `ReleaseTheorems.DeliveredIff` says exactly which streams get
everything through and with which bytes, `ReleaseTheorems.UndeliveredIs` and `ReleaseTheorems.WhyReleaseEnds` what is left
of every other one and why it ended, and `ReleaseCases.NoUnitWaits` that nothing complete is held back on the way.

Where a method is proved against a function (a release, a run's result, a decision, a token), lemmas beside that function
say what it means without naming its body: equivalences for each outcome, the order of ranks, what a numeral reads back
as, the alphabets spelled out.

The parallel phase is a transition system: one program counter per check, one step per mutex section, the group and
parent contexts cancelled by separate events. Its theorems quantify over every event sequence.

Where something the code seems to promise does not hold on all inputs, the exact or a sufficient condition is proved
beside a concrete exception: a text that already contains an issued token outside the spans (`Redaction.RoundTripIff`,
`Redaction.LiteralTokenIsRestored`, `Redaction.IssuedTokenAsInput`), a
requirement list that was merged with nothing and keeps its duplicates (`Scopes.MergeSelfIff`), a best-effort ring
smaller than one unit (`ReleaseTheorems.BestEffortChunks`), whitespace that pushes a finished JSON value over the unit
limit (`JsonFraming.TrailingSpaceOverLimit`), malformed UTF-8 inside a JSON string (`JsonTexts.RfcDocumentIff`,
`JsonTexts.MalformedStringAccepted`).

## Model

| member | source | states |
|---|---|---|
| ReleaseTheorems.PartitionIndependence | release.go:310-482 | any two ways to split the same admissible input into writes end with the same sink, sequence, decision and category, namely those of the pure outcome of the whole input |
| ReleaseTheorems.StateDependsOnBytesOnly | release.go:310-363 | after any writes, what has been released and what still waits depend only on the bytes received so far |
| ReleaseTheorems.OutcomeIsCutThenFold | release.go:344-363 | completing a unit or best-effort stream equals cutting the whole input into units and folding validation over them, ending at the first failure |
| ReleaseTheorems.WholeResponseOutcome | release.go:457-482 | a whole response is one unit, validated even when empty, refused when over the limits, and nothing is written before completion |
| ReleaseTheorems.DeliveredPrefixIsFinal | release.go:648-703 | what is in the sink after some input is a prefix of what is there after more input and after completion, always within the output limit |
| ReleaseTheorems.DrainAppend | release.go:310-363 | releasing a first part and then the rest equals releasing all at once, with what waits carried over |
| ReleaseTheorems.CutStable | release.go:365-453 | a unit boundary or framing failure, once visible, is not changed by any later bytes |
| ReleaseTheorems.UnitsAreInput | release.go:344-415 | units are non-empty, within the unit limit, and joined they are the input up to where framing failed: no byte lost, doubled or moved |
| ReleaseTheorems.LinesAreUnits | release.go:443-453 | lines within the limit, with any unterminated tail, are cut exactly at their newlines |
| ReleaseTheorems.LongLineRefused | release.go:313-320 | a line longer than the ring allows fails with the limit category whatever follows |
| ReleaseTheorems.JsonValuesAreUnits | release.go:428-441 | a sequence of JSON containers with whitespace between them is cut exactly at the value boundaries |
| ReleaseTheorems.BestEffortChunks | release.go:380-415 | for well-formed UTF-8 all chunks are non-empty well-formed UTF-8 within the limit, all but the last longer than the limit minus four, and joined they are the input; the one exception is a ring smaller than a unit |
| ReleaseTheorems.FullWindowProgress | release.go:183-185 | a window of at least four bytes always yields a character or a malformed-input failure, never a wait |
| ReleaseTheorems.JsonNeverFillsRing | release.go:186-190 | with JSON units the pending limit is unreachable, since the smaller unit limit strikes first |
| ReleaseTheorems.FullRingRefuses | release.go:313-325 | otherwise bytes that arrive at a full ring showing no unit are exactly the limit failure of the specification |
| ReleaseTheorems.OutcomeBlockedByPolicy | release.go:664-678 | over every input, a stream ends blocked only by a deny or a correction, never by a fault, so a fault cannot activate the fallback |
| ReleaseTheorems.DeliveryIsChecked | release.go:659-663 | what the stream relies on is what checked delivery guarantees once the policy's own fallback is removed |
| ReleaseTheorems.OnlyPassedValuesReachSink | release.go:648-703 | end to end: the sink is a prefix of the approved values of the leading units in order, each of which passed a full run on its unit with an allowed kind |
| ReleaseTheorems.DeliveredIff | release.go:648-703 | delivery, over every input and every split of it and for every profile: a completed stream ends in success exactly when framing does not fail, every unit is approved in order with a value of valid representation within the unit limit, the values together fit the output, and the transport takes each in full; the sink is then all the values joined, the sequence their number, the decision the last one |
| ReleaseTheorems.UndeliveredIs | release.go:648-703 | a stream that does not end in success was stopped by framing, behind units that were all delivered, or at its first unit out of order, with everything before it delivered and nothing behind it |
| ReleaseTheorems.WhyReleaseEnds | release.go:648-703 | the category of a failing unit, cause by cause and exactly: ill-formed text, wrong shape, timeout, refusal, limits, transport, validator fault |
| ReleaseTheorems.WhatReleaseLeaves | release.go:664-703 | only a failing transport can have taken a part, namely what it says it took; no failure is recorded as a pass, and a carried refusal is kept |
| ReleaseTheorems.WhyDecisionFails | release.go:705-724 | the decision of a failed stream is a fault after a timeout and in place of a pass, and otherwise the refusal that was known |
| ReleaseTheorems.TransportEndsOnlyByTransport | release.go:690-702 | a stream ends in the transport only after the transport failed or answered another count than it was given, at the first such unit |
| ReleaseTheorems.FallbackIsChecked | release.go:509-603 | whatever a fallback sends is a prefix of a value that passed a run of its own, all of it on success, within what the source stream left of the output budget; any end but success or transport has written nothing and refuses, and a blocked one by policy |
| ReleaseTheorems.FallbackDeliveredIff | release.go:509-603 | a fallback succeeds exactly when the candidate is in order, its guard approves a value in order that fits, and the transport takes all of it; then that value is all it sent |
| ReleaseTheorems.WhyFallbackEnds | release.go:509-623 | the category of a failing fallback, cause by cause and exactly; after a transport failure it keeps the delivered decision and what the transport took |
| ReleaseCases.NoUnitWaits | release.go:344-363 | promptness: after any writes to a stream that goes on no complete unit is left waiting: no newline, no full chunk, no JSON value behind which another byte has arrived |
| ReleaseCases.WaitsIff | release.go:365-415 | exactly which bytes may wait for more, by profile |
| ReleaseCases.LineLimit | release.go:443-453 | lines go through up to the smaller of the unit and the pending limit, newline included |
| ReleaseCases.LongerLine | release.go:365-378 | and a longer one fails with the limit category |
| ReleaseCases.UnfinishedJsonRefused | release.go:428-441 | input that ends inside a container is incomplete, at every byte before its last |
| ReleaseCases.NonContainerRefused | stream_splitter.go:130-144 | a JSON unit that begins with anything but a container is malformed |
| ReleaseCases.StrayBracketRefused | stream_splitter.go:112-126 | a closing bracket of the other kind is malformed |
| ReleaseCases.BestEffortEndIff | release.go:380-415 | cutting text without unit structure fails exactly on malformed or unfinished characters, as incomplete |
| ReleaseCases.LineShape | release.go:627-646 | a valid line unit is well-formed text whose one newline, if any, is its last byte |
| ReleaseCases.JsonShape | release.go:632-644 | a valid JSON unit is well-formed text that the JSON check accepts and whose first byte behind whitespace opens a container |
| EndToEnd.SinkIsFullyChecked | release.go:648-703 | over every input and split the transport receives a prefix of the transformed leading units, in order, each after all its sequential, policy and parallel checks passed with a complete scope and a live parent |
| ReleaseSpec.CutBounds | release.go:352-357 | every unit is non-empty and within the unit limit |
| StreamProcessors.StreamProcessor.constructor | release.go:172-221 | a compiled stream starts live, empty and unterminated |
| StreamProcessors.StreamProcessor.WriteContext | release.go:291-307 | the new journal and waiting bytes are those of draining old waiting bytes plus the input; the returned count is exactly what was received, also when a unit fails inside the write; over-long or cancelled writes fail terminally; a terminal stream never changes; a whole response writes nothing |
| StreamProcessors.StreamProcessor.AcceptInput | release.go:310-342 | buffering in slices bounded by the ring's room has the same effect as draining the whole write, and counts exactly the accepted bytes |
| StreamProcessors.StreamProcessor.ReleasePending | release.go:344-363 | the release loop equals the specification's drain of the waiting bytes |
| StreamProcessors.StreamProcessor.NextUnit | release.go:365-415 | finds the specification's next unit, waits exactly when it does, and fails with its category |
| StreamProcessors.StreamProcessor.NextJsonUnit | release.go:428-441 | the same for JSON units, resuming the scan where it stopped |
| StreamProcessors.StreamProcessor.ValidateAndRelease | release.go:648-703 | representation, guard, representation again, limits and transport in the specification's order, ending in its journal, about which ReleaseTheorems.WhyReleaseEnds and ReleaseTheorems.ReleaseGoesOnIff say what it is |
| ReleaseTheorems.ReleaseGoesOnIff | release.go:648-703 | a unit goes through exactly when it and its approved value are in order, the value fits what is left of the output and the transport takes all of it; then all of it is in the sink |
| StreamProcessors.StreamProcessor.IsValidRepresentation | release.go:627-646 | decides the representation that source units, replacements and fallbacks must all have |
| StreamProcessors.StreamProcessor.Complete | release.go:457-482 | ends the stream with the specification's outcome; a second completion changes nothing and returns the same |
| StreamProcessors.StreamProcessor.Abort | release.go:485-496 | ends the stream without writing a byte; a terminal stream keeps its outcome |
| StreamProcessors.StreamProcessor.DeliverFallback | release.go:509-585 | at most one fallback per stream and only after a block; it is a separately checked delivery that shares the output budget and leaves the source outcome and sink untouched |
| StreamProcessors.StreamProcessor.WriteFallback | release.go:587-603 | the fallback's journal follows what the transport accepted |
| StreamProcessors.StreamProcessor.FallbackFailure | release.go:605-623 | a failed fallback records its category; after anything but a transport failure its decision refuses, after a timeout it is a fault, and otherwise a known refusal is kept |
| StreamProcessors.StreamProcessor.Fail | release.go:705-724 | the one way into failure: pending bytes dropped, framer reset, outcome and error fixed, decision never a pass |
| StreamProcessors.StreamProcessor.WithinLimits | release.go:291-342 | in every reachable state received bytes, released plus fallback bytes and peak pending bytes respect their limits, and a terminal stream holds nothing |
| StreamProcessors.StreamProcessor.BlockedMeansRefused | release.go:509-512 | in every reachable state of a stream with a checked guard, the category that admits a fallback stands for a deny or a correction |
| StreamProcessors.StreamProcessor.WorkIsLinear | stream_splitter.go:26-72 | over a whole run, terminal or not, scan visits are at most the bytes received plus the units released, and copying moves at most four times the bytes received |
| StreamProcessors.Produce | release.go:286-482 | any number of writes followed by completion leaves exactly the outcome of their concatenation |
| StreamBuffers.StreamBuffer.Append | stream.go:15-38 | appends to the byte queue through wraparound and growth, never past the budget, at amortised cost |
| StreamBuffers.StreamBuffer.Prefix | stream.go:40-51 | copies exactly the first n bytes of the queue |
| StreamBuffers.StreamBuffer.Consume | stream.go:53-59 | removes exactly the first n bytes of the queue |
| StreamBuffers.WrittenUnrolls | stream.go:26-37 | two copies around the end of the array append exactly the written bytes to the unrolled contents |
| Framing.FrameScanner.Newline | stream_splitter.go:26-39 | finds the first newline without looking at any byte twice |
| Framing.FrameScanner.ScanJsonByte | stream_splitter.go:90-128 | the counters follow the specification's transition for one byte |
| Framing.FrameScanner.Json | stream_splitter.go:41-72 | resuming the scan gives the boundary, wait or error that a scan from the start would give |
| Framing.ScanAppend | stream_splitter.go:41-72 | scanning in parts is scanning at once |
| Framing.ScanStable | stream_splitter.go:41-88 | a boundary or error found is not changed by more bytes |
| Framing.NewlineBoundaryIs | release.go:443-453 | the boundary is just behind the first newline, or absent exactly when there is none |
| JsonFraming.ScanValue | stream_splitter.go:90-128 | the text of any JSON value inside a container leaves every counter as it was, despite brackets and escapes in its strings |
| JsonFraming.CompleteExactlyAtEnd | stream_splitter.go:41-144 | for every object or array text within the limit, completeness is reached at its last byte and at no earlier one |
| JsonFraming.BoundaryAfterTrailingSpace | stream_splitter.go:41-88 | the unit is the value with all its trailing whitespace and ends where the next value begins |
| JsonFraming.TrailingSpaceOverLimit | stream_splitter.go:41-88 | trailing whitespace beyond the limit fails the unit although its value was complete |
| Utf8.ValidStringIsOctets | release.go:627-631 | the decoding loop accepts exactly the UTF8-octets of RFC 3629, section 4 |
| Utf8.NotFullIsProperPrefix | release.go:396-411 | an unfinished rune is exactly a proper non-empty prefix of some well-formed character |
| Utf8.DecodeUndoesEncode | release.go:400-407 | decoding undoes the encoding table of RFC 3629, section 3, for every scalar value and whatever follows |
| Utf8.DecodeLastUndoesEncode | ext/pii_masking.go:118-124 | decoding backwards finds the last character, whatever stands before it |
| Utf8.MalformedIsReplaced | release.go:400-407 | what starts no character is one byte of U+FFFD |
| Reports.RunDecision | guardy.go:114-132 | the scan over all reports selects the last report of the highest rank that is no observation |
| Reports.SelectedIsLast | guardy.go:114-132 | what the scan selects is the last of the strongest enforcing reports; it selects none exactly when all only observe |
| Reports.RankOrder | guardy.go:150-182 | faults outrank denials, denials corrections, corrections redactions and those a pass; among denials a block leads, then a retry that may not be retried |
| Reports.EffectiveIff | disposition.go:64-88 | exactly which fields make a report a fault, a correction or a pass; the rest is a deny |
| Reports.DerivedIsEffective | disposition.go:36-62 | storing the derived disposition or leaving it out makes no difference; it is a correction exactly for a retryable retry that is not fatal |
| Reports.ObservationIff | disposition.go:90-94 | exactly which reports only observe |
| Reports.DecideIsStrongest | guardy.go:114-132 | the decision is at least as strong as every enforcing report, and refuses exactly when one of them refuses |
| Reports.AggregatePayloadKind | payload.go:50-62 | the kind is the most restrictive of all reports' kinds |
| Reports.KindOrder | payload.go:35-46 | technical payload is worse than an internal signal, that than safe text, and anything else is no kind |
| Reports.ComposeReports | guardy.go:137-148 | the loop computes the composition the laws below are about |
| Reports.ComposeIsJoin | guardy.go:137-148 | rank and kind of a composition are the joins of its parts' ranks and kinds |
| Reports.ComposeOf | guardy.go:137-148 | the fields of a composition are those of one of its enforcing reports with the joined kind, or of a plain pass when all only observe |
| Reports.ComposeAssociative | guardy.go:137-148 | composing parts first changes neither rank, disposition nor kind |
| Reports.ComposeIdempotent | guardy.go:137-148 | composing a composition again gives the same report, and repeating inputs changes no strength |
| Reports.ComposePermutation | guardy.go:110-148 | disposition, kind and rank do not depend on the order in which parallel checks report |
| Reports.FoldComposeIsBatch | ext/map_slice.go:50-71 | folding reports one at a time is as strong as composing them in one batch, with the same disposition |
| Reports.NormalizedIdempotent | disposition.go:64-94 | normalizing twice changes nothing, keeps strength and observation status, and disposition is determined by rank |
| Reports.ErrorFromDecisionIs | errors.go:193-219 | the boundary error is nil exactly for a decision that neither faults, denies nor corrects; it is retryable exactly for a correction and terminal exactly for a deny; and it carries that very decision |
| Reports.PolicyDecisionIs | decision.go:68-78 | the host's decision has the disposition and action of the strongest report and the most restrictive kind of all |
| Reports.FailureIsNoPass | decision.go:125-131 | a failure never carries a pass: what enforces nothing becomes a fault |
| Errors.CancellationOnlyIff | errors.go:25-48 | an error is nothing but cancellation exactly when no unwrap path, at any depth, leads to a panic or to an end that is no context error |
| Errors.CanceledIff | pipeline.go:531 | an error is a cancellation exactly when some unwrap path leads to one |
| Errors.JoinKeepsFailure | errors.go:11-48 | joining the context's error neither hides a failure nor invents one |
| Errors.CollectCompletedReports | completed_observations.go:64-78 | the recursive append collects what the outermost carriers attest, in order |
| Errors.EvidenceConserved | completed_observations.go:35-85 | however an error was wrapped, joined and re-attested, the evidence it reports is the join of everything attested on the way |
| Errors.EveryAttestedReportCounts | completed_observations.go:55-62 | each attested report bounds the error's reported rank and kind from below |
| Errors.EvidenceSurvives | completed_observations.go:51-78 | whatever is wrapped, joined, panicked or faulted around an error, its evidence stays visible at the top |
| Errors.FaultErrAttests | pipeline.go:392-406 | the error of a fault result attests every report of the run and all that its cause attests |
| Errors.FaultKindCoversEvidence | pipeline.go:392-406 | for any reports and any cause: appending the cause's evidence and a fault gives a fault whose kind covers every report and everything the cause attests |
| ParallelPhase.RunKeepsInv | pipeline.go:505-571 | in every reachable state a cancelled group has a reason and a recorded block or retry already has its report among the reports |
| ParallelPhase.ReportsAreContributions | pipeline.go:519-571 | in every schedule a finished phase's reports are exactly what each completed check reported and what each failed check's error attests; a failed callback's own report is never among them |
| ParallelPhase.ReportsAreExactly | pipeline.go:512-572 | conservation: a finished phase's reports are its checks' contributions, each exactly once, in every schedule |
| ParallelPhase.ErrorsAreAnswers | pipeline.go:539-554 | in every schedule the errors the phase keeps are those its checks returned, or the forbidden redaction |
| ParallelPhase.AllowedOnlyIfAllBenign | pipeline.go:517-585 | no schedule and no cancellation loses a deny, correction or fault: an undecided, error-free end means every check completed benignly |
| ParallelPhase.FailureAlwaysFaults | pipeline.go:519-581 | an error or panic that is not purely cancellation faults the phase in every schedule, even after a sibling's deny |
| ParallelPhase.IndependentFaults | pipeline.go:519-545 | more generally any error that is not a cancellation and nothing else, an expired deadline of its own among them |
| ParallelPhase.NoExcuseAfterParent | pipeline.go:529-539 | siblings' decisions excuse cancellations only while the parent context lives: once it has ended, every later error is returned |
| ParallelPhase.SiblingDenyIsNoFault | pipeline.go:529-545 | with a live parent, cancellations met after a recorded deny leave no error, and that deny decides unless a report was itself a fault |
| ParallelPhase.CancelledMeansBlocked | pipeline.go:344-356 | when checks fail only by obeying, a cancelled context implies a recorded block |
| ParallelPhase.BenignRunsAreUndisturbed | pipeline.go:517-571 | if all checks are benign and the parent lives, nothing is ever recorded against the run |
| Pipelines.RunPhase | pipeline.go:429-495 | the sequential loop threads value and reports and stops at the first context end, error or refusal, as specified |
| Pipelines.PhaseGoes | pipeline.go:429-495 | a phase goes on exactly when every check passed in time, with the composed transform; it stops only on a recorded refusal |
| Pipelines.PhaseEnds | pipeline.go:422-495 | a phase ends at one check, before which every check passed: it came too late, failed with that cause, or refused; or the phase went on behind the last |
| Pipelines.PhaseKeepsEvidence | pipeline.go:429-495 | however a sequential phase ends, it keeps what was seen before and adds exactly its callbacks' evidence |
| Pipelines.PhaseRecords | pipeline.go:422-495 | a sequential phase records its callbacks' evidence in order, each once, behind what was seen before |
| Pipelines.FinalizeResult | pipeline.go:358-390 | the finalized result of the specification: the user channel's refusal, the withheld output and the aggregated kind; Pipelines.OutputIs says what it hands out |
| Pipelines.OutputIs | pipeline.go:358-390 | on a user channel a finalized run whose decision is a deny or a fault hands out the zero value; every other run, faulted ones too, hands out the value its phases left |
| Pipelines.EndedValue | pipeline.go:422-495 | the value the phases left is the input behind the transforms of the checks that were called to the end, in order |
| Pipelines.RefusalIsFinal | pipeline.go:358-390 | finalizing never turns a refusal among the reports into an allow, nor drops a report |
| Pipelines.Run | pipeline.go:412-586 | the three phases in order, with the parallel end state as the transition system leaves it, and beside the result the error tree it returns |
| Pipelines.RunMeetsContract | pipeline.go:392-406 | every run aggregates its kind and returns an error exactly for a system fault that its reports show too; that error attests evidence at least as restrictive as the result's output kind |
| Pipelines.FaultErrorIs | pipeline.go:392-406 | the error of a faulted run carries a fault with the kind of the whole result |
| Pipelines.ReportsAreEvidence | pipeline.go:412-586 | however a run ends, its reports are exactly what its callbacks left, next to the fault or the user channel's refusal |
| Pipelines.ReportsAre | pipeline.go:412-586 | the result's reports exactly: the evidence of the sequential and policy callbacks in order, then that of the parallel checks, each once, then at most one report of the run's own |
| Pipelines.KindCoversEvidence | pipeline.go:392-406 | the output kind of every result, a fault's above all, covers each completed check's report and each failed check's evidence |
| Pipelines.KindCoversError | pipeline.go:433-443 | it covers what the error of a failed check attests, also when joined with the context's error |
| Pipelines.KindCoversAttested | completed_observations.go:35-85 | it also covers every report attested anywhere while a failed check's error was wrapped, joined and re-attested |
| Pipelines.KindCoversNested | pipeline.go:392-406 | nested runs: when a check fails with an error that has another run's fault anywhere inside, the outer output kind is at least the inner one and covers every report of the inner run |
| Pipelines.RunErrorIsGenuine | pipeline.go:392-406 | a run whose callbacks return errors with genuine carriers returns such an error again, in every schedule, so nesting composes to any depth |
| Pipelines.AllowedRun | pipeline.go:412-586 | fail-closed: an allowed run had a complete scope, passing sequential and policy checks, only benign parallel checks and a live parent, and its output is the composed transform |
| Pipelines.PassedRunIsAllowed | pipeline.go:412-586 | conversely, if everything passed the run is allowed, exactly unless a user channel met a kind that is not plain text |
| Pipelines.ParallelFailureFaults | pipeline.go:573-581 | an independent failure of one parallel check makes the run a system fault in its error and in its reports |
| Pipelines.SiblingDenyDecides | pipeline.go:519-585 | when checks only obeyed a sibling's deny, the run returns no error, that deny is among its reports, and the decision is a deny, or a fault only if some check reported one |
| GuardedOutput.GuardDelivery | guarded_output.go:101-147 | what is deliverable passed a full run with an allowed kind; faults yield the zero value and no fallback; exactly which verdicts lead to success, fault or fallback; a refusal is a retryable error exactly for a correction and a terminal one exactly for a deny; the reports are those of the run with the delivery's own verdict and the fallback's, and their decision is the delivery's |
| GuardedOutput.JudgeIff | guarded_output.go:101-147 | a value is delivered exactly when its run allows it and it is classified as a kind that, made no weaker than observed, is allowed; it faults exactly when the configuration, the run or the classification does |
| GuardedOutput.CheckedFallback | guarded_output.go:149-173 | the fallback is itself a checked delivery, used only when it passes, keeping the original refusal; the recursion ends after one level |
| GuardedOutput.ApplyDeliveryPolicy | guarded_output.go:229-274 | classification can only restrict: the kind is the worse of observed and classified, and must be allowed |
| GuardedOutput.DeliveryFault | guarded_output.go:220-227 | a delivery fault suppresses the value and agrees with its decision |
| JsonScannerTheorems.RecognisedIffDocument | internal/jsondoc/decode.go:46-271 | the recogniser accepts exactly the documents of the byte grammar (RFC 8259 sections 2 to 7, except that bytes at or above 0x80 inside strings and names pass unchecked) with nesting at most 10000 and no duplicate decoded member names |
| JsonScannerTheorems.NestingLimit | internal/jsondoc/decode.go:143-153 | nested arrays are recognised up to 10000 and no further |
| JsonScanner.UniqueKeysIff | internal/jsondoc/decode.go:180-207 | names are unique exactly if in every object no two members have the same decoded name |
| JsonScanner.KeyIsDecoded | internal/jsondoc/decode.go:168-178 | names are compared as decoded; leaving plain ones alone is only a short cut |
| JsonGrammar.JsonAlphabet | internal/jsondoc/decode.go:75-141 | digits, hexadecimal digits, escapes, whitespace and exponent marks, spelled out |
| JsonTexts.RfcDocumentIff | internal/jsondoc/decode.go:95-118 | a recognised text is a JSON text of RFC 8259, every string and name made of its characters, exactly when it is well-formed UTF-8; and every such text is recognised |
| JsonTexts.DocumentText | internal/jsondoc/decode.go:95-118 | a document is well-formed UTF-8 exactly when each of its strings and member names consists of characters |
| JsonTexts.CharsIffValidBody | internal/jsondoc/decode.go:95-141 | the bytes let through between quotes are escapes and characters of section 7 exactly when they are well-formed UTF-8 |
| JsonTexts.MalformedStringAccepted | internal/jsondoc/decode.go:102-115 | the exception: a string holding the byte 0xFF is recognised, is not well-formed UTF-8 and is no JSON text |
| JsonScannerTheorems.ValueSound | internal/jsondoc/decode.go:143-166 | what is accepted is the text of a bindable value, and exactly that text is consumed |
| JsonScannerTheorems.ValueComplete | internal/jsondoc/decode.go:143-166 | the text of every bindable value is accepted as that value, wherever it stands; only a number must not go on behind it |
| JsonScannerTheorems.PrintedIsRecognised | internal/jsondoc/decode.go:143-271 | every printed document tree is accepted as that very tree: parsing undoes printing |
| JsonScannerTheorems.PrintingIsInjective | internal/jsondoc/decode.go:143-271 | the accepted tree is determined by the text |
| BindingScanners.BindingScanner.Value | internal/jsondoc/decode.go:143-166 | the scanner ends at the specification's position, with its verdict and its duplicate flag |
| BindingScanners.BindingScanner.Object | internal/jsondoc/decode.go:180-207 | the same for objects, with the set of decoded names seen so far |
| BindingScanners.BindingScanner.Array | internal/jsondoc/decode.go:209-225 | the same for arrays |
| BindingScanners.BindingScanner.StringToken | internal/jsondoc/decode.go:95-118 | finds the closing quote of exactly the grammar's strings |
| BindingScanners.BindingScanner.Number | internal/jsondoc/decode.go:243-271 | consumes exactly a number of the grammar |
| BindingScanners.ValidateBindingDocument | internal/jsondoc/decode.go:46-64 | a text is accepted exactly when it is a document of the grammar and syntactically valid; a duplicate name and trailing data are reported exactly when the recogniser meets them, everything else is left to the decoder |
| PiiSpans.EmailDomainEnd | ext/pii_masking.go:200-227 | the result is the longest end at which the domain qualifies, or zero when none does |
| PiiSpans.NextStart | ext/pii_masking.go:148-159 | moves forward past the position to the end or to the first place behind a rune that is no word rune, skipping no clean ASCII start |
| PiiSpans.EmailSpans | ext/pii_masking.go:163-185 | every span is an address, and every address by brute force lies inside some span |
| PiiSpans.ShortestAddress | ext/pii_masking.go:200-227 | a top level of two letters makes an address, one of one letter does not |
| PiiSpans.EmailAlphabet | ext/pii_masking.go:187-196 | the bytes of local parts and domains, spelled out |
| PiiSpans.Merge | ext/pii_masking.go:104-115 | merging sorted spans gives disjoint spans in order that cover exactly the same bytes; spans that only touch stay apart |
| PiiSpans.PiiSpans | ext/pii_masking.go:96-116 | every address and every pattern candidate lies inside one of the disjoint spans, every covered byte belongs to one of them, and two that only touch are not joined |
| TokenVault.NormalizeNamespace | ext/token_vault.go:141-157 | keeps exactly the token characters of the upper-cased name, or the generic one |
| TokenVault.NormalizedIsNamespace | ext/token_vault.go:141-157 | the result is a namespace, and a fixed point when upper-casing leaves it alone |
| TokenVault.KeepAppend | ext/token_vault.go:146-152 | normalizing is a filter: byte by byte, upper-case letters, digits and underscores stay in place |
| TokenVault.NormalizedIgnoresCase | ext/token_vault.go:141-157 | names that differ only in case share a namespace; only what keeps no character falls back to the generic one |
| TokenVault.TokenInjective | ext/token_vault.go:67 | tokens differ for different namespaces or numbers, although namespaces may contain digits and underscores |
| TokenVault.DecimalIsNumeral | ext/token_vault.go:67 | the number in a token reads back in base ten as itself, in digits without a leading zero |
| TokenVault.TokenText | ext/token_vault.go:67 | what a token looks like, character by character |
| TokenVault.KeyInjective | ext/token_vault.go:49 | keys differ for different namespaces or originals |
| TokenVault.IssueKeeps | ext/token_vault.go:66-70 | issuing the next number keeps both maps images of one injective relation, and the token is fresh |
| TokenVault.InMemoryTokenVault.Store | ext/token_vault.go:44-71 | returns the pair's token, the same at every call, restorable to its original, without disturbing any other; a new entry gets the number after its namespace's last, starting at one, and no other namespace's counter changes |
| TokenVault.InMemoryTokenVault.Restore | ext/token_vault.go:74-82 | looks up exactly the stored originals |
| TokenVault.InMemoryTokenVault.MapsAreInverse | ext/token_vault.go:44-82 | in every reachable state a pair's token restores to its original, tokens distinguish pairs, and every restorable token is the token of a stored pair with that original |
| Redaction.MatchIsTokenShape | ext/token_vault.go:84 | the match at a position is exactly the prefix of token shape, and there is at most one |
| Redaction.TokensHaveShape | ext/token_vault.go:67-84 | every issued token has the shape that restoring looks for |
| Redaction.StoreRedaction | ext/token_vault.go:118-139 | with the in-memory vault a success is a restorable token other than the text, and the identity fault arises exactly when the token issued is the text; any other vault's failures, panics, empty and identity tokens are faults; without a vault the fixed replacement |
| Redaction.ScreenedIff | ext/token_vault.go:126-138 | a host's answer is accepted exactly if it is a token that is neither empty nor the text; anything else is its own fault |
| Redaction.ReplaceSpans | ext/spans.go:11-25 | one pass replaces exactly the spans, each as the vault serves it; the first span that is not served gives its error and the input back |
| Redaction.RoundTrip | ext/token_vault.go:86-100 | restoring a text whose spans were replaced by vault tokens gives the original, when nothing between the spans is a token of the store |
| Redaction.PlainTextRoundTrip | ext/token_vault.go:84-100 | in particular every text without a token-shaped part survives replacing and restoring, whatever the store holds |
| Redaction.RestoresPieceByPiece | ext/token_vault.go:86-100 | for every input without proviso: restoring puts each span's text back in its place and otherwise restores the gaps one by one |
| Redaction.RoundTripIff | ext/token_vault.go:86-100 | if restoring changes no gap but perhaps one, the original comes back exactly when it does not change that one either |
| Redaction.LiteralTokenIsRestored | ext/token_vault.go:86-100 | with one literal copy of a known token in one gap the original comes back exactly when that token stands for itself |
| Redaction.IssuedTokenAsInput | ext/token_vault.go:86-100 | a text that is nothing but an issued token comes back as the other text it stands for |
| Redaction.MaskPii | ext/pii_masking.go:74-94 | every address and candidate lies inside a span, and every byte of a span belongs to one; clean exactly when there is neither; a masked text has every span replaced as the vault serves it, by a restorable token of the namespace other than its text for the in-memory vault, and restores to the input when nothing between the spans is a known token; every other verdict returns the input, and each verdict's cause is stated |
| Adapters.MapSlice | ext/map_slice.go:37-77 | all or nothing: either every element was checked and exactly the redacted ones are replaced, or the input comes back; the report is the join of the completed ones; it is an error exactly when, with no refusal so far, the context ends or a check fails |
| Adapters.MappedIs | ext/map_slice.go:64-74 | on success a redacted element is the injected one and every other element the very one it was |
| Adapters.CompletedFault | ext/map_slice.go:91-94 | a fault's report covers the completed reports and the cause's own evidence, not the failing call's report |
| Adapters.FoldedAllowsIff | ext/jsonredact/jsonredact.go:57-59 | the folded report allows exactly when every leaf report does |
| Adapters.Walk.WalkNode | ext/jsonredact/jsonredact.go:89-122 | the walk keeps the tree's shape and turns its leaves, in order, into the recorded results, after a look at the context at every node; behind a fault leaves are passed over |
| Adapters.Walk.WalkString | ext/jsonredact/jsonredact.go:161-184 | a leaf changes only if its own report was an allowed redaction; a failing call leaves no trace in the report |
| Adapters.RedactsIff | ext/jsonredact/jsonredact.go:176-182 | an answer replaces its text exactly if its report is a well-formed redaction that nothing escalates |
| Adapters.ValidateJson | ext/jsonredact/jsonredact.go:41-78 | on allow every leaf was checked and the output is the document with exactly the redacted leaves replaced; otherwise the original text; only a fault skips leaves; it fails when the context has ended at the first look or, when everything was allowed, at the final one, and without an error the context was live at one look for every node; an error is explained by the context at the walk's last look, by the check of the next leaf, or, after a complete walk, by encoding or the final look, and its report covers the leaves completed before |
| Adapters.LeafIs | ext/jsonredact/jsonredact.go:161-184 | after a complete walk a redacted leaf is what its check made of it and every other leaf what it was |
| Adapters.ShapeAndLeavesDetermine | ext/jsonredact/jsonredact.go:89-122 | keys, lengths, non-string leaves and the texts in walk order determine a document |
| Adapters.UnredactedIsUnchanged | ext/jsonredact/jsonredact.go:67-77 | the result equals the document exactly when no redaction changed a leaf's text |
| Scopes.CheckScopeRequirements | scope.go:248-278 | the first wrong type wins over everything missing; missing keys are reported in order |
| Scopes.AcceptsIff | scope.go:283-298 | a key alone accepts anything, a typed key what the dynamic type assertion of its reader accepts, a bare type name a value of that name |
| Scopes.CompleteIff | scope.go:113-125 | the precheck is complete exactly if no key is missing and every typed key can be read |
| Scopes.MergeScopeRequirements | scope.go:191-223 | the two loops compute the merge the laws below are about |
| Scopes.MergeKeepsFailures | scope.go:191-223 | a merged list rejects exactly the values, and lacks exactly the keys, that either list does |
| Scopes.MergeAllPreservesVerdict | pipeline.go:302-308 | checking the merged declarations gives the same class of failure and the same missing keys as checking each, and succeeds exactly when all do |
| Scopes.MergeSelfIff | scope.go:191-223 | merging a list with itself changes nothing exactly when it has no empty keys, duplicates or redundant entries |
| Scopes.MergeAllIdempotent | pipeline.go:302-308 | what a pipeline ends up requiring is of that kind, so merging it again is idempotent |

## Left out

- Redaction.RoundTrip: sufficient only; with several known tokens in the gaps their changes of length can cancel out and give the input back by coincidence, so the exact condition is stated for at most one affected gap (Redaction.RoundTripIff).
- Context ends during a write: the context is looked at once per call, as the source does; a context that ends during validation is the guard's cancelled flag.
- Message texts, codes, severities and scores: reports carry action, disposition, kind, the fatal, retryable and shadow flags and whether the score is finite.
- The guard, the transport and the scope factory of a stream are functions of how often they were called before and of the value; one run calls each at most once per number, so they may behave arbitrarily.
- Wall-clock timeouts are flags, and the stream's and vault's mutexes make their operations atomic.
- The parallel phase lets a cancellation reach the group context at any later step; derived contexts and observer callbacks are not modelled.
- The group context is cancelled by a recorded block, a returned error or the parent, as its cause; the deferred cancel after Wait is not an event.
- Integer widths: lengths and counters are unbounded, including the vault's 64-bit counter per namespace.
- Unicode tables are a parameter deciding word runes, strings.ToUpper and string unquoting are parameters, and json.Valid is a parameter of the stream.
- Phone and card patterns: the regular expression engine's spans are arbitrary candidates within bounds.
- The token pattern is modelled by its leftmost match, which is unique at each position, not by a regular expression engine.
- slices.SortFunc is a sort function with the same total order.
- JSON documents of the adapter are values with sorted keys; decoding and encoding are parameters, and update in place of maps and slices through aliases is not captured.
- A slice adapter's callbacks are functions; mutation of shared elements by them is not captured.
- Reflection: dynamic types are opaque tags with name, kind and implements relations; the delivery classifier is a total function to a kind or a failure.
- HTTP middleware, OpenTelemetry, observers, the JSON schema validator and the downstream integrations are not part of this model.
- Middleware wrapping, option builders, streaming capability checks, length, tag and wordlist validators would only add easy members.
