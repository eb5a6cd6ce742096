# DiffDash verification

A Dafny 4.11 model of the algorithms and protocols at the centre of DiffDash, a code-review
application, with proofs about all inputs, all interleavings and all runs. `dafny verify dfyconfig.toml`
checks everything.

| module | what it models |
|---|---|
| `HeaderLines`, `DiffSplit`, `DiffWorker`, `DiffStream` | cutting a streamed unified diff into per-file patches, incrementally, as a refinement of one split of the whole text |
| `DomainDiff` | the domain parser's grouping of the same text, and when the two agree |
| `CloudInventory` | paging through the files while they are still being parsed |
| `Utf8`, `AnchorHunk`, `PromptSections`, `ThreadPrompt` | assembling a prompt under a byte budget around an anchored hunk |
| `ProviderJson`, `JsonText` | serializing cyclic provider content with a replacer that trims a stack of ancestors, and an independent reader of JSON |
| `CoreLifecycle`, `CoreHost` | the life of one Core process, its ownership lease and its shutdown |
| `CommandStore`, `CommandCoordinator` | durable commands, their workers, recovery and hints |
| `EventHub` (with `EventHost`) | the bounded replay window of hints and the host that polls it |
| `ReviewSession` | the one foreground review session |
| `ProviderRegistry`, `WalkthroughRouting`, `WalkthroughCoverage` | choosing providers and models, retrying, and checking the walkthrough that comes back |
| `PercentEncoding`, `ReviewRoute`, `CloudNavigation` | review addresses and browser navigation |
| `CodexStream`, `DirectoryBytes` | the event stream of one Codex turn; sizing a managed directory |
| `Wrappers`, `Sequences`, `Sorting`, `Numbers`, `TextLines`, `Utf16`, `StepSystems` | options, results, rearranged and sorted sequences, numbers and lines in text, the order of texts, runs of a step function |

The parts that change state step by step are classes or loops, each proved against a function of its
inputs or of everything that happened before; where several parties run beside each other
(`CoreHost`, `CommandCoordinator`, `EventHost`, `ReviewSession`) the model is a step system and the
theorems are about every run of it. What is written or matched character by character is also
stated that way: headers, rendered hunks and prompts, JSON, paths and revisions have a theorem that
spells them out without the functions that compute them.

What the proofs brought out, each with a lemma that has the exact condition or the concrete run:

- A terminator other than a newline (a carriage return, say) next to a header line makes the worker
  and the domain parser cut the text differently (`WorkerAgreesWithDomainParser`). In front of the
  header that is all; behind it, closing the header line, it makes the stream fail
  (`OtherTerminatorFails`, `StreamCompletesExactly`).
- Recovery that completes between the decision to drain and the drain signal may make the process
  fail with the state left at Draining, after shutdown was acknowledged
  (`AcknowledgedShutdownMayNotStop`); whether a run that ends does end stopped is decided by two
  of its events (`EndsStoppedExactly`).
- A duplicate request that read the acceptance early and starts late runs the command's effect again
  (`DuplicateMayRunAgain`); exactly that makes it run again (`RunsAgainWithoutErrors`, and with
  recoveries and store errors `RunsAgainExactly`).
- A host that falls behind the replay window never reads another hint of that process epoch
  (`BehindForever`).
- An open can be interrupted between any two of its steps, by its deadline or by draining. At one
  place it leaves a session that reads as ready and is held by nobody (`ReadyReadsExactly`,
  `AbandoningRun`), at another the repository holds a session that nobody can read or close
  (`StrandedExactly`, `StrandingRun`), at a third a session is recorded disposed without ever being
  recorded opened (`SessionsOverRuns`, `UnrecordedRun`).
- A prompt lists a hunk as omitted although it shows every line of it when only the header was cut
  (`SlicedWithAllLines`, `AllLinesShownExactly`).
- An application that starts a load or ends the subscription while it is being navigated is still
  told that the location is shown (`LatestWins`, `ShownAfterTheEnd`).
- Routes whose owner has several segments, and commits named by anything but a hash, are valid and
  can be written as paths, but those paths are refused (`RoundTripsExactly`).

## Model

| member | source | states |
|---|---|---|
| HeaderLines.HeaderExactly | packages/cloud/src/cloud-diff-parser.worker.ts:22 | A position is a header if and only if the text there reads `diff --git a/`, a name, ` b/`, a name, up to the end of the line: both names of at least one character, the line starting at the start of the text or behind one of the four JavaScript line terminators and ending at one or at the end. |
| HeaderLines.FirstHeader | packages/cloud/src/cloud-diff-parser.worker.ts:22-24 | The search for a header from an offset finds the first header line at or after it, and nothing only when there is none. |
| HeaderLines.HeaderSurvivesAppend | packages/cloud/src/cloud-diff-parser.worker.ts:20-32 | A header the search already sees, even on a line still open at the end of the buffer, is still one when any text is appended. |
| HeaderLines.ClosedLineDecided | packages/cloud/src/cloud-diff-parser.worker.ts:45 | A line that a terminator has closed neither becomes nor stops being a header through later text. |
| HeaderLines.FirstHeaderStable | packages/cloud/src/cloud-diff-parser.worker.ts:22-32 | What the search finds in the buffer is what it finds in the whole input. |
| HeaderLines.HeaderShift | packages/cloud/src/cloud-diff-parser.worker.ts:26-35 | Dropping the text before a line start moves the headers and changes none of them. |
| DiffSplit.SplitExists | packages/cloud/src/cloud-diff-parser.worker.ts:22-38 | Splitting conserves the text: the preamble and the patches, rejoined with the one terminator removed before each later header, are the input, and every patch has exactly one header line, at its start. |
| DiffSplit.OneShotCutsAtHeaders | packages/cloud/src/cloud-diff-parser.worker.ts:22-38 | The patches start at exactly the positions of the text where such a line starts, in order, and each goes up to the character in front of the next one, or to the end. |
| DiffSplit.SplitIsUnique | packages/cloud/src/cloud-diff-parser.worker.ts:22-38 | There is no other way to take a text apart like that: the split is determined by the text. |
| DiffSplit.RejoinedSplitsBack | packages/cloud/src/cloud-diff-parser.worker.ts:22-38 | Single-header patches joined by terminators split back into the same patches. |
| DiffWorker.OnTrackAppend | packages/cloud/src/cloud-diff-parser.worker.ts:20 | Receiving a chunk keeps the promise that the patches cut so far and the rest of the buffer make up the one-shot split, whatever text still comes. |
| DiffWorker.OnTrackFirst | packages/cloud/src/cloud-diff-parser.worker.ts:23-30 | So does dropping the preamble in front of the first header. |
| DiffWorker.OnTrackNext | packages/cloud/src/cloud-diff-parser.worker.ts:31-38 | So does cutting a patch at a header found by searching from `scanOffset` only: no header start was left in [1, scanOffset). |
| DiffWorker.OnTrackLast | packages/cloud/src/cloud-diff-parser.worker.ts:33-37 | So does emitting the rest of the buffer as the last patch once the text is finished. |
| DiffWorker.OnTrackWait | packages/cloud/src/cloud-diff-parser.worker.ts:45 | So does moving `scanOffset` behind the last newline when no header was found. |
| DiffWorker.Worker.constructor | packages/cloud/src/cloud-diff-parser.worker.ts:10-13 | A new worker has cut nothing and is on track for every text. |
| DiffWorker.Worker.Handle | packages/cloud/src/cloud-diff-parser.worker.ts:17-52 | One message consumes its text, cuts at most one patch, publishes what the parser makes of it, never grows the buffer beyond the text received, and reports completion only when the cut patches are the one-shot split of everything consumed. |
| DiffWorker.Worker.Receive | packages/cloud/src/cloud-diff-parser.worker.ts:19-21 | A chunk extends the buffer, and the finish command ends the text. |
| DiffWorker.Worker.FindFirstHeader | packages/cloud/src/cloud-diff-parser.worker.ts:22-30 | Afterwards either the buffer starts with a header or it holds none. |
| DiffWorker.Worker.Publish | packages/cloud/src/cloud-diff-parser.worker.ts:31-51 | Cuts and parses one patch, or waits for more text, or completes; a patch that does not parse makes the worker fail. |
| DiffWorker.Worker.CutPatch | packages/cloud/src/cloud-diff-parser.worker.ts:34-37 | Cuts the current patch in front of the next header, or at the end, and shrinks the buffer. |
| DiffStream.ParsedPrefixIs | packages/cloud/src/cloud-diff-parser.ts:64-92 | The files yielded are determined: those of the patches up to the first that does not parse. |
| DiffStream.Stream | packages/cloud/src/cloud-diff-parser.ts:64-92 | For every way of cutting the response into chunks, the loop ends and yields exactly the files of the one-shot split of the whole text, in order, up to the first patch without a file; it completes exactly when there is no such patch. The patches start at exactly the lines `diff --git a/… b/…` of the text. |
| DomainDiff.WorkerAgreesWithDomainParser | packages/domain/src/diff-parser.ts:37-71 | The worker cuts a text into the same files as the domain parser if and only if newlines, not other line terminators, enclose every header line. |
| DomainDiff.BoundedGroups | packages/domain/src/diff-parser.ts:50-71 | If newlines enclose every header line, the domain parser groups the lines exactly by the patches of the worker. |
| DomainDiff.AgreementNeedsNewlines | packages/domain/src/diff-parser.ts:50-71 | If the groups agree, newlines enclose every header line. |
| DomainDiff.DomainHeaderExactly | packages/domain/src/diff-parser.ts:51 | The domain parser looks for the same lines `diff --git a/… b/…`, among lines without any terminator. |
| DomainDiff.GroupsKeepLines | packages/domain/src/diff-parser.ts:50-71 | The domain parser loses no line from its first header on; every group is a header line and all lines up to the next one. |
| DomainDiff.OtherTerminatorFails | packages/cloud/src/cloud-diff-parser.worker.ts:38-39 | A patch whose header line is closed by another terminator (a carriage return, say) has no file: the stream fails there. |
| DomainDiff.FirstFileExactly | packages/cloud/src/cloud-diff-parser.worker.ts:38-39 | Of a patch the worker keeps the file of all its lines if a newline or the end of the patch closes its header line, and nothing otherwise. |
| DomainDiff.StreamCompletesExactly | packages/cloud/src/cloud-diff-parser.worker.ts:31-51 | The stream completes if and only if a newline or the end of the patch closes every header line and every patch gives a file; a terminator in front of a header does not stop it. |
| DomainDiff.StreamAgreesWithDomainParser | packages/cloud/src/cloud-diff-parser.ts:94-99 | When newlines enclose every header line, the stream yields what the domain parser lists up to the first file that parser drops, and the same list if it drops none. |
| CloudInventory.CloudSnapshot.constructor | packages/cloud/src/cloud-api.ts:112-139 | A new snapshot holds exactly the first file and is streaming, or is complete and empty when there is none. |
| CloudInventory.CloudSnapshot.ReadBatch | packages/cloud/src/cloud-api.ts:354-378 | Of the files still to come, a batch takes the next `limit` or 32, whichever is less, in arrival order; if there are fewer it takes them all and completes, or, when the stream breaks off, fails and leaves the files alone. |
| CloudInventory.CloudSnapshot.Inventory | packages/cloud/src/cloud-api.ts:349-391 | A page holds the files from the offset on, with ordinals equal to indices, and is full unless it is the last there is so far; there is no next offset exactly when everything has been delivered, and nothing is read for a page whose first file is there. |
| CloudInventory.FollowPages | packages/cloud/src/cloud-api.ts:349-391 | Following `nextOffset` from 0 ends, with every streamed file exactly once, in arrival order, each with its index as ordinal; it fails exactly when the stream breaks off, after a prefix. |
| Utf8.Prefix | packages/domain/src/utf8.ts:8-21 | The prefix is the longest leading text within the byte budget: the next character would not fit. |
| Utf8.Truncate | packages/domain/src/utf8.ts:24-32 | The result fits the budget, is the text itself if that fits, and otherwise ends in the whole marker when the marker fits. |
| AnchorHunk.TruncatePromptText | packages/agents/src/review-thread-prompt.ts:467-472 | Prompt text that fits is left alone; otherwise as much of it is kept as fits in front of a marker that names its size in bytes, or as fits if the marker does not. |
| AnchorHunk.CountersAddUp | packages/agents/src/review-thread-prompt.ts:482-488 | Read back, the two omitted counts of a slice and the lines it shows account for all lines of the hunk. |
| AnchorHunk.SliceBytes | packages/agents/src/review-thread-prompt.ts:482-488 | The exact size of a slice: a fixed part, the digits of the two counters, and the lines. |
| AnchorHunk.WidenUp | packages/agents/src/review-thread-prompt.ts:509-518 | Adding a line above never makes the slice smaller, although a counter may lose a digit. |
| AnchorHunk.WidenDown | packages/agents/src/review-thread-prompt.ts:519-528 | Nor does adding a line below. |
| AnchorHunk.Widen | packages/agents/src/review-thread-prompt.ts:507-530 | A wider window is never smaller. |
| AnchorHunk.MaximalMeansWidest | packages/agents/src/review-thread-prompt.ts:507-530 | When neither neighbour line fits, no strictly wider window fits. |
| AnchorHunk.ShownIsUnique | packages/agents/src/review-thread-prompt.ts:507-530 | Fitting, not being widenable and being centred leave exactly one window. |
| AnchorHunk.AnchorTextFits | packages/agents/src/review-thread-prompt.ts:490-505 | The slice of the anchor line alone fits exactly when it fits with the text of the line left out. |
| AnchorHunk.RenderAnchorLine | packages/agents/src/review-thread-prompt.ts:490-505 | The first slice shows the anchor line, cut to what the budget leaves for it. |
| AnchorHunk.WidenedUp | packages/agents/src/review-thread-prompt.ts:509-518 | A line above is added exactly when there is one and the slice with it fits. |
| AnchorHunk.WidenedDown | packages/agents/src/review-thread-prompt.ts:519-528 | A line below is added exactly when there is one and the slice with it fits. |
| AnchorHunk.ExpandWindow | packages/agents/src/review-thread-prompt.ts:490-530 | The loop ends with the one window that contains the anchor, fits, cannot be widened and is centred, or with the anchor line alone when no slice fits. |
| AnchorHunk.FullReads | packages/agents/src/review-thread-prompt.ts:475-479 | The whole hunk, split at newlines, is the line naming file and hunk, the header and every line of the hunk, in order. |
| AnchorHunk.WindowIsRead | packages/agents/src/review-thread-prompt.ts:482-488 | Every window, split at newlines, is the line naming file and hunk, the header cut to 1024 bytes, the marker with the number of lines left out above and below, and then exactly the lines of the window, the anchor line as cut. |
| AnchorHunk.AnchorIsRead | packages/agents/src/review-thread-prompt.ts:490-505 | The anchor line is cut to what the other lines leave of the budget. |
| AnchorHunk.RenderAnchorHunk | packages/agents/src/review-thread-prompt.ts:474-533 | The hunk is unsliced exactly when nothing was omitted before and all of it fits, and then reads back as every line it has; otherwise it reads back as the one window just described. |
| AnchorHunk.ShortIdentityFits | packages/agents/src/review-thread-prompt.ts:474-488 | With a line naming file and hunk of at most 30 KiB, and safe counters, some slice of the hunk always fits into 32 KiB: the header is cut to 1024 bytes, and each counter has at most 16 digits. |
| AnchorHunk.AllLinesShownExactly | packages/agents/src/review-thread-prompt.ts:474-533 | A slice shows every line of the excerpt, the anchor line uncut, if and only if all of them fit beside the cut header and the marker. |
| AnchorHunk.SlicedWithAllLines | packages/agents/src/review-thread-prompt.ts:474-489 | For every budget from 2 KiB on, a hunk that counts as sliced although nothing was omitted before and its one line is shown whole: only its header was cut. |
| PromptSections.ArrayFitsExactly | packages/agents/src/review-thread-prompt.ts:387-412 | An array of entries fits exactly when its brackets, its entries and the commas between them do. |
| PromptSections.TrimHistory | packages/agents/src/review-thread-prompt.ts:387-389 | What is left of the history is the longest run of newest messages whose JSON fits into 12 KiB. |
| PromptSections.TrimArtifacts | packages/agents/src/review-thread-prompt.ts:407-412 | What is left of the artifacts is the longest run of first ones whose JSON fits into 12 KiB. |
| PromptSections.MessageForPrompt | packages/agents/src/review-thread-prompt.ts:425-462 | A message keeps what it is; its body, if it has one, is cut to the limit. |
| PromptSections.WithoutExactly | packages/agents/src/review-thread-prompt.ts:381-384 | The history leaves out exactly the messages with the id of the latest user message, and keeps every other as often as it was given. |
| PromptSections.NewestExactly | packages/agents/src/review-thread-prompt.ts:381-385 | The history is in order of sequence number and then of the code units of the id, has at most ten messages, and every other message but the latest comes before all of them, with ten shown then. |
| PromptSections.MessageOrderIsIrrelevant | packages/agents/src/review-thread-prompt.ts:381-385 | Where sequence numbers and ids tell the messages apart, the order in which they are supplied makes no difference. |
| PromptSections.ArtifactsAreSorted | packages/agents/src/review-thread-prompt.ts:391 | The artifacts are a rearrangement in order of the code units of their ids. |
| PromptSections.ArtifactOrderIsIrrelevant | packages/agents/src/review-thread-prompt.ts:391 | Where the ids tell them apart, the order in which artifacts are supplied makes no difference. |
| PromptSections.SectionIsRead | packages/agents/src/review-thread-prompt.ts:464-465 | A section, split at newlines, is its title, a blank line, and a fence around the indented JSON of its entries, one after the other with commas between them. |
| PromptSections.OptionalSections | packages/agents/src/review-thread-prompt.ts:380-423 | The three optional sections are the summary cut to 8 KiB, the newest messages with their bodies cut to 2 KiB, as many of them as fit together, and the artifacts by id with their contents cut to 4 KiB, as many of the first ones as fit together. |
| ThreadPrompt.FilledExactly | packages/agents/src/review-thread-prompt.ts:359-362 | The suffix is the required text followed by some of the three sections in order, a blank line before each; each is there if and only if it fits after those before it. |
| ThreadPrompt.AllThreeFit | packages/agents/src/review-thread-prompt.ts:359-362 | When all three fit together, all three are there. |
| ThreadPrompt.BuildDynamicSuffix | packages/agents/src/review-thread-prompt.ts:281-378 | It succeeds exactly when anchor, excerpt and line match, the minimum room is there and the hunk can be shown; each failure has the reason of the first requirement not met; the hunk counts as sliced exactly when it does not fit whole, and the text fits the budget and is the required parts with the optional sections that fit. |
| ThreadPrompt.Assemble | packages/agents/src/review-thread-prompt.ts:357-377 | The last step fails exactly when the hunk cannot be shown in the room there is. |
| ThreadPrompt.EmptyAnchorLine | packages/agents/src/review-thread-prompt.ts:494-505 | When no slice fits under the hunk limit, the anchor line is shown without any of its text. |
| ThreadPrompt.AnchorIsShown | packages/agents/src/review-thread-prompt.ts:344-377 | That never happens in a prompt that is accepted, unless the line naming file and hunk is longer than 30 KiB: the prompt shows the whole hunk or its one centred window. |
| ThreadPrompt.BuildReviewThreadPrompt | packages/agents/src/review-thread-prompt.ts:94-148 | Every prompt keeps stable and dynamic bytes within the total budget. Its suffix is the latest message and the anchor, each cut to its limit, then the hunk, which reads back line by line as the whole hunk or its one window, then each optional section that fits. Without a prompt, the error names the first requirement that is not met, with the bytes required and the budget. The hunk, and with it its file, is listed as included exactly when nothing was omitted before and the whole hunk, header included, fits. |
| ThreadPrompt.OmittedInOrder | packages/agents/src/review-thread-prompt.ts:137-139 | Of the files listed as omitted exactly those with the id of the file shown are left out, and none is moved. |
| ProviderJson.Serializer.Replace | packages/agent-provider/src/provider-json.ts:26-33 | With a stack that holds the path to the holder and leftovers of siblings above it, the replacer returns the marker exactly for a value on the path, a string for a BigInt, and everything else unchanged; the stack then ends in the value it entered. |
| ProviderJson.Serializer.Property | packages/agent-provider/src/provider-json.ts:26-33 | For every finite object graph, cyclic or shared, the walk with the trimmed stack ends and equals the recursion that carries the path from the root. |
| ProviderJson.Serializer.Members | packages/agent-provider/src/provider-json.ts:26-33 | So does the walk over the members of an object or array. |
| ProviderJson.ReplacingNeverThrows | packages/agent-provider/src/provider-json.ts:22-42 | Serializing with the replacer never throws. |
| ProviderJson.ReplacingIsTransparent | packages/agent-provider/src/provider-json.ts:22-42 | Where plain JSON serialization succeeds, the replacer changes nothing: a shared value that is no ancestor is serialized again. |
| ProviderJson.PlainThrowsExactly | packages/agent-provider/src/provider-json.ts:26-33 | Plain JSON serialization throws exactly when a BigInt, or an object that was passed on the way, can be reached. |
| ProviderJson.ValueReads | packages/agent-provider/src/provider-json.ts:22-42 | What is written, followed by anything that ends a value, reads back by an independent reader of JSON as the data: literals, numbers, strings with their escapes undone, elements in order with those left out as null, members in order without those left out, ancestors as `[Circular]` and BigInts as their text. |
| ProviderJson.ProviderJsonContent | packages/agent-provider/src/provider-json.ts:22-42 | The content is the text itself for a string, a name for what JSON leaves out, and otherwise a JSON text that reads back as the data and nothing more. |
| ProviderJson.ContentOfData | packages/agent-provider/src/provider-json.ts:22-42 | For data the fallback text is never the answer, and the text is that of plain serialization exactly when neither a cycle nor a BigInt can be reached. |
| CoreLifecycle.UpdatesMoveUp | packages/core/src/core-lifecycle.ts:243-483 | Every update of the state leaves it alone or moves it up the order Starting, AwaitingOwnership, Recovering, Ready, Failed, Draining, Stopped. |
| CoreLifecycle.AcceptedOnce | packages/core/src/core-lifecycle.ts:243-313 | An id is accepted only as the first one or as the same one again, so that it is the only one accepted. |
| CoreLifecycle.ApplyKeepsSound | packages/core/src/core-lifecycle.ts:219-483 | Every atomic step of the service keeps this: at most one id was ever accepted, it is the one in the state and in the signal, and the drain signal means that draining has begun; and no step takes anything back. |
| CoreLifecycle.ServiceOverRuns | packages/core/src/core-lifecycle.ts:199-483 | So it is over every run of the service, which never becomes ready again, and so admits no business request, once draining has begun. |
| CoreLifecycle.Lifecycle.constructor | packages/core/src/core-lifecycle.ts:153-155 | A new process is starting, has accepted nothing, and neither signal is given. |
| CoreLifecycle.Lifecycle.AdmitBusinessRequest | packages/core/src/core-lifecycle.ts:199-217 | A business request is admitted exactly for this process in Ready, and then no drain signal was given and exactly one id was accepted; otherwise the rejection says which of the two failed. |
| CoreLifecycle.Lifecycle.DecideAuthorization | packages/core/src/core-lifecycle.ts:219-314 | An id is accepted exactly when this process awaits ownership, or is recovering or ready and the id is the only one ever accepted; a rejection changes nothing. |
| CoreLifecycle.Lifecycle.SignalAuthorization | packages/core/src/core-lifecycle.ts:315 | However often it is given, the signal carries the one accepted id. |
| CoreLifecycle.Lifecycle.DecideShutdown | packages/core/src/core-lifecycle.ts:320-375 | A shutdown is accepted exactly for this process once it is no longer starting; draining has then begun, and what is acknowledged is the state. A rejection changes nothing. |
| CoreLifecycle.Lifecycle.SignalDrain | packages/core/src/core-lifecycle.ts:376-378 | Given once draining has begun, the signal keeps the service sound. |
| CoreLifecycle.Lifecycle.DecideHostDied | packages/core/src/core-lifecycle.ts:446-457 | After host death draining has begun, and it asks for the signal exactly if it had not before. |
| CoreLifecycle.Lifecycle.AwaitOwnershipAuthorization | packages/core/src/core-lifecycle.ts:402-427 | Succeeds exactly when the process then awaits ownership without ever having accepted an id. |
| CoreLifecycle.Lifecycle.CompleteRecovery | packages/core/src/core-lifecycle.ts:429-444 | Succeeds exactly when the process is then ready, under the only id ever accepted. |
| CoreLifecycle.Lifecycle.CompleteShutdown | packages/core/src/core-lifecycle.ts:461-471 | Succeeds exactly when draining had begun, and then the process is stopped. |
| CoreLifecycle.Lifecycle.MarkFailed | packages/core/src/core-lifecycle.ts:473-483 | Succeeds exactly when draining had not begun, and then the process has failed. |
| CoreHost.StepKeepsInvariant | packages/core/src/core-host-lifecycle.ts:16-34 | Every step of clients, host arm, owner arm and runner keeps the invariant: one authorization, signals and interruptions only after draining has begun, lease accounting, and what owner arm and state allow each other. |
| CoreHost.RunKeepsInvariant | packages/core/src/core-host-lifecycle.ts:16-34 | So does every run, in every interleaving. |
| CoreHost.StepsAreOperations | packages/core/src/core-lifecycle.ts:199-483 | What a step of the whole system does to the lifecycle service is one of the permitted atomic steps of that service, or nothing. |
| CoreHost.HostSafety | packages/core/src/core-host-lifecycle.ts:16-34 | In every interleaving the lease is acquired at most once and only for the one accepted authorization, is released on every exit, and is not held once stopped or ended; the drain signal implies Draining or Stopped, and completing shutdown is never rejected. |
| CoreHost.StepMovesUp | packages/core/src/core-lifecycle.ts:243-483 | A step never lowers the state, never replaces the accepted authorization or its signal, and never takes back draining. |
| CoreHost.RunMovesUp | packages/core/src/core-lifecycle.ts:199-217 | Over every run the state only moves up, at most one authorization is ever accepted, and nothing is admitted after draining has begun. |
| CoreHost.LateRecoveryExactly | packages/core/src/core-lifecycle.ts:429-444 | When the owner arm is about to complete recovery, that is rejected exactly if draining has begun in the meantime. |
| CoreHost.EndsStoppedExactly | packages/core/src/core-host-lifecycle.ts:16-34 | A run that ends does end stopped if and only if no failure of the owner arm was recorded or the host arm had already won; and a failure is recorded exactly if a resource failed or recovery completed too late, and the arm was not interrupted before it could record that. |
| CoreHost.AcknowledgedShutdownMayNotStop | packages/core/src/core-lifecycle.ts:375-378 | A concrete run: recovery completes between the decision to drain and the drain signal, the failure is recorded, the runner fails, and the process stays Draining whatever happens afterwards, although shutdown was acknowledged and no resource failed. |
| CoreHost.NeverStuck | packages/core/src/core-host-lifecycle.ts:28-34 | Once the end of the process is due, it always has a step of its own until the runner has ended. |
| CoreHost.InternalStepsEnd | packages/core/src/core-host-lifecycle.ts:16-34 | Such steps are bounded in number. |
| CoreHost.EndIsReached | packages/core/src/core-host-lifecycle.ts:28-34 | From any state in which the end is due the process can finish by itself. |
| CommandCoordinator.OthersUntouched | packages/persistence/src/core-command-store.ts:181-351 | A step about one command changes nothing that is known of another. |
| CommandCoordinator.AcceptKeepsSound | packages/persistence/src/core-command-store.ts:212-263 | Accepting a command, or reading its acceptance, keeps everything sound. |
| CommandCoordinator.StartKeepsSound | packages/core/src/core-durable-command-coordinator.ts:100-116 | So does starting a worker, or not starting one because there is one. |
| CommandStore.AcceptOrGet | packages/persistence/src/core-command-store.ts:212-263 | An id is accepted once; later it is answered with what is stored, or refused exactly if it comes with another epoch or other metadata. |
| CommandStore.Acknowledge | packages/persistence/src/core-command-store.ts:264-310 | Only an outcome is acknowledged, and only by its own version. |
| CommandCoordinator.StoredStep | packages/persistence/src/core-command-store.ts:181-209 | A step gives a command an outcome only if it was accepted, and only as a failure by recovery or as what its own worker came to by the terminal transition. |
| CommandCoordinator.StoreKeepsSound | packages/persistence/src/core-command-store.ts:328-350 | So do recovery, which fails what was accepted, and acknowledgement. |
| CommandCoordinator.StepKeepsSound | packages/core/src/core-durable-command-coordinator.ts:69-124 | Every step keeps the view of every command sound. |
| CommandCoordinator.RunKeepsSound | packages/core/src/core-durable-command-coordinator.ts:69-124 | So does every run; and the store never takes back an acceptance, a version or an outcome. |
| CommandCoordinator.HintsFollowTheStore | packages/core/src/core-durable-command-coordinator.ts:69-97 | A hint is published only after the store holds the outcome it tells of, at most once, and publishing never changes the store. |
| CommandCoordinator.OneHintPerOutcome | packages/core/src/core-durable-command-coordinator.ts:69-97 | At any time a command with an outcome has exactly one hint, published or on its way, and a command without one has none; a worker runs only for an accepted command. |
| CommandCoordinator.OutcomeIsTheWorkers | packages/core/src/core-durable-command-coordinator.ts:74-91 | In every run the outcome of a command, stored or told by a hint, is what its effect came to the last time it ended before the terminal transition won, or a failure if recovery came first: committed only after the effect succeeded, failed only after it failed or by a recovery; and an outcome once decided stays or becomes acknowledged. |
| CommandCoordinator.RunsAgainExactly | packages/core/src/core-durable-command-coordinator.ts:100-116 | The effect of a command runs more than once if and only if a request starts its worker after an earlier worker of that command has left the worker map; this holds with recoveries and store errors in between. |
| CommandCoordinator.LeavesExactly | packages/core/src/core-durable-command-coordinator.ts:74-91 | A worker leaves the map exactly by publishing, by losing the terminal transition, or on a store error. |
| CommandCoordinator.LeftWithOutcome | packages/core/src/core-durable-command-coordinator.ts:77-91 | Once a worker of a command has left, the store holds the outcome of the command, unless its terminal transition met a store error. |
| CommandCoordinator.RunsAgainWithoutErrors | packages/core/src/core-durable-command-coordinator.ts:103-112 | Without store errors and recoveries, the effect runs more than once if and only if a worker is started for a command that has an outcome in the store by then. |
| CommandCoordinator.RunsAtMostOnce | packages/core/src/core-durable-command-coordinator.ts:100-116 | Whatever else happens, recoveries included, the effect runs at most once if its store operations succeed and no worker is started for a command that already has an outcome. |
| CommandCoordinator.DuplicateMayRunAgain | packages/core/src/core-durable-command-coordinator.ts:100-116 | A concrete interleaving of two requests for one command in which its effect runs twice; the second outcome is discarded without a hint. |
| EventHub.EventHub.constructor | packages/core/src/core-event-hub.ts:65-69 | A new hub has published nothing and keeps between 1 and 256 hints. |
| EventHub.EventHub.Publish | packages/core/src/core-event-hub.ts:71-123 | Publishing numbers the hint by its place in the history, and the window stays the last hints of the history, at most the capacity. |
| EventHub.AfterSplits | packages/core/src/core-event-hub.ts:162 | Filtering the window by sequence number gives exactly the part of the history after the cursor that the window holds. |
| EventHub.EventHub.Replay | packages/core/src/core-event-hub.ts:125-165 | Replay answers from the window what the whole history owes: within the epoch exactly the hints after the cursor if none of them was evicted, and otherwise a resync with the right reason. |
| EventHost.Host.Poll | packages/desktop/electron/main/external-application-runtime.ts:450-479 | A poll delivers the replayed hints and moves the cursor to the last of them; a resync puts the cursor back to zero. |
| EventHost.ReadInOrder | packages/desktop/electron/main/external-application-runtime.ts:450-479 | However publications and polls interleave, what the host has read of an epoch is a prefix of what was published: no gap, no duplicate, no reordering. |
| EventHost.BehindForever | packages/desktop/electron/main/external-application-runtime.ts:467-473 | A host with more unread hints than the hub keeps never reads another hint of that epoch, because the resync puts its cursor where the hub can no longer serve it. |
| EventHost.CatchesUpExactly | packages/desktop/electron/main/external-application-runtime.ts:450-479 | A poll at the end of a run leaves the host with everything published if and only if the run never published more than the capacity between two polls. |
| ReviewSession.HoldsTheLastOpened | packages/core/src/services/snapshot-repository.ts:494-545 | After any calls the repository holds a session if and only if it was the last to be opened and was not closed since: closing any other session has no effect, nor has a refused open. |
| ReviewSession.StepKeepsSound | packages/core/src/core-review-session-rpc-handlers.ts:72-162 | Every step of an open or a close, and every interruption of an open, keeps this: while a session is active the repository holds that session or nothing; a ready session is at version 1, a disposed one at version 2 with nothing held. |
| ReviewSession.RunKeepsSound | packages/core/src/core-review-session-rpc-handlers.ts:72-162 | So does every run of them. |
| ReviewSession.ReadyReadsExactly | packages/core/src/core-review-session-rpc-handlers.ts:109-114 | In every run, with reads between any two steps: an identity reads as ready only while it is the active one, and its session is then held by the repository if and only if no open or close is just replacing it and no open was interrupted there with the session active ever since. |
| ReviewSession.CloseSucceedsExactly | packages/core/src/core-review-session-rpc-handlers.ts:116-162 | Closing succeeds if and only if the identity is the active one and its session was not abandoned by such an interrupted open, or the session is already disposed. |
| ReviewSession.CloseIsIdempotent | packages/core/src/core-review-session-rpc-handlers.ts:122-139 | Until another session is opened, closing again with the old version or the new one answers with the same disposed state and touches nothing. |
| ReviewSession.AbandoningRun | packages/core/src/core-review-session-rpc-admission.ts:116-129 | A run, for any two opens of one process: the second is interrupted just after the repository let go of the first session, which still reads as ready and which nobody can close any more. |
| ReviewSession.StrandedExactly | packages/core/src/core-review-session-rpc-admission.ts:116-129 | When nothing is under way, the repository holds a session that nobody can read or close if and only if an open was interrupted after the repository opened its session and before it became active, and no open has reached the repository since. |
| ReviewSession.StrandingRun | packages/core/src/core-review-session-rpc-admission.ts:116-129 | Such a run, for every request. |
| ReviewSession.SessionsOverRuns | packages/core/src/core-review-session-rpc-handlers.ts:83-103 | In every run a session is recorded disposed no more often than it became active, and recorded opened exactly as often as it became active, not counting an open that was interrupted in between or is there now. |
| ReviewSession.UnrecordedRun | packages/core/src/core-review-session-rpc-admission.ts:116-129 | A concrete run in which a session is recorded disposed that was never recorded opened. |
| ReviewSession.OpenRunLeaves | packages/core/src/core-review-session-rpc-handlers.ts:72-107 | Whatever happened before, an open, interrupted after any number of its steps, refused, or neither, leaves exactly this: which session is active, which one the repository holds, and which records were added. |
| ReviewSession.ReviewService.constructor | packages/core/src/core-review-session-rpc-handlers.ts:66-70 | Nothing is active at first. |
| ReviewSession.ReviewService.Open | packages/core/src/core-review-session-rpc-handlers.ts:72-107 | An open succeeds exactly when it is neither refused nor interrupted, with a ready session of the requesting process at version 1, named after the request, that is then active and held; in every case it leaves what the run of its steps leaves. |
| ReviewSession.ReviewService.Current | packages/core/src/core-review-session-rpc-handlers.ts:109-114 | Between any two steps of a locked section, reading answers with the active session for exactly its identity, and says invalid or superseded otherwise. |
| ReviewSession.ReviewService.Close | packages/core/src/core-review-session-rpc-handlers.ts:116-162 | Closing says invalid without a session, answers with the disposed state for its old and its new version, disposes the ready session at the next version if the repository held it, with one record, and otherwise says superseded and changes nothing. |
| ProviderRegistry.BuildRegistry | packages/agent-provider/src/registry.ts:81-120 | The registry is built exactly when no id repeats and every manifest agrees with its implementations, and then finds each registration by its id; otherwise the first objection is the error. |
| ProviderRegistry.AutomaticOrderSorts | packages/agent-provider/src/registry.ts:126-139 | The automatic order is a rearrangement of the eligible providers, sorted by priority and then by id. |
| ProviderRegistry.EligibleExactly | packages/agent-provider/src/registry.ts:130-135 | Eligible are exactly the providers that support the capability and give it a priority. |
| ProviderRegistry.RegistrationOrderIsIrrelevant | packages/agent-provider/src/registry.ts:126-139 | Where the locale tells the ids apart, the order of registration makes no difference. |
| ProviderRegistry.AutomaticOrder | packages/agent-provider/src/registry.ts:126-139 | On a registry so built automatic routing is offered exactly the eligible providers, in priority order, none dropped; there is no provider exactly when none is eligible. |
| ProviderRegistry.CandidatesExactly | packages/agent-provider/src/registry.ts:126-139 | Automatic routing is offered exactly the registrations that support the capability and give it a priority, lower priority values first and then by the locale; there is no provider exactly when there is no such registration. |
| WalkthroughRouting.CandidateWalks | packages/agents/src/walkthrough.ts:359-379 | Trying a model, and once more after unusable output, is a walk over its first and second slot of the flat plan, and its result is what the trace amounts to. |
| WalkthroughRouting.ModelsWalk | packages/agents/src/walkthrough.ts:381-406 | The recursion over the models of a provider is a walk over the flat list of first and second tries. |
| WalkthroughRouting.ProviderWalks | packages/agents/src/walkthrough.ts:343-409 | So is trying a provider; its readiness errors do not count for the result. |
| WalkthroughRouting.AutomaticIsFlat | packages/agents/src/walkthrough.ts:411-445 | Automatic routing, nested three deep, is one walk over a flat plan for every behaviour of probes and models; the result is the walkthrough that ended it, otherwise the last error that was not about readiness, otherwise that there is no provider. |
| WalkthroughRouting.AutomaticIsOrderly | packages/agents/src/walkthrough.ts:359-431 | Candidates and catalog models are tried in order, each model at most twice, the second time only directly after unusable output, and nothing is tried after a walkthrough. |
| WalkthroughRouting.AutomaticTriesEverything | packages/agents/src/walkthrough.ts:411-431 | Automatic routing fails only after asking every provider and failing on every model of every ready one. |
| WalkthroughRouting.AutomaticIsFaithful | packages/agents/src/walkthrough.ts:343-486 | In automatic routing every try is of a model of that candidate whose catalog entry writes walkthroughs and has the quality asked for, the m-th try of the m-th such entry, and its answer is what the outside world answers for that model then; a model is tried again at once exactly after an invalid response, a generation error or a validation error. When routing fails, every provider was asked, and every such model of every ready one was tried and failed. |
| WalkthroughRouting.PinnedModels | packages/agents/src/walkthrough.ts:466-486 | A pinned route has no model to try exactly if the catalog has no entry that writes walkthroughs and is the pinned or the default one. |
| WalkthroughRouting.PinnedTouchesOneModel | packages/agents/src/walkthrough.ts:433-442 | A pinned route touches one provider and one model of it, the pinned or the default one, at most twice. |
| WalkthroughCoverage.AliasMap | packages/agents/src/walkthrough.ts:554-557 | Every short name of the prompt stands for its own hunk, and nothing else has a name. |
| WalkthroughCoverage.AliasInjective | packages/domain/src/walkthrough.ts:780 | Short names do not collide with each other. |
| WalkthroughCoverage.AliasReads | packages/domain/src/walkthrough.ts:780 | A short name is an `h` and the number of the hunk, counted from one. |
| WalkthroughCoverage.AliasHasNoColon | packages/domain/src/walkthrough.ts:776-780 | Nor does one collide with a hunk id. |
| WalkthroughCoverage.AliasesExpand | packages/agents/src/walkthrough.ts:855-861 | An answer in short names means the hunks the names were given out for, in place; hunk ids, which contain a colon, stay what they are, and expanding again changes nothing. |
| WalkthroughCoverage.Coverage.ReadId | packages/domain/src/walkthrough.ts:760-772 | Reading an id keeps the record right: there is no defect so far exactly if every id read is known and none was read twice, and no part was empty. |
| WalkthroughCoverage.Coverage.ReadStop | packages/domain/src/walkthrough.ts:748-773 | Reading a stop reads its ids in order and keeps the record right, an empty stop counting as a defect. |
| WalkthroughCoverage.ProperExactly | packages/domain/src/walkthrough.ts:677-740 | Counted over all stops and support items, what is accepted has chapters, stops in each, hunks in each, and names only known hunks, none more than once. |
| WalkthroughCoverage.ValidateCoverage | packages/domain/src/walkthrough.ts:677-740 | A walkthrough is accepted exactly when it is complete in that sense; what comes out names every hunk of the digest exactly once, keeps what it said, and lists what it left out in one more support item, `Other changes`, in the order of the digest. |
| WalkthroughCoverage.EveryHunkOnce | packages/domain/src/walkthrough.ts:677-740 | An accepted walkthrough places every hunk of the digest, each exactly once. |
| WalkthroughCoverage.PromptReviewFiles | packages/agents/src/walkthrough.ts:798-827 | Each path of the digest is listed once, in order of appearance, with the lines of all its hunks and the status of its last file. |
| WalkthroughCoverage.PathsInOrder | packages/agents/src/walkthrough.ts:798-827 | Each path is listed once, in the order in which the paths first appear in the digest. |
| WalkthroughCoverage.LinesOfConcat | packages/agents/src/walkthrough.ts:804-814 | The lines counted for a path are the sums over its hunks. |
| WalkthroughCoverage.StatusExactly | packages/agents/src/walkthrough.ts:803 | The status of a path is that of the last file with it, or `modified` if there is none. |
| WalkthroughCoverage.LinesAreConserved | packages/agents/src/walkthrough.ts:798-827 | No added or deleted line is lost or counted twice. |
| PercentEncoding.EscapedIsTaken | packages/cloud/src/cloud-review-route.ts:83-91 | The escaped UTF-8 bytes of any character read back as that character. |
| PercentEncoding.DecodeUndoesEncode | packages/cloud/src/cloud-review-route.ts:83-91 | Decoding undoes encoding for every text, whatever follows it. |
| PercentEncoding.EncodeExactly | packages/cloud/src/cloud-review-route.ts:83-91 | A character is kept if it is a letter, a digit or one of `-_.!~*'()`, and otherwise written as the bytes of its UTF-8 form, each as a percent sign and two upper-case hexadecimal digits. |
| PercentEncoding.DecodeExactly | packages/cloud/src/cloud-review-route.ts:44-45 | A text decodes to exactly the characters it spells: every character but a percent sign stands for itself, and a percent sign starts the escaped bytes of the shortest UTF-8 form of one character, in digits of either case. |
| PercentEncoding.ByteLengthExactly | packages/domain/src/utf8.ts:3-6 | Lengths are counted in UTF-8 bytes. |
| PercentEncoding.EncodeIsPlain | packages/cloud/src/cloud-review-route.ts:83-91 | An encoded component contains no slash and no line end. |
| ReviewRoute.HashIsRevision | packages/domain/src/repository-comparison-ref.ts:5-29 | Every commit hash is an acceptable revision. |
| ReviewRoute.RevisionExactly | packages/domain/src/repository-comparison-ref.ts:5-29 | A revision is acceptable exactly if it has one to 255 code units, is not `@`, does not start with a hyphen, does not end in a dot or slash, has no double dot, double slash or `@{`, no component that starts with a dot or ends in `.lock`, and no forbidden character. |
| ReviewRoute.OwnerExactly | packages/domain/src/git-provider.ts:32-35 | A namespace is acceptable exactly if it consists of names separated by single slashes. |
| ReviewRoute.RevisionsSplit | packages/domain/src/repository-comparison-ref.ts:5-29 | Two acceptable revisions joined by three dots come apart at those dots and nowhere else. |
| ReviewRoute.PathSegments | packages/cloud/src/cloud-review-route.ts:41 | A written path comes apart into the components and the tail it was written from. |
| ReviewRoute.RoundTripsExactly | packages/cloud/src/cloud-review-route.ts:38-91 | Writing a valid route and parsing the path gives the route back if and only if its owner is a single segment and a commit is named by its hash; any other valid route is written as a path that is refused. |
| ReviewRoute.FormatExactly | packages/cloud/src/cloud-review-route.ts:83-91 | The path written for every kind of route, character by character. |
| ReviewRoute.ParseExactly | packages/cloud/src/cloud-review-route.ts:38-80 | A path is accepted for a route if and only if its characters say so: owner and repository as single percent-encoded names, then nothing or `pulls`, a pull request with its number and view, a commit with 7 to 40 hexadecimal digits, or two revisions joined by three dots, and at most one slash at the end that does not matter. |
| ReviewRoute.ParseIsNameable | packages/cloud/src/cloud-review-route.ts:38-80 | Whatever path is accepted, its route is valid and can be written as a path of its own. |
| ReviewRoute.CanonicalPath | packages/cloud/src/cloud-review-route.ts:38-91 | Parsing, writing and parsing again gives the same route, for every accepted path. |
| CloudNavigation.PublishedPathsReopen | packages/cloud/src/cloud-navigation.ts:136-163 | The path of a location opens the route of that location, and locations share a path only if they share a route. |
| CloudNavigation.PathExactly | packages/cloud/src/cloud-navigation.ts:136-163 | The address of every kind of location, written out; only home and what is on GitHub has one. |
| CloudNavigation.Navigation.constructor | packages/cloud/src/cloud-navigation.ts:40-43 | At first nothing is loading, ready or recorded. |
| CloudNavigation.Navigation.Load | packages/cloud/src/cloud-navigation.ts:86-89 | A load takes a new generation and clears readiness. |
| CloudNavigation.Navigation.Resolve | packages/cloud/src/cloud-navigation.ts:90-115 | A load that is not the newest has no effect; the newest navigates, during which the application may publish, start loads and end the subscription, and is then reported shown, with the path navigated to, if the application took the location, and as failed only if nothing superseded it meanwhile. |
| CloudNavigation.Navigation.Reject | packages/cloud/src/cloud-navigation.ts:104-115 | A failure is reported exactly if the load is still the newest. |
| CloudNavigation.Navigation.Perform | packages/cloud/src/cloud-navigation.ts:94-100 | Of what the application does while a location is being applied, publications go nowhere; loads and the end of the subscription take effect. |
| CloudNavigation.Navigation.Publish | packages/cloud/src/cloud-navigation.ts:126-132 | A push happens exactly when nothing is being applied, a location is shown, it has a path and the path is not the one last recorded. |
| CloudNavigation.Navigation.Unsubscribe | packages/cloud/src/cloud-navigation.ts:121-124 | Ending the subscription leaves no load the newest one, so that none still pending navigates. |
| CloudNavigation.LatestWins | packages/cloud/src/cloud-navigation.ts:86-115 | In everything the outside ever sees, what navigates or fails is the load started last, with the subscription still on. What is reported shown was that when it navigated, and still is if and only if the application neither started a load nor ended the subscription while navigating. |
| CloudNavigation.ShownAfterTheEnd | packages/cloud/src/cloud-navigation.ts:92-107 | For every location, a run in which the application ends the subscription while navigating and is then told that the location is shown. |
| CodexStream.NamedThreadExactly | packages/agent-provider-codex/src/codex.ts:518-520 | A thread has a name exactly if its id is more than the white space that trimming removes. |
| CodexStream.CodexTurn.Consume | packages/agent-provider-codex/src/codex.ts:497-597 | An event is refused exactly when it does not fit the stage of the turn: for a file change during a turn as a policy violation, for an error event or a failed turn in progress as a failure of the provider, and otherwise as an invalid response. |
| CodexStream.MisfitDecides | packages/agent-provider-codex/src/codex.ts:497-597 | After the first event that does not fit, nothing that follows can make the stream acceptable. |
| CodexStream.SelectFinal | packages/agent-provider-codex/src/codex.ts:1012-1018 | The message with the greatest sequence number, the first of equals. |
| CodexStream.ExecuteReview | packages/agent-provider-codex/src/codex.ts:443-462 | A stream is accepted if and only if its known events are one named thread start, one turn start, items none of which changes a file and whose completed messages have text, and one turn completion; the answer is the text of the last completed message. A policy violation is reported exactly for a file change in a turn good so far, and a failure of the provider exactly for one reported after a good beginning. |
| DirectoryBytes.CountBytes | packages/core/src/agent-workspace-resources.ts:266-284 | The worklist ends with the recursive sum of all entry sizes, and fails exactly when that sum is past the safe integers. |
| DirectoryBytes.TotalExactly | packages/core/src/agent-workspace-resources.ts:269-282 | A file and an empty directory count their own size, and an entry adds its total to that of its directory. |
| DirectoryBytes.OrderIsIrrelevant | packages/core/src/agent-workspace-resources.ts:277-282 | Trees whose directories, at any depth, list the same entries in different orders have the same size. |
| DirectoryBytes.RearrangedIsSame | packages/core/src/agent-workspace-resources.ts:277-282 | Every rearrangement of the entries of a directory gives the same tree in that sense. |

## Left out

- DiffStream.Stream: does not model the abort signal, the worker's own error events, byte decoding (`received` are decoded chunks) or releasing the reader.
- DiffWorker.Worker.Handle: a message that does not decode is not modelled; the driver sends none.
- DomainDiff.StreamAgreesWithDomainParser: what a file holds besides the lines of its group (paths, status, hunks, hashes) is a parameter.
- CloudInventory.FollowPages: calls do not overlap; two pages requested at once can read the stream twice, which the model does not capture, nor closing the session meanwhile.
- ThreadPrompt.BuildReviewThreadPrompt: wording is a parameter (the static part, and how the JSON of inventory, message, anchor and artifact is spelled); what is selected, sorted and cut is modelled.
- ProviderJson.ProviderJsonContent: object graphs are plain records and arrays; `toJSON`, getters, proxies and lone surrogates are not modelled, and a number carries its own JSON text. Parsing fenced provider JSON would only add easy members.
- CoreHost.HostSafety: runs on values, one step for each atomic update, signal, acquisition and release, so update in place is not captured there (`CoreLifecycle` has the fields); an interruption from outside the runner, a failing release and an initialization that interrupts itself are not modelled, and interruptions may come later here than the runtime would deliver them.
- CommandCoordinator.RunKeepsSound: runs on values; timestamps, queries, the listing of unacknowledged commands and workers interrupted when their scope closes are not modelled, and every store operation is one transaction.
- EventHub.EventHub.Publish: timestamps, the live stream beside replay and the delivery seam meant for fault injection are not modelled; capacities are whole numbers.
- EventHost.Host.Poll: only the cursor and the delivered hints; turning hints into bridge messages is not modelled.
- ReviewSession.ReviewService.Open: whether the repository refuses an open (a snapshot missing or owned by another project) and when an open is interrupted are parameters; calls with a malformed identity are not modelled, because the identities here are built from decoded requests; admission checks the process only, and ranges, targets and search are not modelled.
- ProviderRegistry.RegistrationOrderIsIrrelevant: the locale's comparison of ids is a parameter, and priorities are real numbers, so a priority that is not a number is not modelled.
- WalkthroughRouting.AutomaticIsFlat: probes and executions answer from the trace so far; building the prompt, extracting JSON from the output and decoding it are part of an execution, and error texts are left out.
- WalkthroughCoverage.ValidateCoverage: counts defects instead of wording them, and leaves out ids, titles and summaries that validation only copies.
- ReviewRoute.RoundTripsExactly: texts are Unicode scalar values, so lone surrogates are not modelled.
- CloudNavigation.Navigation.Resolve: resolving a route through GitHub and storage is the `location` that comes back, and error texts are left out; there is one subscriber, and it does nothing of its own when it is told the status.
- CodexStream.ExecuteReview: lines come decoded; artifacts, usage, the process around the stream and decoding the answer are not modelled.
- DirectoryBytes.CountBytes: the tree does not change during the walk, and failing file-system calls are not modelled.
- Web workers, fetch, IndexedDB, SQLite, git, the Effect runtime, RPC declarations, layers and policies: foreign I/O or declarative data.
- Failure-text classification and redaction, the Claude and OpenCode adapters, UI, analytics, scripts and build: no algorithm at the centre of the program.
