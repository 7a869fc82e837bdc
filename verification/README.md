# Models of OpenClaw's algorithms and protocols

This project models the parts of OpenClaw that decide something hard to get right, and proves what they promise.
`dafny verify dfyconfig.toml` checks all of it.

- **Import cycles** (`Graphs`, `Sequences`, `Options`, `ImportCycles`). The walk that collects strongly connected
  components is a class whose methods push, pop and update the index and low-link maps as the recursive closure does. It
  lists exactly the classes of mutually reachable files that contain a cycle. The witness search then finds a simple cycle
  in each.
- **Active memory** (`ToggleLock`, `RecallCache`, `PromptPrefix`, `TextWords`, `StrippedWords`). The promise-chained lock
  and the read-modify-write of the toggle file are a state machine over all interleavings, with what the file says of each
  session. The recall cache is a class that is driven through whole runs and compared with an unbounded log of writes.
  Stripping keeps the words of every line outside the injected blocks, and stripping a printed block and the text after it
  gives what stripping the text gives.
- **Interface translation** (`TranslationBatches`, `BatchTranslator`, `Properties`, `TranslationTrees`,
  `TranslationRecords`, `TranslationSync`, `RpcClient`). Greedy batching, halving on timeouts, nested maps written in place
  through a cursor, the decision for every key with the files a run leaves behind, and the protocol of the client process.
- **Bedrock** (`DiscoveryCache`, `ConfigMigration`, `ConfigRecords`, `SharedRecords`, `SharedConfig`, `UnsafeSharing`,
  `SharedMerge`, `MigratedValues`). The single-flight cache over all interleavings, and the migration of the legacy
  settings, three times. As a function on values its properties are proved (`ConfigMigration`). As it runs, on objects
  changed in place of which no two fields share one, it computes that function (`ConfigRecords`). On heaps in which any
  record may be reached in several ways it is proved exactly when it leaves its input alone, and that it computes that
  function when the records it writes into are each reached once (the other modules).
- **Worker pools** (`WorkerPool`), **scanners and walkers** (`TopLevelScan`, `JpegDimensions`, `Utf16`, `ImportCopy`).

JavaScript code between two `await`s is one step of a state machine. File contents, clocks, prompts, replies, network
results and the order in which pending operations finish are parameters or free choices of a step, so the results hold
for all of them. `localeCompare` is any total preorder, and a total order where the text says so.

## What the code does not do as one might expect

- `readToggleStore` answers every read error with an empty store (`extensions/active-memory/index.ts:477-481`). The next
  write then drops the toggles of other sessions. `ToggleLock.FailedReadLosesToggle` gives such a run, and
  `ToggleLock.NoLostUpdateIff` says for every run exactly when nothing is lost.
- `resolveCommonAncestor` tests for `../` with a slash (`scripts/load-channel-config-surface.ts:151-157`), so the
  directory right above the package root is not recognised as outside. `ImportCopy.CommonAncestorIff` says exactly when
  the result is the deepest common directory all the same.
- The legacy discovery key is removed only when it holds a record (`ConfigMigration.LegacyKeyRemovedIff`).
- Fill bytes right in front of the frame header, which section B.1.1.2 of ITU-T T.81 allows, are taken for a marker with a
  length of at least 0xc000 by the JPEG walker, which ends there or, with fewer than 0xbc00 of them, jumps past the whole
  frame header (`JpegDimensions.FillBytesHideHeader`).
- When two explicit Bedrock settings share one record, the migration can write into the caller's legacy settings:
  `UnsafeSharing.SharedRecordChangesLegacy` gives such a configuration. `UnsafeSharing.InputSafeIff` says for all explicit
  settings that the input is left alone, whatever the legacy settings are, exactly when no record is reached from the
  explicit ones along two paths of names outside `BLOCKED_OBJECT_KEYS`. A configuration read from a file shares nothing.
- An end-of-work message is taken for the reply to whatever prompt is pending. `RpcClient.RepliesCreditedIff` says for every
  run that all replies go to their own prompts exactly when no usable end of another request arrives while one is pending;
  `RpcClient.SecondEndMisplaced` is a run in which one does.
- In `syncLocale` the force option never changes a value: a pending key that ends without a translation has no existing
  text to keep (`TranslationSync.AllFallBack`).

## Model

| member | source | states |
|---|---|---|
| ImportCycles.ComponentWalk.PopComponent | scripts/check-import-cycles.ts:184-193 | pops everything above the given stack position as one component and throws exactly when an empty name is among it |
| ImportCycles.ComponentWalk.Visit | scripts/check-import-cycles.ts:165-198 | from any consistent walk, visiting a node either finishes its whole class or leaves it on the stack below an older node it can reach; every finished cyclic class is listed once |
| ImportCycles.ComponentWalk.Retire | scripts/check-import-cycles.ts:184-197 | a node whose low link is its own index closes exactly its class, which is listed when it has several nodes or a self-edge |
| ImportCycles.SegmentIsClass | scripts/check-import-cycles.ts:181-193 | what lies above such a node on the stack is exactly one class of mutually reachable nodes |
| ImportCycles.SegmentCloses | scripts/check-import-cycles.ts:181-193 | no edge of that segment leads to the older stack: with the finished nodes it is closed |
| ImportCycles.ScanChild | scripts/check-import-cycles.ts:172-175 | taking over the low link of a visited successor keeps everything known about the node being scanned |
| ImportCycles.ScanStacked | scripts/check-import-cycles.ts:176-178 | taking over the index of a successor on the stack keeps everything known about the node being scanned |
| ImportCycles.LoneNodeOffCycle | scripts/check-import-cycles.ts:194-196 | a class of one node without a self-edge lies on no cycle, so leaving it out loses nothing |
| ImportCycles.FinishedListsClasses | scripts/check-import-cycles.ts:199-203 | when the outer loop ends, the list holds every class of mutually reachable nodes that contains a cycle, each once, disjoint and complete |
| ImportCycles.ReorderKeepsClasses | scripts/check-import-cycles.ts:204-207 | sorting the list changes nothing about what it lists |
| ImportCycles.CollectComponents | scripts/check-import-cycles.ts:155-208 | for every finite graph it throws exactly when an empty name occurs, and otherwise lists exactly the cyclic classes, each sorted, the largest first and equal sizes by their joined names |
| ImportCycles.WitnessSearch.Visit | scripts/check-import-cycles.ts:221-241 | a found path is a simple cycle inside the component; a search that finds none has exhausted everything it can reach there |
| ImportCycles.ClosedWithinClass | scripts/check-import-cycles.ts:210-243 | a set closed inside one class that meets it contains all of it, so an exhausted search is impossible |
| ImportCycles.FindCycleWitness | scripts/check-import-cycles.ts:210-243 | for every listed component the search succeeds, without the fallback, with a closed walk whose first node is its last, with no other repetition, inside the component |
| ImportCycles.CheckImportCycles | scripts/check-import-cycles.ts:253-277 | the exit code is zero exactly when no node lies on a cycle; otherwise every node on a cycle is covered by exactly one printed cycle, that of the largest component first |
| ImportCycles.ReportsCoverCycles | scripts/check-import-cycles.ts:262-276 | one real cycle per component covers every node on a cycle in exactly one report |
| ToggleLock.WrittenEffect | extensions/active-memory/index.ts:450-530 | reading back what a request wrote gives the earlier toggles with that request applied, blank session keys dropped |
| ToggleLock.RunInv | extensions/active-memory/index.ts:181-205 | in every interleaving each caller waits for the one before it, exactly the callers that left have released, and the file is the replay of the writes so far |
| ToggleLock.LockIsFair | extensions/active-memory/index.ts:181-205 | at most one task is inside the lock, and tasks enter in call order even when earlier ones throw |
| ToggleLock.LockNeverStuck | extensions/active-memory/index.ts:181-196 | as long as a caller has not left, some caller can take a step |
| ToggleLock.ToggleStoreReplays | extensions/active-memory/index.ts:484-530 | in every interleaving the stored toggles are the replay, in call order, of one request for each rename that happened, a failed read starting from nothing |
| ToggleLock.NoLostUpdateIff | extensions/active-memory/index.ts:450-530 | in every interleaving the file holds at all times the sequential application, in call order, of the requests that were renamed into place, if and only if every failed read met a store with no key but its own |
| ToggleLock.FileFollowsRequests | extensions/active-memory/index.ts:450-530 | in every interleaving, at all times and for every session, the file says it is switched off exactly when the last request renamed into place for it switched it off, or there is none and it was off at first, and no later request's read failed; the stored time is that request's |
| ToggleLock.LastRequestDecides | extensions/active-memory/index.ts:514-530 | when no read fails, the last request for a session decides alone whether it is switched off |
| ToggleLock.GoodReadsLoseNothing | extensions/active-memory/index.ts:514-530 | when no read fails, no update is lost, whatever the interleaving and whichever writes fail |
| ToggleLock.NothingLostStep | extensions/active-memory/index.ts:519-529 | one more request keeps that exactly when its read succeeded or was harmless |
| ToggleLock.FailedReadLosesToggle | extensions/active-memory/index.ts:477-481 | a run of two callers on a fresh file whose second read fails ends with the first session's toggle gone |
| RecallCache.Cache.GetCachedResult | extensions/active-memory/index.ts:940-950 | returns the entry unless it expired, and deletes an expired one |
| RecallCache.Cache.SweepExpiredCacheEntries | extensions/active-memory/index.ts:977-983 | keeps exactly the live entries, in order |
| RecallCache.Cache.SetCachedResult | extensions/active-memory/index.ts:952-975 | sweeps when due, moves the key to the end, and evicts the oldest entries down to the bound |
| RecallCache.WriteSweeps | extensions/active-memory/index.ts:952-983 | a write to a full cache, or a second after the last sweep, leaves no other expired entry |
| RecallCache.LookupDeletesExpired | extensions/active-memory/index.ts:940-950 | a lookup leaves no expired entry of its key, and every other entry |
| RecallCache.Play | extensions/active-memory/index.ts:940-983 | a cache that is called for any run of sets and gets ends in the state of that run, and its gets return the lookups of that run |
| RecallCache.ExecTracks | extensions/active-memory/index.ts:940-983 | after any run of sets and gets every entry is the latest write of its key, in write order |
| RecallCache.HitIsLatestWrite | extensions/active-memory/index.ts:940-950 | a hit is the latest write of that key, and it has not expired |
| RecallCache.CacheBounded | extensions/active-memory/index.ts:966-974 | with non-empty keys the cache never holds more than 1000 entries |
| RecallCache.FreshWriteSurvives | extensions/active-memory/index.ts:952-975 | a write survives its own call, whatever was in the cache: the next lookup of the key finds it as long as its lifetime lasts |
| RecallCache.EvictionLeavesNewerLive | extensions/active-memory/index.ts:952-975 | a write that pushes out a live entry leaves exactly 1000 live entries, all written later than it |
| RecallCache.MissingIsExcused | extensions/active-memory/index.ts:940-983 | on a clock that does not go back, a key is missing only when its latest write expired or 1000 other keys were written since |
| RecallCache.LookupRefinesLog | extensions/active-memory/index.ts:940-983 | every lookup gives what the unbounded write log gives, or nothing after 1000 other keys were written |
| PromptPrefix.EscapeIsOnePass | extensions/active-memory/index.ts:1309-1316 | the five replacements in turn equal one pass over the characters |
| PromptPrefix.EscapeXmlFaithful | extensions/active-memory/index.ts:1309-1316 | escaping can be undone, and leaves no angle bracket or quote |
| PromptPrefix.StripInjectedActiveMemoryPrefixOnly | extensions/active-memory/index.ts:1499-1528 | the loops drop exactly the injected blocks: header, opening tag, and everything up to the first closing tag |
| StrippedWords.StripKeepsTheRest | extensions/active-memory/index.ts:1499-1528 | for any text the result is the words of its lines outside the injected blocks, in order, joined by single spaces; a header without opening tag right after it, or without closing tag later, starts no block |
| StrippedWords.OrdinaryTextStays | extensions/active-memory/index.ts:1499-1528 | when no trimmed line is the header, the result is all words of the text joined by single spaces |
| StrippedWords.CollapsedWords | extensions/active-memory/index.ts:1527 | collapsing white space and trimming leaves the maximal runs without white space, joined by single spaces |
| PromptPrefix.NoForgedClose | extensions/active-memory/index.ts:1354-1363 | no line of an escaped summary can be taken for the closing tag |
| PromptPrefix.PrefixPrintedIff | extensions/active-memory/index.ts:1354-1371 | a prefix is printed exactly for a summary that is not empty |
| PromptPrefix.PrefixLines | extensions/active-memory/index.ts:1365-1371 | the printed block followed by a newline and the user's text splits into header, opening tag, summary lines, closing tag and the user's lines |
| PromptPrefix.BlockSkipped | extensions/active-memory/index.ts:1499-1528 | a printed block in front of other lines is skipped as a whole and nothing after it |
| PromptPrefix.StripUndoesPrefix | extensions/active-memory/index.ts:1354-1371 | printing any summary in front of any user text and stripping gives what stripping the user text gives |
| TranslationBatches.EstimateWithinBudget | scripts/control-ui-i18n.ts:499-501 | a batch of several items within the loop's limits stays below the budget by the estimate |
| TranslationBatches.EagerIsFewest | scripts/control-ui-i18n.ts:659-683 | batches that never could have taken the next item are no more than those of any split of the items within the limits |
| TranslationBatches.RefusedIff | scripts/control-ui-i18n.ts:666-669 | the loop's test refuses an item exactly when the open batch would leave the limits with it |
| TranslationBatches.AllowedIff | scripts/control-ui-i18n.ts:499-501 | the limits in numbers: up to 20 items, and several only when 2, the characters of keys and texts and 10 for each item stay within the budget |
| TranslationBatches.BuildTranslationBatches | scripts/control-ui-i18n.ts:659-683 | every item once and in order, at most 20 to a batch, several only within the budget, no batch that could have taken more, and the fewest batches of all such splits |
| BatchTranslator.PromptsBounded | scripts/control-ui-i18n.ts:925-987 | whatever fails or times out, a batch of n keys takes at most 4n - 2 prompts, an empty one 2 |
| BatchTranslator.PromptBoundReached | scripts/control-ui-i18n.ts:925-987 | for every batch there is a run that succeeds only after all 4n - 2 prompts |
| BatchTranslator.SuccessIsComplete | scripts/control-ui-i18n.ts:944-955 | on success there is a value for exactly the keys of the batch, none blank, each as some prompt of the run answered it for that key |
| BatchTranslator.FailureGivesUp | scripts/control-ui-i18n.ts:956-987 | an error leaves the batch only when the part last tried was at most one key that timed out, or failed twice running for another reason |
| BatchTranslator.FailureDecides | scripts/control-ui-i18n.ts:956-987 | a failure whose message says anywhere, in any case of letters, that it timed out makes a batch of several keys go on with its two halves, the first one no smaller, and ends a batch of one; after any other failure the batch is tried once more, and a second one ends it |
| BatchTranslator.ReplyDecides | scripts/control-ui-i18n.ts:944-955 | a reply with a value that is not blank for every key ends the batch at once with exactly these values; any other is refused with an error that names the first key without one |
| BatchTranslator.ReadReply | scripts/control-ui-i18n.ts:944-955 | the reading loop returns all values or reports the first key without a usable one |
| BatchTranslator.Prompter.TranslateBatch | scripts/control-ui-i18n.ts:925-987 | the retry loop with its recursive halving computes the specified outcome, so it has the bound, the completeness, the failure cause and the decisions above |
| TranslationTrees.FlattenDots | scripts/control-ui-i18n.ts:281-291 | for non-empty dot-free names flattening lists every text once, in order, under its names joined by dots |
| TranslationTrees.RebuildFlattened | scripts/control-ui-i18n.ts:281-308 | setting every flattened key in an empty map rebuilds the map, order included, but for records without texts |
| TranslationTrees.FlattenRebuilt | scripts/control-ui-i18n.ts:281-308 | writing any texts under the keys of a flattened map and flattening the result gives these texts back in order |
| TranslationTrees.SetAllLeaves | scripts/control-ui-i18n.ts:293-308 | setting the paths of a map one after the other appends the map to what is there |
| TranslationTrees.SetPathSets | scripts/control-ui-i18n.ts:293-308 | after setting a path it leads to the text, whatever was there or on the way |
| TranslationTrees.SetPathKeeps | scripts/control-ui-i18n.ts:293-308 | every path beside it leads to what it led to |
| TranslationRecords.Record.SetPath | scripts/control-ui-i18n.ts:293-308 | the cursor's writes, in place on nested objects, set the path: missing records are created, texts on the way make room, all else stays |
| TranslationRecords.Record.SetInside | scripts/control-ui-i18n.ts:296-306 | moving the cursor into an existing record changes what that record stands for and nothing beside it |
| TranslationRecords.Record.SetNestedValue | scripts/control-ui-i18n.ts:293-308 | a dotted key is set at the path its pieces name |
| TranslationRecords.Record.FlattenTranslations | scripts/control-ui-i18n.ts:281-291 | the recursive loop over a nested object flattens what it stands for |
| TranslationSync.DecideKeys | scripts/control-ui-i18n.ts:1021-1050 | the first loop settles exactly the keys that are cached or present and not to be refreshed, the cached ones with the cached text, and collects the others in order |
| TranslationSync.StoreBatch | scripts/control-ui-i18n.ts:1082-1102 | every item of a translated batch has its answer in the map and in the memory, and nothing else changes |
| TranslationSync.TranslatePending | scripts/control-ui-i18n.ts:1052-1105 | the prompts are those of the fewest batches the pending keys can be cut into, one batch after the other, at most four per key; without failure the answers are for exactly the pending keys, none blank, each given by a prompt of the run for that key, and a failure comes from a part of the keys that gave up |
| TranslationSync.FillFallbacks | scripts/control-ui-i18n.ts:1114-1128 | the third loop fills in existing or source texts in order and records the fallback keys |
| TranslationSync.NothingToFill | scripts/control-ui-i18n.ts:1114-1128 | after a translation run that ends there is nothing to fill in |
| TranslationSync.AllFallBack | scripts/control-ui-i18n.ts:1114-1128 | without a provider every pending key takes its source text and is listed, forced or not |
| TranslationSync.BuildTexts | scripts/control-ui-i18n.ts:1135-1138 | the written map is rebuilt from the value of every source key |
| TranslationSync.SyncLocale | scripts/control-ui-i18n.ts:996-1167 | a run that ends brings every source key its remembered translation, or else its present text, unless a provider refreshes it as an old fallback; or else, with a provider, the answer of a prompt, which is remembered, and without one the source text; a run in which every key is known sends no prompt, and only keys that gave up make a run fail |
| TranslationSync.RunBrings | scripts/control-ui-i18n.ts:1021-1138 | the same for one key, in terms of the source, the files before and the files after the run |
| TranslationSync.MemoryBeside | scripts/control-ui-i18n.ts:1082-1102 | the memory keeps its entries for all other cache keys and gets none |
| TranslationSync.RunReports | scripts/control-ui-i18n.ts:1140-1167 | the metadata holds the configured provider and model, or without a provider the previous ones, the counts, in order and once each the keys whose text is a fallback, and the time of the last run that changed any of it |
| TranslationSync.EveryKeyHasText | scripts/control-ui-i18n.ts:1135-1138 | after a run the locale has a text for every source key, in source order, and for no other key |
| TranslationSync.ProviderLeavesNoFallbacks | scripts/control-ui-i18n.ts:1021-1146 | a run with a provider that ends leaves an empty fallback list and counts all keys as translated |
| TranslationSync.SecondRunChangesNothing | scripts/control-ui-i18n.ts:996-1167 | a second run over what the first one wrote, at any time and with any answers, leaves texts, metadata and memory as they are and has nothing to translate |
| TranslationSync.ListsUnique | scripts/control-ui-i18n.ts:1144-1146 | the sorted fallback list depends on the set of keys only |
| RpcClient.InvSteps | scripts/control-ui-i18n.ts:727-892 | every event keeps: only the last request is open, it is open exactly while the chain waits, fills the pending slot, and has its timer and heartbeat |
| RpcClient.OneOutstanding | scripts/control-ui-i18n.ts:814-878 | in every run at most one request is open, and the pending slot holds just that one |
| RpcClient.SlotNeverOverwritten | scripts/control-ui-i18n.ts:848-861 | whenever the next prompt can run, the slot is empty and every earlier prompt has settled |
| RpcClient.TimersFollowPrompts | scripts/control-ui-i18n.ts:826-861 | a settled prompt has neither timer nor heartbeat; an open one has both, and its timer settles it |
| RpcClient.NothingSentAfterFailure | scripts/control-ui-i18n.ts:814-878 | once a prompt has failed, sent or not, no request is sent any more, and no settled prompt changes its outcome |
| RpcClient.ClosedSendsNothing | scripts/control-ui-i18n.ts:815-818 | a closed client stays closed and sends nothing |
| RpcClient.TimeoutEndsClient | scripts/control-ui-i18n.ts:834-846 | a timer only fires for the open prompt, rejects it, and nothing is sent after it |
| RpcClient.StepSettles | scripts/control-ui-i18n.ts:727-892 | in every run each step keeps the outcome of a settled prompt, and settles the open one exactly for an unsuccessful response to it, an end of work (with its answers when usable), its timer, its failed write, or the failure or close of the process; a successful response, noise and a response to another request settle nothing |
| RpcClient.LinkSends | scripts/control-ui-i18n.ts:814-861 | only a link sends: nothing after a failed prompt or on a closed client, and otherwise one request, open, with timer and heartbeat and without a response |
| RpcClient.ClosedBy | scripts/control-ui-i18n.ts:743-748 | a client is closed by a timeout, the close of its process or a call of close, and by nothing else |
| RpcClient.ResponseNoted | scripts/control-ui-i18n.ts:784-797 | a response to the open prompt is noted exactly when it is successful |
| RpcClient.RepliesCreditedIff | scripts/control-ui-i18n.ts:766-812 | in every run each resolved prompt has the reply to its own request if and only if no usable end of another request was delivered while one was pending, which the branch does not test |
| RpcClient.NoReplyMisplaced | scripts/control-ui-i18n.ts:766-812 | so when the process ends each request at most once, a prompt that resolves has the reply to its own request, in every run |
| RpcClient.SecondEndMisplaced | scripts/control-ui-i18n.ts:799-809 | without that condition a run exists in which a reply is credited to the next prompt |
| RpcClient.PiRpcClient.Handle | scripts/control-ui-i18n.ts:727-892 | the callback of every event of the protocol keeps the client valid and has that event's effect |
| RpcClient.Play | scripts/control-ui-i18n.ts:685-892 | a client called back for the events of any run is valid and ends in the state of that run |
| RpcClient.PiRpcClient.HandleStdoutLine | scripts/control-ui-i18n.ts:766-812 | a line changes the client as its event in the protocol says |
| RpcClient.PiRpcClient.HandleTimeout | scripts/control-ui-i18n.ts:834-846 | a fired timer changes the client as its event in the protocol says |
| RpcClient.PiRpcClient.HandleWritten | scripts/control-ui-i18n.ts:863-875 | the write callback changes the client as its event in the protocol says, late errors included |
| RpcClient.PiRpcClient.HandleClose | scripts/control-ui-i18n.ts:743-748 | the close of the process closes the client and rejects the pending prompt, if any |
| RpcClient.PiRpcClient.RunPrompt | scripts/control-ui-i18n.ts:814-861 | a link of the chain is skipped after a rejection, refused when closed, and otherwise sends the next request |
| DiscoveryCache.RunInv | extensions/amazon-bedrock/discovery.ts:309-429 | in every interleaving the cache follows the history of discoveries, one at a time per key, and every answer is honest |
| DiscoveryCache.AtMostOneRunning | extensions/amazon-bedrock/discovery.ts:327-339 | with a positive refresh interval at most one discovery per cache key is running |
| DiscoveryCache.CacheIsSequential | extensions/amazon-bedrock/discovery.ts:401-428 | the cache entry of a key is decided by its latest discovery alone; a failed one leaves none |
| DiscoveryCache.ServedModelsAreRecent | extensions/amazon-bedrock/discovery.ts:329-339 | models served from the cache came from a discovery for that key started less than the refresh interval before |
| DiscoveryCache.CallUsesLatest | extensions/amazon-bedrock/discovery.ts:329-411 | a call starts a discovery, and waits for that one, exactly when the latest one for its key is neither running nor a recent success, and otherwise is answered by the latest one |
| DiscoveryCache.UncachedCallStarts | extensions/amazon-bedrock/discovery.ts:329-411 | without a refresh interval every call starts a discovery of its own and nothing is cached |
| ConfigMigration.MigrateIdempotent | extensions/amazon-bedrock/config-compat.ts:62-107 | no legacy record remains, and migrating twice is migrating once |
| ConfigMigration.LegacyKeyRemovedIff | extensions/amazon-bedrock/config-compat.ts:47-76 | the legacy key is still there exactly when it was set and held no record |
| ConfigMigration.NonRecordLegacyStays | extensions/amazon-bedrock/config-compat.ts:47-53 | a legacy key that holds something else than a record stays |
| ConfigMigration.ModelsRecordStaysIff | extensions/amazon-bedrock/config-compat.ts:55-60 | with a legacy record the models record stays exactly when it holds something else |
| ConfigMigration.EmptyLegacyOnlyRemoved | extensions/amazon-bedrock/config-compat.ts:78-82 | empty legacy settings are only removed; every path beside the legacy key holds what it held |
| ConfigMigration.MigrateKeepsTheRest | extensions/amazon-bedrock/config-compat.ts:62-107 | at every path beside the legacy key and beside the discovery settings the migrated configuration holds what the original holds there |
| ConfigMigration.WriteAtKeeps | extensions/amazon-bedrock/config-compat.ts:83-97 | ensuring the records of a path and writing below them leaves every path beside it as it was |
| ConfigMigration.MigrateMergesDiscovery | extensions/amazon-bedrock/config-compat.ts:82-97 | the migrated discovery record is the merge of explicit and legacy settings, or the legacy ones where there were no explicit ones |
| ConfigMigration.MigratedAtPath | extensions/amazon-bedrock/config-compat.ts:62-107 | at every path of the migrated discovery settings: the legacy value without explicit settings; with them the explicit value where set and elsewhere the legacy value, exactly when no blocked name and no explicit non-record stands in the way |
| ConfigMigration.MergeAtPath | extensions/amazon-bedrock/config-compat.ts:27-41 | at every path: a set explicit value stays; an unset one takes the legacy value exactly when no blocked name and no explicit non-record stands in the way |
| ConfigMigration.SpecialNamesNotFilled | extensions/amazon-bedrock/config-compat.ts:27-35 | merging fills in no field under a blocked name or under the name of a method every object inherits |
| ConfigRecords.ConfigRecord.MergeMissing | extensions/amazon-bedrock/config-compat.ts:27-41 | the recursive loop, writing into shared nested records, merges what target and source stand for; the source is untouched |
| ConfigRecords.ConfigRecord.StructuredClone | extensions/amazon-bedrock/config-compat.ts:73 | the clone stands for the same settings and shares no record with the original |
| ConfigRecords.ConfigRecord.EnsureRecord | extensions/amazon-bedrock/config-compat.ts:17-25 | an existing record is handed out, anything else makes way for an empty one |
| ConfigRecords.ConfigRecord.RemoveLegacy | extensions/amazon-bedrock/config-compat.ts:74-76 | the legacy key goes, and the models record with it when that leaves it empty |
| ConfigRecords.ConfigRecord.WriteDiscovery | extensions/amazon-bedrock/config-compat.ts:78-97 | the records on the path are ensured and the discovery settings at its end filled from the legacy ones |
| ConfigRecords.MigrateLegacyConfig | extensions/amazon-bedrock/config-compat.ts:62-107 | computes the migration, changes no record that existed before, and returns new records and records of the legacy settings only |
| SharedRecords.MergeChanges | extensions/amazon-bedrock/config-compat.ts:27-41 | on any heap, when the source's names lead from the target to newer records than the source's, each along one path, merging changes only the target and what these names lead to |
| SharedRecords.MergeLeavesFirst | extensions/amazon-bedrock/config-compat.ts:27-41 | when no record is reached from the target along two paths and all are newer than the first `n`, merging leaves the first `n` records, the source among them, as they are, however they are shared and also when it runs out of stack |
| SharedConfig.InputUnchanged | extensions/amazon-bedrock/config-compat.ts:62-107 | when no record is reached from the explicit settings along two paths, the migration leaves every record that was there as it was, for all legacy settings and whatever else is shared |
| UnsafeSharing.TreeMerged | extensions/amazon-bedrock/config-compat.ts:27-41 | merging a tree whose two leaves end at one record of the target stores the first leaf there and then writes into it |
| UnsafeSharing.UnsafeConfiguration | extensions/amazon-bedrock/config-compat.ts:62-107 | for all explicit settings that reach a record along two paths there is a configuration with them whose migration ends and changes its input |
| UnsafeSharing.InputSafeIff | extensions/amazon-bedrock/config-compat.ts:62-107 | the migration leaves its input alone in every configuration with given explicit settings if and only if no record is reached from them along two paths |
| UnsafeSharing.SharedRecordChangesLegacy | extensions/amazon-bedrock/config-compat.ts:62-107 | a configuration of 13 records in which two explicit settings are one record, and whose migration writes into an empty record of its legacy settings |
| SharedMerge.MergeShows | extensions/amazon-bedrock/config-compat.ts:27-41 | when no record is reached from the target along two paths and none is the source's, merging gives the merge of the values both stand for, whatever the source shares |
| MigratedValues.CleanShows | extensions/amazon-bedrock/config-compat.ts:73-76 | the clone, sharing as the original does, stands for the configuration without its legacy key once that is deleted |
| MigratedValues.WriteShows | extensions/amazon-bedrock/config-compat.ts:78-97 | ensuring the path and writing at its end gives what the function on values says, also with shared records beside the path |
| MigratedValues.MigratedShows | extensions/amazon-bedrock/config-compat.ts:62-107 | when the records that the migration writes into are each reached along one path, the migrated configuration stands for the migrated value, whatever else is shared, and the stack suffices when the legacy settings are nested no deeper than it |
| WorkerPool.RunInv | scripts/check-temp-path-guardrails.ts:223-263 | in every interleaving indices are handed out once and in order, busy workers wait for different ones, and each step settles one |
| WorkerPool.PoolSafety | scripts/update-clawtributors.ts:490-506 | never more busy workers than started, no index handed out twice or skipped, at most as many steps as indices, and no deadlock |
| WorkerPool.PoolResult | scripts/update-clawtributors.ts:490-506 | a quiet pool without a rejection has called every mapper and holds the array of a sequential loop |
| WorkerPool.MapConcurrentResult | scripts/update-clawtributors.ts:490-506 | for every completion order the results are the mapped values in input order, each index mapped exactly once |
| WorkerPool.ReadRuntimeSourceFilesResult | scripts/check-temp-path-guardrails.ts:223-263 | for every completion order the files are those of a sequential loop, in path order, unreadable ones left out |
| WorkerPool.MapWorkers | scripts/update-clawtributors.ts:496-503 | at least one worker, at most the limit, and no more than items |
| TopLevelScan.QuoteScanState.ConsumeQuotedChar | scripts/check-temp-path-guardrails.ts:54-70 | consumes exactly the characters inside quotes, escapes and the closing mark included |
| TopLevelScan.QuotesReachTo | scripts/check-temp-path-guardrails.ts:46-70 | text is quoted from an opening mark up to the first such mark behind an even number of backslashes |
| TopLevelScan.FindMatchingParen | scripts/check-temp-path-guardrails.ts:72-95 | the first unquoted position where closing parentheses outnumber opening ones, or -1 when there is none |
| TopLevelScan.SplitTopLevelArguments | scripts/check-temp-path-guardrails.ts:97-162 | the results are the trimmed stretches between exactly the cuts, with only a blank last one dropped |
| TopLevelScan.CutIff | scripts/check-temp-path-guardrails.ts:97-162 | the cuts are exactly the commas outside quotes up to which no stretch of the text leaves a parenthesis, a bracket or a brace open |
| TopLevelScan.PiecesJoin | scripts/check-temp-path-guardrails.ts:97-162 | joined by commas the untrimmed segments are the source again |
| TopLevelScan.SliceQuotes | scripts/check-temp-path-guardrails.ts:189-194 | scanning the slice sees the quotes the parenthesis search saw |
| TopLevelScan.SliceParens | scripts/check-temp-path-guardrails.ts:189-194 | the splitter's parenthesis depth on the slice is the search's balance |
| TopLevelScan.SliceBalanced | scripts/check-temp-path-guardrails.ts:189-194 | on the slice the clamp at zero is never used, and the depth ends at zero |
| JpegDimensions.ReadJpegDimensions | scripts/update-clawtributors.ts:546-590 | stays in bounds and terminates on every buffer, with the result of the specified walk |
| JpegDimensions.WalkItem | scripts/update-clawtributors.ts:551-587 | the walk steps over exactly one well-formed segment, marker without length or byte of other data |
| JpegDimensions.WalkItems | scripts/update-clawtributors.ts:548-587 | the walk steps over any well-formed items as long as enough bytes follow |
| JpegDimensions.ReadsFrameHeader | scripts/update-clawtributors.ts:542-590 | for any start marker, well-formed other items, stray bytes among them, and a frame header, whatever follows, the header's width and height are returned |
| JpegDimensions.FoundInFrameHeader | scripts/update-clawtributors.ts:546-590 | on any bytes, dimensions that are returned were read from a frame header in the buffer |
| JpegDimensions.ReturnsFrameHeader | scripts/update-clawtributors.ts:572-584 | at a start-of-frame marker with a length of at least 7 that fits the buffer, its width and height are returned |
| JpegDimensions.StartMarkerIff | scripts/update-clawtributors.ts:542-544 | a file is taken for a JPEG file exactly when it has four bytes and starts with the SOI marker |
| JpegDimensions.FillBytesHideHeader | scripts/update-clawtributors.ts:548-590 | after any well-formed items and one or more fill bytes, whatever follows, the walk ends or jumps on by a length of at least 0xc000, past the whole frame header for fewer than 0xbc00 fill bytes, and what it returns then was read from a frame header behind the jump |
| Utf16.WellFormedIffPaired | src/utils.ts:80-86 | text is a concatenation of scalar values exactly when every surrogate has its partner beside it |
| Utf16.CutWellFormed | src/utils.ts:96-114 | a piece of well-formed text is well-formed exactly when neither cut splits a pair |
| Utf16.SliceUtf16Safe | src/utils.ts:88-115 | the widest piece of the plain slice that splits no pair, at most a unit shorter at each end, and well-formed when the input is |
| Utf16.BoundsMean | src/utils.ts:88-99 | the plain slice's bounds: counted from the start or, when negative, from the end, stopped at the ends of the text, and in order when they are crossed |
| Utf16.WholePartKept | src/utils.ts:88-115 | a middle part between cuts that split no pair is returned as it is |
| Utf16.TruncateUtf16Safe | src/utils.ts:117-123 | the longest prefix within the limit that splits no pair; on well-formed text the longest well-formed prefix |
| ImportCopy.CollectRelativeImportGraph | scripts/load-channel-config-surface.ts:117-144 | terminates on cyclic graphs with exactly the files reachable from the entry, each once, and fails exactly when one of them cannot be read |
| ImportCopy.StopsAt | scripts/load-channel-config-surface.ts:151-161 | the inner loop goes up exactly while the ancestor is longer than what it shares with the path |
| ImportCopy.ResolveCommonAncestor | scripts/load-channel-config-surface.ts:146-163 | the nested loops end at the prefix of the first path given by the shortest shared length |
| ImportCopy.CommonAncestorIff | scripts/load-channel-config-surface.ts:146-163 | that prefix is the deepest directory containing all paths if and only if every path right above the first is covered by one that leaves it no later |
| ImportCopy.CopyStaysInside | scripts/load-channel-config-surface.ts:165-192 | when no file is a prefix of the package root, every file is copied below the isolated root, different files to different places |
| ImportCopy.ParentMissed | scripts/load-channel-config-surface.ts:151-157 | for the directory right above the package root the result is the package root itself |
| JsText.BlankIffTrimmedEmpty | extensions/active-memory/index.ts:462-465 | a key is dropped by the test on its trimmed text exactly when it is nothing but white space |
| JsText.SplitJoin | scripts/control-ui-i18n.ts:284-294 | joining pieces free of the separator and splitting again is the identity |

## Left out

- File reading, subprocesses, HTTP, AWS clients, the language model and the TypeScript parser: their results are parameters.
- JSON parsing and printing, rendering and importing locale modules, regular expressions and SHA hashes: a file is what it
  stands for, and different dotted keys are assumed to have different cache keys.
- `localeCompare` beyond being a total preorder; the fixed point of `syncLocale` and its sorted list assume a total order.
- Integer-like property names, which JavaScript lists first: nested translation maps keep insertion order for all names.
- Inherited property names as segments of translation keys (`constructor`, `__proto__` and the like): a map has own entries only.
- The flags that only report or skip writing in `syncLocale`: the model's run ends with the files it would write.
- `TranslationRecords.Record.SetPath`: the cursor loop is written as a recursion on the remaining pieces, which moves the
  same cursor; `ConfigRecords.ConfigRecord.WriteDiscovery` likewise goes down its fixed path by recursion.
- `BatchTranslator.Prompter.TranslateBatch`: progress messages, delays between attempts and the replacement of the client
  after a failure; a prompt that cannot even create a client is one that fails.
- RpcClient.PiRpcClient.HandleTimeout: the signals sent to the process and the collected error output are not modelled.
- Iterating an object's fields in the migration is modelled in arbitrary order; arrays and other non-records are opaque.
- ConfigRecords.MigrateLegacyConfig: requires that no record of the configuration is reached twice, as in every parsed file.
  The same two results without that requirement are MigratedValues.MigratedShows and SharedConfig.InputUnchanged.
- MigratedValues.MigratedShows: what lies below names in `BLOCKED_OBJECT_KEYS` is not compared, and when a record that the
  migration writes into is also reached in another way, nothing is said about the values.
- Clones of records that the configuration does not reach: `SharedConfig.StructuredClone` copies the whole heap.
- The migration's change messages.
- The listing and sorting of Bedrock models, and what a caller that joined a failing discovery receives.
- `resetBedrockDiscoveryCacheForTest`, argument parsing, logging, prompt texts and plugin registration.
- Several processes on one toggle file, and the table of locks by path: one path is one lock.
- Windows drives and links in paths: a path is a sequence of names.
- Slice indices that are fractions or not numbers.
- PNG dimensions, release checks, benchmarks and the other scripts: single-branch logic.
