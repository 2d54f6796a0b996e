# Verified model of the CLI's shared protocols

The command line tool keeps several small protocols and algorithms in `cli/shared` and
`cli/devtools/ask_benchmark`. Their guarantees are stated in comments; this project states them as theorems about
a Dafny model of the same code and proves them for every input, every run or every interleaving. `dafny verify
dfyconfig.toml` checks the whole project.

Code that changes state is modelled as a class whose methods are proved against a specification function of the old
state; the theorems are then proved about that function, over whole runs. Pure code is modelled as functions. What
happens between two `await`s, or while a lock is held, is one atomic step. Clocks, keyrings, sockets, the SSH
configuration and codecs are parameters: every outcome they may have is considered.

| file | what it models |
|---|---|
| `MappingMerge.dfy` | the three-way merge of nested configuration mappings and the locked save built on it |
| `RunLog.dfy`, `RunRegistry.dfy`, `RegistryObject.dfy` | background runs: event log, drivers, subscribers, cancellation, eviction |
| `RunStory.dfy` | what each run's phase, log and status must be, from the list of actions alone |
| `JsonLines.dfy` | the append-only JSONL log with repair of a torn last record |
| `SecretStore.dfy` | secrets split over several keyring entries, under any failure of any keyring call |
| `Quotas.dfy`, `Selection.dfy` | largest-remainder apportionment and the stratified round-robin sample |
| `SqlLiterals.dfy`, `JsonPathMask.dfy` | finding the quoted literals of a SQL text, masking those that are JSON paths, and restoring them |
| `PromptValues.dfy`, `SlotFilling.dfy`, `SlotMisreading.dfy`, `MarkFilling.dfy`, `ParameterPrompt.dfy` | filling `$n` and `?` placeholders, and exactly when that goes wrong |
| `ErrorGate.dfy`, `TargetBackoff.dfy` | the error rate limiter and the retry backoff, over all runs of a clock |
| `Tunnels.dfy` | the bounded cache of SSH tunnels |
| `EnvNames.dfy` | fresh environment variable names for target passwords, and storing them |
| `IoDeadline.dfy`, `AnalysisLane.dfy` | the abort deadline on a block of database calls, and stopping an analysis run |
| `Text.dfy`, `Ordering.dfy`, `Wrappers.dfy` | decimal numerals and stripping, sorting, Option and Result |

## What the proofs found

The code is modelled as it is. Where a promise does not hold for every input, a lemma says exactly when it does.

- Two edits of one baseline commute for every latest file exactly when they do not conflict
  (`MappingMerge.CommuteExactlyWhenCompatible`).
- A short secret whose text is itself a valid chunk header is never read back (`SecretStore.ReadsBackExactlyWhenStorable`).
- Replacing one chunked secret by another is not atomic, although a comment in `_write` says that readers get the previous
  value whole until the header changes. It is atomic exactly when the new value is refused for its length, or the parts of
  the two values are equal in number and differ in at most one of them, or the parts of one are the first parts of the
  other (`SecretStore.ChunkedOverChunkedExactlyWhen`; two values it fails for: `SecretStore.TwoPartsTorn`).
- A header over missing chunks, which a clear whose head delete was lost leaves, makes it worse: a stopped write can read
  as the first parts of the new value where nothing was readable before (`SecretStore.MissingChunksTorn`).
  `SecretStore.WriteAtomicExactlyWhen` is the condition for every keyring.
- `clear_required` says in a comment that a session whose head cannot be read is deleted so that nothing restores it;
  it reports the secret as cleared, with the keyring still holding it, exactly in the case that
  `SecretStore.ReportedClearedButStillStored` gives.
- The same comment says that every chunk a long secret can have is deleted then; it is the first eight, of up to 64
  (`SecretStore.ClearedAfterLostRead`).
- Even when every keyring call answers, `clear_required` leaves chunk entries beyond the head's count, orphans of an
  earlier delete that was lost (`SecretStore.ClearedExactly`).
- A text with a stray sentinel is not restored (`JsonPathMask.RestoreUndoesMaskExactlyWhen`,
  `JsonPathMask.StraySentinelIsNotRestored`).
- Two touching slots, or a slot without a value, can be filled wrongly: `$1$20` when 10 has a value too
  (`ParameterPrompt.TouchingSlotsExample`), `$12` when 1 has one and 12 has none (`ParameterPrompt.MissingValueExample`).
  `SlotMisreading.FilledRightExactlyWhen` and `SlotMisreading.TouchingSlotsFilledExactlyWhen` say exactly when, for whole
  queries.
- A value for every `?` does not leave a query resolved: `has_unresolved_placeholders` takes a `$5` inside a quoted value
  for a slot (`MarkFilling.DollarValueUnresolved`). `MarkFilling.MarksResolvedExactlyWhen` says exactly which queries and
  values that happens to.
- A value filled in as a quoted literal reads, as SQL, as that value exactly when the next thing is no quote
  (`MarkFilling.MarkReadsBackExactlyWhen`, `SlotFilling.SlotReadsBackExactlyWhen`).
- A blank `password_env` is read as missing but never replaced (`EnvNames.BoundExactlyWhen`,
  `EnvNames.BlankNameNeverReplaced`).
- The error gate reads the clock before it takes its lock, so calls can come with readings out of order, and then a minute
  can hold more admissions than `per_minute`: three where two are allowed (`ErrorGate.UnorderedReadingsOverLimit`). The
  limit does hold of every minute shortened by as much as the readings are out of order (`ErrorGate.NoMinuteOverLimit`).
- The error gate bounds its table of admitted keys but not that of suppressed ones (`ErrorGate.TableBounded`,
  `ErrorGate.SuppressedUnbounded`).
- The error gate forgets the pending repeats of all keys, the admitted one included, when it empties its tables
  (`ErrorGate.EveryCallAccountedFor`, `ErrorGate.RepeatsReported`).

## Model

| member | source | states |
|---|---|---|
| MappingMerge.MergeMappingChanges | cli/shared/persistence.py:42-63 | the in-place loops, in whatever order they walk the keys, give the one mapping `Merge` whose every entry follows the three-way rule |
| MappingMerge.MergeOntoBaseline | cli/shared/persistence.py:42-63 | with no concurrent change the edited mapping itself results, at any nesting depth |
| MappingMerge.MergeWithoutChange | cli/shared/persistence.py:42-63 | an edit that changes nothing leaves the latest mapping alone |
| MappingMerge.MergeOntoItself | cli/shared/persistence.py:42-63 | an edit the latest mapping already holds is not disturbed |
| MappingMerge.MergeIdempotent | cli/shared/persistence.py:42-63 | applying the same edit twice is applying it once |
| MappingMerge.MergeAlongPath | cli/shared/persistence.py:42-63 | the value at any path: the first prefix the merge does not descend through decides whether everything below comes from latest or from the edit |
| MappingMerge.UntouchedPathKept | cli/shared/persistence.py:42-63 | a path the edit left as it was keeps its latest value, unless an ancestor was replaced whole |
| MappingMerge.CommuteExactlyWhenCompatible | cli/shared/persistence.py:42-63 | two edits of one baseline give the same mapping in either order, on every latest mapping, if and only if they do not conflict |
| MappingMerge.TomlFile.UpdateToml | cli/shared/persistence.py:157-181 | the locked transaction merges onto the file, or the baseline where there is none; a load, validation or write failure leaves the file as it was |
| MappingMerge.FirstSaveIsTheEdit | cli/shared/persistence.py:168-181 | where there is no file yet, exactly the edited mapping is written |
| MappingMerge.AnyOrderSameFile | cli/shared/persistence.py:157-181 | any number of writers with pairwise non-conflicting edits end in the same file in every order of the lock |
| MappingMerge.EveryEditKept | cli/shared/persistence.py:157-181 | no such writer's edit is lost: saving it again would change nothing |
| MappingMerge.EveryEditKeptAtPath | cli/shared/persistence.py:157-181 | wherever a writer changed a path to something that is no table, or removed it, the final file has what that writer wrote |
| RunLog.JudgedIncrementally | cli/shared/run_registry.py:287-322 | the driver's event-by-event status equals the verdict on the whole log: failed on a hard error, else partial on a cleanup error after a cache result, else done |
| RunLog.VerdictNeverImproves | cli/shared/run_registry.py:287-322 | later events never lower the severity of the outcome |
| RunRegistry.StepValid | cli/shared/run_registry.py:73-380 | every step of every actor keeps the invariants of the registry, of all handles and of all subscribers |
| RunRegistry.ReachableValid | cli/shared/run_registry.py:73-380 | those invariants hold after any interleaving of drivers, cancellers and subscribers |
| RunRegistry.ExactlyOnceReplay | cli/shared/run_registry.py:264-285 | a subscriber attached at any moment with after_seq k has received records k+1, k+2, ... in order, without gap or duplicate, and returns only with the complete log of a terminal run |
| RunRegistry.NoLostWakeup | cli/shared/run_registry.py:264-285 | no subscriber is left parked on an unresolved future while it has a record to receive or the run has ended; its next step delivers that record or returns |
| RunRegistry.RunLifecycle | cli/shared/run_registry.py:324-380 | sequence numbers are 1..n, a run is terminal exactly when its terminal record is written, that record is last and carries the status, and at most max_finished finished runs are kept |
| RunRegistry.TerminalIsForever | cli/shared/run_registry.py:324-370 | whatever happens later, the status and the log of a terminal run never change |
| RunRegistry.OutcomeFollowsTheLog | cli/shared/run_registry.py:287-370 | a terminal run has, for good, the verdict on its log if its generator was exhausted; one whose generator raised is failed, an interrupted one, even before its first step, cancelled |
| RunRegistry.EvictionSparesLiveRuns | cli/shared/run_registry.py:372-380 | no step but a reset removes a live run |
| RunRegistry.EvictedWithinCap | cli/shared/run_registry.py:372-380 | eviction brings the number of finished runs down to the cap and keeps every live run |
| RunRegistry.EvictedExactlyWhen | cli/shared/run_registry.py:372-380 | a listed run stays if and only if it is live or fewer than max_finished finished runs are listed behind it |
| RunRegistry.RunEndsCounted | cli/shared/run_registry.py:287-370 | in every interleaving a run's log holds one run_end record if the run is terminal and none if it is live, besides those its own generator yielded |
| RunRegistry.ExactlyOneRunEnd | cli/shared/run_registry.py:341-370 | so the registry's run_end is the only one if and only if the generator yielded none |
| RunStory.PhaseFollowsActions | cli/shared/run_registry.py:73-103 | in every interleaving a run is known once it was started, with the target and child error events of that start, and its task is where its own actions put it: cut off by a cancel before its first step, driving until its generator is left, closing, ended |
| RunStory.LogFollowsActions | cli/shared/run_registry.py:287-360 | in every interleaving the log of a run is, numbered from 1, the name and data of every event its generator yielded while it was driven, then error/RUN_FAILED if it raised, then run_end with the status if it has ended |
| RunStory.StatusFollowsActions | cli/shared/run_registry.py:287-347 | a live run waits for a key if and only if the last event it yielded is needs_key; one that has ended is cancelled if it was interrupted, failed if its generator raised, and otherwise has the outcome of the yielded events: failed on an error it does not isolate or an unsuccessful complete, partial if all such errors are cleanups after a cache result, else done |
| RunStory.SignalledExactlyWhen | cli/shared/run_registry.py:210-253 | in every interleaving a run's task has been signalled if and only if a cancel, a cancel of its target or a reset found it registered and live |
| RunStory.ListedByStart | cli/shared/run_registry.py:102-380 | the registry always lists its runs in the order they were started in, so the oldest are those started first |
| RunStory.SubscribedExactlyWhen | cli/shared/run_registry.py:264-276 | in every interleaving a subscriber is there if and only if it was attached to a run registered at that moment, and it stays with that run and after_seq |
| RegistryObject.RunRegistryObject.constructor | cli/shared/run_registry.py:69-71 | an empty registry with its cap |
| RegistryObject.RunRegistryObject.Start | cli/shared/run_registry.py:73-103 | the new run is scheduled, running, with an empty log; nothing else changes |
| RegistryObject.RunRegistryObject.Cancel | cli/shared/run_registry.py:210-218 | exactly a known live run is signalled, and the answer says so |
| RegistryObject.RunRegistryObject.CancelTarget | cli/shared/run_registry.py:227-238 | exactly the live runs of the target are signalled and counted |
| RegistryObject.RunRegistryObject.Reset | cli/shared/run_registry.py:240-253 | all live runs are signalled and counted, and all runs forgotten |
| RegistryObject.RunRegistryObject.Append | cli/shared/run_registry.py:349-360 | one record with the next number, the given name and data, every waiting future resolved, and nothing else |
| RegistryObject.RunRegistryObject.EvictFinished | cli/shared/run_registry.py:372-380 | deleting the listed runs one by one leaves what dropping the oldest finished runs leaves |
| RegistryObject.RunRegistryObject.Consume | cli/shared/run_registry.py:287-322 | one yielded event becomes the next record with its name and data, the run waits for a key exactly on needs_key, and a verdict on the log becomes the verdict on the longer one |
| RegistryObject.RunRegistryObject.Finish | cli/shared/run_registry.py:340-347 | the terminal status, its record and the eviction are one step |
| RegistryObject.RunRegistryObject.TerminalizeCancelledBeforeStart | cli/shared/run_registry.py:362-370 | a task cancelled before its first step is ended exactly once |
| RegistryObject.RunRegistryObject.NextRecord | cli/shared/run_registry.py:264-285 | one step of a subscription: deliver, return or park |
| JsonLines.LogFile.RepairTrailingRecord | cli/devtools/ask_benchmark/artifacts.py:214-229 | truncates an unreadable last line, completes a readable one with its newline |
| JsonLines.LogFile.Append | cli/devtools/ask_benchmark/artifacts.py:179-187 | repair, then any prefix of the record and its newline, wherever the process dies |
| JsonLines.LogFile.Load | cli/devtools/ask_benchmark/artifacts.py:190-207 | the loop returns the records of all lines, or the first error with its line number |
| JsonLines.LoadSucceedsExactlyWhen | cli/devtools/ask_benchmark/artifacts.py:190-207 | loading raises exactly when a line is neither blank nor an object nor an unreadable last line |
| JsonLines.FirstBadLineReported | cli/devtools/ask_benchmark/artifacts.py:190-207 | what loading raises is about the first bad line, by its number: unreadable, or no object |
| JsonLines.LoadedInOrder | cli/devtools/ask_benchmark/artifacts.py:190-207 | what loading returns are the objects of all lines, each in its place |
| JsonLines.SplitAtBreaks | cli/devtools/ask_benchmark/artifacts.py:193 | the lines of a text are what stands between its line breaks, of which CR LF is one |
| JsonLines.HistoryShape | cli/devtools/ask_benchmark/artifacts.py:179-229 | after any history of cut appends the file is the fully written records followed by at most one torn record or missing newline |
| JsonLines.LoadAfterAnyHistory | cli/devtools/ask_benchmark/artifacts.py:179-229 | after any history of appends, each cut at any point and repaired by the next, loading never raises and returns exactly the fully written records in order |
| JsonLines.RepairIdempotent | cli/devtools/ask_benchmark/artifacts.py:214-229 | a repair that is repeated changes nothing |
| SecretStore.HeaderDecodes | cli/shared/secret_store_service.py:31-38 | the header written for n chunks decodes as n |
| SecretStore.CountsChunksExactlyWhen | cli/shared/secret_store_service.py:28-38 | a stored text counts n chunks if and only if it is the header followed by a text that int reads as n, from 1 to 64 |
| SecretStore.ChunkNamesDistinct | cli/shared/secret_store_service.py:41-42 | no chunk entry is the head entry or another chunk entry |
| SecretStore.SplitJoins | cli/shared/secret_store_service.py:142-145 | the parts of a value join to the value |
| SecretStore.SuccessfulWriteReadsBack | cli/shared/secret_store_service.py:134-206 | a write that reports success is read back verbatim, whatever the keyring held and whichever deletes failed |
| SecretStore.ReadsBackExactlyWhenStorable | cli/shared/secret_store_service.py:31-206 | a value always reads back if and only if it is long or does not decode as a chunk header |
| SecretStore.LengthLimit | cli/shared/secret_store_service.py:134-156 | values over 64 full entries are refused untouched, all others are stored by a keyring that answers |
| SecretStore.WrittenExactly | cli/shared/secret_store_service.py:134-156 | with a keyring that answers, a write leaves exactly the chunk entries of the new value and those beyond the old head's count: what the old value had more is deleted |
| SecretStore.WriteAtomic | cli/shared/secret_store_service.py:134-156 | when the old or the new value fits one entry, stopping after any prefix of the calls, each of which may fail having taken effect or not, leaves the whole old or the whole new value, whatever chunks the keyring holds |
| SecretStore.StopAfterChunk | cli/shared/secret_store_service.py:148-156 | a write that stops after its j-th chunk, over whatever chunks the old header counts, reads as the first j new parts before the remaining old chunks, or as nothing when one of those is missing |
| SecretStore.ChunkedOverChunkedExactlyWhen | cli/shared/secret_store_service.py:134-156 | a long value over a held long value: every stop and every failure leaves the old or the new value if and only if the new one has over 64 parts, or the two have equally many parts and differ in at most one, or the parts of one are the first of the other |
| SecretStore.WriteAtomicExactlyWhen | cli/shared/secret_store_service.py:134-156 | on every keyring a write of any storable value is atomic if and only if the old entry counts no chunks, the value fits one entry or is refused, or: with no chunk missing, old and new text agree up to every seam of parts or from there on; with some missing, the new parts do not reach the last of those, or everything stored behind it is as in the new value |
| SecretStore.TwoPartsTorn | cli/shared/secret_store_service.py:148-156 | 1001 times `b` over 1001 times `a`: stopped after the first chunk the write reads as neither |
| SecretStore.MissingChunksTorn | cli/shared/secret_store_service.py:148-156 | a header over two missing chunks, and any new value of three parts: stopped after the second chunk the write reads as the first two parts |
| SecretStore.WriteFrame | cli/shared/secret_store_service.py:134-156 | no other secret is touched |
| SecretStore.ClearedHead | cli/shared/secret_store_service.py:239-287 | after clearing, the head survives exactly when it was there and the delete was lost without effect |
| SecretStore.ReportedClearedButStillStored | cli/shared/secret_store_service.py:239-287 | a name is reported cleared with its head still stored if and only if it was in the environment too and the keyring lost the read and the delete |
| SecretStore.ReportedExactly | cli/shared/secret_store_service.py:239-287 | a name is reported once: as an error if its head was read and the delete lost, else as cleared if it was in the environment or its head was read or deleted, else as missing |
| SecretStore.ClearedAfterLostRead | cli/shared/secret_store_service.py:239-287 | when the read of the head is lost and the deletes answer, the head goes, and exactly the chunk entries beyond the eighth are left |
| SecretStore.ClearedExactly | cli/shared/secret_store_service.py:239-287 | with a keyring that answers, a cleared secret reads as nothing, and exactly the chunk entries beyond the head's count are left |
| SecretStore.ClearedCompletelyExactlyWhen | cli/shared/secret_store_service.py:239-287 | so no chunk entry is left if and only if there was none beyond the head's count |
| SecretStore.ClearedFromEnvironment | cli/shared/secret_store_service.py:239-287 | none of the required names stays in the environment |
| SecretStore.Service.WriteSecret | cli/shared/secret_store_service.py:134-156 | the step-by-step write has the modelled effect on keyring, remaining calls and result |
| SecretStore.Service.ClearRequired | cli/shared/secret_store_service.py:239-287 | the loop clears and reports as modelled, name by name, skipping repeats |
| Quotas.ProportionalQuotas | cli/devtools/ask_benchmark/bird_dataset.py:324-333 | rounding down and raising the first groups of the remainder order gives the modelled quotas |
| Quotas.LeftoversGoToFractions | cli/devtools/ask_benchmark/bird_dataset.py:327-332 | the leftover is non-negative and no larger than the number of groups with a fraction, so the slice never reaches a group without one |
| Quotas.QuotasExactAndFeasible | cli/devtools/ask_benchmark/bird_dataset.py:324-333 | quotas sum to the size, each is the floor or ceiling of its exact share and fits its group, and larger fractions, then names, come first |
| Selection.GroupCases | cli/devtools/ask_benchmark/bird_dataset.py:184-186 | the grouping loop partitions the cases by key in first-seen order |
| Selection.RoundRobinGroups | cli/devtools/ask_benchmark/bird_dataset.py:336-355 | the loops end and return the first `size` cases of the concatenated rounds |
| Selection.DrawnRankedAndBalanced | cli/devtools/ask_benchmark/bird_dataset.py:336-355 | from every group the draw takes a prefix, and never two more from one group than from another with cases left |
| Selection.CanaryRanked | cli/devtools/ask_benchmark/bird_dataset.py:171-199 | within one difficulty and database every case in the sample ranks no later than every case left out |
| Selection.CanaryBalanced | cli/devtools/ask_benchmark/bird_dataset.py:171-199 | within one difficulty a database with cases left out is at most one case behind any other |
| Selection.CanaryEarlierFirst | cli/devtools/ask_benchmark/bird_dataset.py:336-355 | the odd cases of the last round go to the databases named first: one with cases left out is not behind any named later |
| Selection.ListedById | cli/devtools/ask_benchmark/bird_dataset.py:199-217 | sample and holdout are listed by question id |
| Selection.DrawnLength | cli/devtools/ask_benchmark/bird_dataset.py:336-355 | the draw has the asked-for size, or all cases when there are fewer |
| Selection.SelectCanary | cli/devtools/ask_benchmark/bird_dataset.py:171-199 | the whole selection and its three errors |
| Selection.CanaryHasRequestedSize | cli/devtools/ask_benchmark/bird_dataset.py:197-199 | the sample always has the requested size: the mismatch error is unreachable |
| Selection.CanaryStratified | cli/devtools/ask_benchmark/bird_dataset.py:171-199 | of every difficulty the sample holds exactly that difficulty's quota |
| Selection.CanaryWithinCases | cli/devtools/ask_benchmark/bird_dataset.py:171-199 | no case is in the sample more often than in the dataset, so distinct cases stay distinct |
| Selection.SelectHoldout | cli/devtools/ask_benchmark/bird_dataset.py:202-217 | the sorted rest, or the sample's error |
| Selection.CanaryAndHoldoutPartition | cli/devtools/ask_benchmark/bird_dataset.py:202-217 | with unique identifiers every case is in exactly one of sample and holdout |
| JsonPathMask.IsLaterJsonFunctionArgument | cli/shared/sql_json_paths.py:65-82 | the backward scan decides exactly whether the text ends inside the innermost open call of a JSON path function, past a comma of that call, with no statement end since |
| SqlLiterals.LiteralsFoundExactlyWhen | cli/shared/sql_json_paths.py:20-51 | every text has exactly one list of literals, the one found: each from a quote to the next quote of its kind, one after the other, and no quote outside them has a partner behind it |
| SqlLiterals.InLiteralExactlyWhen | cli/shared/sql_json_paths.py:20-51 | a character is in a literal if and only if, read from the left, a quote is open in front of it or it is a quote that has a partner |
| SqlLiterals.FollowsOperatorExactlyWhen | cli/shared/sql_json_paths.py:22-60 | an operator precedes if and only if the text in front ends in `->`, `->>`, `#>` or `#>>` and then spaces only |
| SqlLiterals.LastNameExactlyWhen | cli/shared/sql_json_paths.py:47-77 | the name of a call is the longest identifier that only spaces follow |
| JsonPathMask.IsPathExactlyWhen | cli/shared/sql_json_paths.py:54-82 | a literal is a path if and only if its body starts with `$`, or only spaces stand between it and a JSON operator, or it is a later argument of the innermost open call, whose name in lower case is that of a JSON path function |
| JsonPathMask.PathsAreKept | cli/shared/sql_json_paths.py:85-105 | whatever the literals of a text are, masking keeps exactly those of them that are paths, in their order, and the text between them |
| JsonPathMask.MaskJsonPaths | cli/shared/sql_json_paths.py:85-105 | the loop cuts the text at all of its path literals and at nothing else, keeps them in order and puts sentinels 1, 2, ... in their place |
| JsonPathMask.TextSurvivesExactlyWhen | cli/shared/sql_json_paths.py:102-103 | text in front of the rest comes through restoring unchanged if and only if no sentinel starts in it |
| JsonPathMask.RestoredExactlyWhen | cli/shared/sql_json_paths.py:102-103 | t0 s1 t1 ... sn tn restores to t0 k1 t1 ... kn tn if and only if no text holds a stray sentinel, for sentinels in any order, repeated or adjacent |
| JsonPathMask.NulFreeTextsHoldNoSentinel | cli/shared/sql_json_paths.py:102-103 | texts without NUL satisfy that condition, whatever else they hold |
| JsonPathMask.RestoreUndoesMaskExactlyWhen | cli/shared/sql_json_paths.py:85-105 | restore(mask(sql)) is sql if and only if the parts of sql outside its path literals hold no stray sentinel |
| JsonPathMask.RestoreUndoesMask | cli/shared/sql_json_paths.py:85-105 | restore(mask(sql)) is sql for every text without NUL |
| JsonPathMask.StraySentinelIsNotRestored | cli/shared/sql_json_paths.py:102-103 | a text that is one sentinel has nothing to keep and makes restore raise IndexError |
| ParameterPrompt.SubstitutePlaceholders | cli/shared/parameter_prompt.py:120-151 | the two loops compute the modelled substitution |
| PromptValues.LiteralReadsBackExactlyWhen | cli/shared/parameter_prompt.py:126-143 | a quoted value, read as SQL with every doubled quote as one, is the value, in front of any text, if and only if that text does not start with a quote |
| PromptValues.QuotedExactlyWhen | cli/shared/parameter_prompt.py:126-145 | a string is quoted if and only if it is empty or some character is no digit; every other value is written as its own text |
| SlotFilling.SlotReadsBackExactlyWhen | cli/shared/parameter_prompt.py:120-130 | in a filled query a slot with a quoted value reads, as SQL, as that value if and only if the next thing is no quote |
| SlotFilling.NotReadAs | cli/shared/parameter_prompt.py:124-130 | a placeholder reads as another one only if the other numeral is a part of its own, or continues it with a digit that follows |
| SlotFilling.ReplaceFillsNext | cli/shared/parameter_prompt.py:124-130 | replacing the next lower placeholder as text fills exactly its slots |
| SlotFilling.SequentialIsSimultaneous | cli/shared/parameter_prompt.py:120-130 | replacing number after number, highest first, fills every slot that has a value with its own and leaves the others, all at once; numbers have no leading zeros, `$` starts slots only, literals hold no `$`, and no slot can be misread with these values |
| SlotFilling.MissingValueLeftExactlyWhen | cli/shared/parameter_prompt.py:124-130 | a slot without a value, alone, is left as it is if and only if no number that has a value reads as its start |
| SlotMisreading.FilledRightExactlyWhen | cli/shared/parameter_prompt.py:120-130 | for every query whose `$` only start slots and every set of numbers that have values: each slot is filled with its own value or left alone, whatever the values, if and only if no slot without a value starts with the numeral of one that has one, and no numeral below a slot with a value continues that of the slot right before it |
| SlotMisreading.TouchingSlotsFilledExactlyWhen | cli/shared/parameter_prompt.py:120-130 | for every query whose `$` only start slots: sequential replacement is simultaneous for all values of its slots, and whatever others there are, if and only if no slot is directly followed by one of more than ten times its number |
| SlotMisreading.Shortened | cli/shared/parameter_prompt.py:124-130 | with one mark for every value the result is never longer than simultaneous filling, and shorter as soon as one slot is misread, so that misreadings cannot cancel out |
| ParameterPrompt.TouchingSlotsExample | cli/shared/parameter_prompt.py:124-130 | `$1$20` with 7, 8 and 0 for slots 1, 10 and 20 becomes `8`, not `70` |
| ParameterPrompt.MissingValueExample | cli/shared/parameter_prompt.py:124-130 | `$12` with 7 for slot 1 and nothing for 12 becomes `72` |
| ParameterPrompt.SlotsResolved | cli/shared/parameter_prompt.py:371-374 | filling all slots leaves none |
| MarkFilling.DetectedAreFilled | cli/shared/parameter_prompt.py:38-45 | the question marks detection counts are those substitution fills |
| MarkFilling.EachMarkGetsItsValue | cli/shared/parameter_prompt.py:131-149 | the k-th question mark outside literals gets the k-th value, and the text between the marks is unchanged |
| MarkFilling.MarkReadsBackExactlyWhen | cli/shared/parameter_prompt.py:131-149 | in the filled query the k-th mark reads, as SQL, as the k-th value, if that is quoted, exactly when the next thing is no quote |
| MarkFilling.BlankedExactlyWhen | cli/shared/parameter_prompt.py:135 | blanking hits exactly the characters behind an open quote, read from the left, and the quotes that have a partner |
| MarkFilling.DoubledStaysInside | cli/shared/parameter_prompt.py:142-143 | a quoted value with doubled quotes stays inside its quotes and leaves what follows outside |
| MarkFilling.LiteralSlot | cli/shared/parameter_prompt.py:142-143 | quoting a value neither makes nor hides a `$digit` |
| MarkFilling.MarksResolvedExactlyWhen | cli/shared/parameter_prompt.py:371-377 | a filled query with balanced quotes counts as unresolved if and only if a value used holds a `$digit`, or a text or unquoted value ending in `$` meets a digit with nothing in between |
| MarkFilling.DollarValueUnresolved | cli/shared/parameter_prompt.py:371-377 | the query `?` filled with the value `$5` counts as unresolved |
| MarkFilling.MarksResolved | cli/shared/parameter_prompt.py:371-377 | with balanced quotes nothing is left unresolved when no value used holds a `$digit`, no mark directly follows a `$` and no literal ends in one |
| ErrorGate.GateObject.Admit | cli/shared/product_telemetry.py:624-641 | purge, check, empty the tables, record and report, as one step under the lock |
| ErrorGate.AdmittedWithinSkew | cli/shared/product_telemetry.py:624-638 | in any run whose readings are out of order by at most d: a call let through finds fewer than per_minute admissions in the minute it ends shortened by d, and its key last let through no less than dedupe_s before since the tables were emptied; and with the minute lengthened by d these two are enough |
| ErrorGate.AdmittedExactlyWhen | cli/shared/product_telemetry.py:624-638 | with readings in order, a call is let through if and only if fewer than per_minute calls were let through in the minute it ends, and its key was not let through within dedupe_s since the tables were emptied |
| ErrorGate.NoMinuteOverLimit | cli/shared/product_telemetry.py:625-640 | in any run whose readings are out of order by at most d, no minute shortened by d, wherever it ends, holds more than per_minute admissions; with readings in order, no minute does |
| ErrorGate.UnorderedReadingsOverLimit | cli/shared/product_telemetry.py:625-640 | with two a minute allowed, readings 100.0, 100.05, 160.06, 159.9 give four admissions, three of them in the minute that ends at 159.9 |
| ErrorGate.EveryCallAccountedFor | cli/shared/product_telemetry.py:631-641 | per key: calls = admissions + reported repeats + pending repeats + repeats forgotten when the tables were emptied |
| ErrorGate.RepeatsReported | cli/shared/product_telemetry.py:631-641 | between two admissions of a key the second reports exactly the repeats in between, or none when it empties the tables |
| ErrorGate.TableBounded | cli/shared/product_telemetry.py:636-639 | the table of last admissions never holds more than 501 keys; that of suppressed repeats has no bound |
| ErrorGate.SuppressedUnbounded | cli/shared/product_telemetry.py:631-641 | of a burst of different errors every one beyond per_minute stays in the table of suppressed repeats |
| TargetBackoff.TargetBackoffObject.Acquire | cli/shared/target_backoff.py:24-35 | admission, with room for new targets bounded |
| TargetBackoff.TargetBackoffObject.Finish | cli/shared/target_backoff.py:37-46 | hands the target back; a success forgets it, a failure is counted |
| TargetBackoff.TargetBackoffObject.RecordFailure | cli/shared/target_backoff.py:48-60 | counts a failure without touching admission |
| TargetBackoff.TargetBackoffObject.Release | cli/shared/target_backoff.py:85-92 | hands the target back, keeping its failures |
| TargetBackoff.AlwaysBounded | cli/shared/target_backoff.py:24-98 | after any calls at most 1024 targets are stored, each with at most six failures, due at most 900 s ahead, and active or failed |
| TargetBackoff.RetryBounded | cli/shared/target_backoff.py:73-76 | retry_after never exceeds 900 s |
| TargetBackoff.OneHolder | cli/shared/target_backoff.py:24-98 | when only holders hand targets back, at most one caller holds a target, and it is active exactly while one does |
| TargetBackoff.GrantedExactlyWhen | cli/shared/target_backoff.py:24-35 | a call is granted if and only if nobody holds the target, its wait is over and it is stored or there is room |
| TargetBackoff.FailuresSpaced | cli/shared/target_backoff.py:55-60 | the k-th counted failure comes at least 30 (2^(k-1) - 1) s after the first for k <= 6, and 930 + 900 (k - 6) s beyond, unless a success, forget or limit_retry intervened |
| TargetBackoff.ReportCountedExactlyWhen | cli/shared/target_backoff.py:55-60 | in any run the next report of a failing target is counted if and only if the wait for the last counted one, 30 s or more, is over |
| TargetBackoff.ClearedIsGone | cli/shared/target_backoff.py:37-98 | after a success, or a forget of a target not in use, nothing is stored for it |
| TargetBackoff.FailuresSinceCleared | cli/shared/target_backoff.py:37-60 | in any run the failures stored for a target are those counted since it was last cleared, up to six |
| TargetBackoff.KthFailureWaits | cli/shared/target_backoff.py:55-60 | the k-th failure counted since then makes the target wait 30, 60, 120, 240, 480 and then always 900 s |
| TargetBackoff.RetryLimited | cli/shared/target_backoff.py:78-83 | limit_retry leaves the smaller of the wait and the given seconds, and failures and holder alone |
| TargetBackoff.ReleasedIsKeptExactlyWhen | cli/shared/target_backoff.py:85-92 | a release hands the target back, drops it if and only if it has no failures, and else keeps failures and wait |
| TargetBackoff.FailedHandsBack | cli/shared/target_backoff.py:37-46 | a failed operation hands the target back, and within the wait for an earlier failure changes nothing else |
| TargetBackoff.AcquireKeepsBackoff | cli/shared/target_backoff.py:24-35 | an acquire stores a new target if and only if it is granted, and changes neither failures nor wait |
| TargetBackoff.OthersUntouched | cli/shared/target_backoff.py:24-98 | a call leaves every other target as it was |
| Tunnels.TunnelManager.EnsureTunnel | cli/shared/ssh_tunnel.py:144-174 | a refused attempt changes nothing; another opens or reuses a tunnel and records or clears the failure; a returned port is that of the open cached tunnel with the destination and SSH path asked for |
| Tunnels.TunnelManager.Ensure | cli/shared/ssh_tunnel.py:197-277 | reuse, replacement, eviction and opening, keeping the cache within its bound |
| Tunnels.TunnelManager.Close | cli/shared/ssh_tunnel.py:317-326 | exactly the target's tunnel leaves the cache, closed, with its failure |
| Tunnels.TunnelManager.CloseAll | cli/shared/ssh_tunnel.py:328-334 | the cache is empty and every tunnel ever opened is closed, or its close is under way elsewhere |
| Tunnels.TunnelManager.ForwardingFailed | cli/shared/ssh_tunnel.py:485-493 | a failure counts only for the tunnel still cached, under the SSH fields it was opened with; it is closed and stays cached |
| Tunnels.EnsureServes | cli/shared/ssh_tunnel.py:197-277 | one call keeps the cache within its bound, leaks no tunnel, and returns the port of the open tunnel cached for the target with the destination asked for, over the path resolved in this call or, for fully inline fields only, the path it had for exactly these fields |
| Tunnels.PathsComeTogether | cli/shared/ssh_tunnel.py:197-277 | a call leaves the SSH fields and the path of a tunnel as they were, or sets both to those of its request as resolved |
| Tunnels.EveryPathResolved | cli/shared/ssh_tunnel.py:197-334 | in any run the path of every tunnel is what its SSH fields resolved to in some call for its target |
| Tunnels.EvictedExactlyWhen | cli/shared/ssh_tunnel.py:197-277 | an ensure call evicts another target's entry if and only if it reuses no tunnel, the SSH configuration resolves, the cache is full without the target's own entry, and the evicted one is the first of the least recently used; even when opening then fails |
| Tunnels.ReturnedWithoutOpeningExactlyWhen | cli/shared/ssh_tunnel.py:197-277 | a call returns a port without opening a tunnel if and only if the target has a cached tunnel that is open with an active transport, the call is not forced fresh, the destination is the same, and so are the SSH fields, fully inline, or the path they resolve to |
| Tunnels.UsableTunnelReturned | cli/shared/ssh_tunnel.py:217-245 | then its port is returned, its use and the fields asked for are noted, and nothing else changes |
| Tunnels.OtherwiseReopened | cli/shared/ssh_tunnel.py:247-277 | else, if the SSH configuration resolves, the target's old entry, and one more if the cache is full, are out of the cache and closed, a tunnel for exactly this request is opened as the world lets it, and the others are as before |
| Tunnels.OtherwiseRaises | cli/shared/ssh_tunnel.py:233-277 | else the call raises and changes nothing |
| Tunnels.RefusedExactlyWhen | cli/shared/ssh_tunnel.py:155-166 | where a tunnel could be reused or opened, the call fails if and only if the failure remembered for the target is of the same SSH fields and destination and its wait, or that of the shared backoff, is not over, and the call does not bring the passphrase that was missing |
| Tunnels.LastFailureRemembered | cli/shared/ssh_tunnel.py:155-195 | in any run exactly the last failure of a target since its last success or close is remembered, with its SSH fields and destination and a wait of 30 s, or longer if the shared backoff says so |
| Tunnels.RunGoesOn | cli/shared/ssh_tunnel.py:155-334 | after any run, any call and any failure of an opened tunnel can come next, so the theorems about runs cover every interleaving |
| Tunnels.CacheStaysGood | cli/shared/ssh_tunnel.py:197-334 | after any interleaving of ensure, close, close_all and failures: at most max_tunnels entries, one a target, and every opened tunnel outside the cache closed or about to be |
| Tunnels.OpenTunnelsAreCached | cli/shared/ssh_tunnel.py:197-334 | with no close under way, a tunnel that is open is in the cache |
| Tunnels.ReturnedPortServes | cli/shared/ssh_tunnel.py:197-277 | in any run a returned port is that of the open tunnel cached for the target, with the destination asked for, over the path that the SSH fields asked for resolved to: in this very call, or, for fully inline fields, in this or an earlier one |
| Tunnels.AttemptsSpaced | cli/shared/ssh_tunnel.py:155-195 | in any run, in which steps of other targets may overlap in time, two attempts at one request, the first of which failed, are at least 30 s apart, unless the second brings the missing passphrase, or a success, a close or a failure over another path came in between |
| EnvNames.FindName | cli/shared/env_requirements_service.py:60-64 | the suffix search ends, with the first unused candidate |
| EnvNames.TargetEnvMapping | cli/shared/env_requirements_service.py:34-71 | the loop over the targets gives the modelled mapping |
| EnvNames.FreshUnaffected | cli/shared/env_requirements_service.py:60-64 | using up some other name does not change the first unused candidate |
| EnvNames.DerivedNamesDistinct | cli/shared/env_requirements_service.py:34-71 | a derived name is no configured name and no other target's name |
| EnvNames.EachTargetsName | cli/shared/env_requirements_service.py:34-71 | every target is given its configured name without the spaces around it, or none if its password is kept elsewhere, or else the first candidate that is no configured name and was not given before |
| EnvNames.BaseNameIs | cli/shared/env_requirements_service.py:50-59 | the base name holds the words of the upper-cased target name, in order with single underscores between them, or TARGET if there are none |
| EnvNames.ListedDataIsFirst | cli/shared/env_requirements_service.py:67-71 | a variable is listed if and only if some target was given it, with the data of the first such target |
| EnvNames.ListedTargets | cli/shared/env_requirements_service.py:67-71 | a variable serves exactly the targets that were given its name |
| EnvNames.ConfigFile.BindMissingTargetPassword | cli/shared/env_requirements_service.py:73-92 | the loop stores the name for exactly the listed targets without any password source |
| EnvNames.BindingKeepsMapping | cli/shared/env_requirements_service.py:34-92 | whatever name is bound, the whole mapping recomputed afterwards is the same |
| EnvNames.BoundExactlyWhen | cli/shared/env_requirements_service.py:73-92 | binding a target's derived name stores it if and only if its entry has no name at all |
| EnvNames.BlankNameNeverReplaced | cli/shared/env_requirements_service.py:34-92 | a target with a `password_env` of one space is given a derived name, and binding stores nothing |
| IoDeadline.IoDeadlineObject.Arm | cli/shared/db_connection.py:808-816 | a new generation, with a timer unless leaving or expired |
| IoDeadline.IoDeadlineObject.Expire | cli/shared/db_connection.py:818-825 | aborts and expires only in the generation it was started for |
| IoDeadline.IoDeadlineObject.Exit | cli/shared/db_connection.py:831-839 | disarms, and raises exactly when expired and not leaving on a non-Exception |
| IoDeadline.FireAbortsExactlyWhen | cli/shared/db_connection.py:808-825 | in any interleaving a timer aborts if and only if no renewal and no exit came since it was started |
| IoDeadline.RenewalStartsTimerExactlyWhen | cli/shared/db_connection.py:804-816 | a renewal starts a timer of its own generation if and only if the connection has not been aborted; an exit leaves none running |
| IoDeadline.OverdueTimerMayFire | cli/shared/db_connection.py:808-825 | a timer started by a renewal can fire once its wait is over |
| IoDeadline.OverdueTimerAborts | cli/shared/db_connection.py:808-825 | if it does with no renewal and no exit since, the connection is aborted and expired |
| IoDeadline.AbortIsLate | cli/shared/db_connection.py:804-825 | an abort comes from the timer of the latest renewal, at least `seconds` after it, and never after exit |
| IoDeadline.AbortedAtMostOnce | cli/shared/db_connection.py:804-825 | the connection is aborted at most once, `expired` says exactly whether it was, and never goes back |
| IoDeadline.ExitRaisesExactlyWhen | cli/shared/db_connection.py:831-839 | an exit raises if and only if an abort came before it and it is not leaving on a non-Exception, and no later timer changes that |
| AnalysisLane.AnalysisRunObject.Register | cli/shared/analysis_lane.py:79-90 | lists the connection, or cancels it when stopped |
| AnalysisLane.AnalysisRunObject.Unregister | cli/shared/analysis_lane.py:93-96 | removes every row of the connection and no other |
| AnalysisLane.AnalysisRunObject.AbortUnanswered | cli/shared/db_connection.py:1036-1046 | aborts the unanswered connections still listed, in order, and counts the cancels taken |
| AnalysisLane.ListedExactlyWhen | cli/shared/analysis_lane.py:79-96 | a row is listed if and only if it was registered before the stop and not unregistered since |
| AnalysisLane.CancelledByRegisterExactlyWhen | cli/shared/analysis_lane.py:79-90 | register cancels a connection itself if and only if the run was stopped before |
| AnalysisLane.NoConnectionEscapes | cli/shared/analysis_lane.py:79-120 | in every interleaving a registered connection is cancelled by register, is in the stop's snapshot, or was unregistered before it |
| AnalysisLane.AbortedExactlyWhen | cli/shared/db_connection.py:1011-1046 | a stop aborts exactly the PostgreSQL connections of its snapshot whose cancel was not taken and which are still listed |
| AnalysisLane.ClosedIsNeverAborted | cli/shared/db_connection.py:1011-1046 | when owners unregister before they close, no connection is aborted after its close |
| Text.DecimalRoundTrip | cli/shared/secret_store_service.py:31-42 | the decimal numeral of a number reads back as the number, for chunk counts, chunk names, slots and suffixes |

## Left out

- Codecs: JSON and TOML parsing and printing are abstract; the JSONL log assumes that a record is one line of printable ASCII that reads back as itself and of which no proper prefix parses. The merge compares values as TOML values, so Python's equality across types (`1 == True`) is not modelled, nor the order in which keys are printed.
- Digits, spaces and letters: `isdigit`, `\d`, `int` and case mapping are modelled on ASCII digits and letters; upper-casing a target name is a parameter.
- Run registry: `wake_needs_key`, `describe`, `list_runs`, `find_active`, `target_busy`, `start_factory`, timestamps, identifiers, telemetry on errors, a negative `after_seq` or cap, and KeyboardInterrupt or SystemExit inside a driver.
- Keyring: a call that timed out may take effect or not, but not later than the next call; the worker thread that could apply it later is not modelled. Restoring secrets into the environment and probing the backend are left out.
- Quotas: exact shares are fractions over the total; the rounding of the source's floating point division is not modelled.
- SelectCanary: the SHA-256 rank of a case is an abstract function, so ties between equal digests are resolved by the stable sort only.
- Masking: what a normalizer does between masking and restoring; the theorem covers every text that results, as texts around sentinels.
- Placeholders: detecting `$n` slots, which masks dollar-quoted literals by code outside this model; substitution also replaces a `$n` inside a literal, which detection does not report. Prompting, type inference and validation are left out, and so is a negative position.
- Literals: a quoted literal is read as standard SQL reads it; the backslash escapes of some MySQL modes are not modelled.
- SequentialIsSimultaneous: is about particular values, for which a misreading may happen to do no harm; the two exact conditions are about all values of the slots.
- MarksResolvedExactlyWhen: is about balanced quotes and values whose unquoted texts hold no quote and no question mark, as those of numbers do.
- AdmittedExactlyWhen: needs clock readings in order, which threads waiting for the gate's lock need not have; `AdmittedWithinSkew` is the statement without that.
- Clocks: readings within one run of the backoff or of a deadline never go backwards, and those taken under one target's lock do not in the tunnel manager; for the backoff they are also non-negative. Times are real numbers.
- FailuresSpaced: the interval runs from the reading that started the first wait to the reading that admits the k-th failure.
- Tunnels: a cache of size zero, on which the source raises, how SSH connections and channels are opened, and the second resolution of the SSH configuration while opening; errors that are no `SshTunnelError`. An ensure call is one step, although the registry lock covers only its work on the cache: the rest of it reads and writes the failure of its own target alone, under that target's lock.
- Environment names: `validate_target_name`, name collisions that differ in case, and saving the configuration file.
- Deadlines: that a timer does fire; only what happens when it does.
- Analysis runs: `begin`, `active`, `finish`, the connection budget and the statement lock; `execute` does not check and act atomically, so nothing is claimed about statements started after a stop.
- Benchmark adapters, reports, the web and desktop clients, argument parsing and all plumbing.
