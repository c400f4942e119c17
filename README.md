# AuditSync Oracle consumer, modelled in Dafny

AuditSync reads Oracle audit records from a Kafka topic and stores them in
Oracle. For each record, the consumer loop (`AuditConsumerBackgroundService`)
does the following:

- It decodes the JSON. A message without an id gets the id
  `"{SessionId}_{EntryId}_{Statement}"`.
- It drops, but commits, a message whose target is blank or unknown.
- Otherwise it upserts the message into `audit_logs` and loads the target's
  active rules, ordered by `RULE_ORDER`.
- It runs the rules through `ExtractionService`. When anything was extracted,
  `CaseService` opens one case for the message with one denormalised
  extraction row per value.
- It commits the record's offset last. Any exception skips the commit, so
  the record's offset is not committed.

This project models that loop and the services and repositories it uses, as
Dafny modules that follow the source files. Two more services are modelled
beside the loop, because the code defines them but the loop does not call
them:

- `RegexRuleEngine`, the second extraction engine. It caches rules per
  target, keeps the first match per rule, stores values by rule name and
  knows required rules.
- `AuditDataService`, which saves a message and then its extracted values.
- The in-memory `OffsetManager` is also modelled.

How the model is built:

- **Tables.** The database is a `Store.Tables` value. `audit_logs` is a map
  keyed by id; the other tables are sequences in storage order. A
  `Store.Database` object holds the tables and is changed in place by the
  repository methods.
- **Specification and implementation.** Each statement or service is a pure
  function. That function is the specification for a method that performs the
  same steps on the database. The lemmas state what the source promises about
  those functions.
- **Oracles.**
  - Regular expressions are a function parameter (`RegexOracle`). It returns
    `Invalid`, `Timeout`, or the list of matches with their groups.
  - JSON decoding is a function parameter. It returns a message, null, or an
    error.
  - The clock is a number passed in.
  - `Guid.NewGuid` is a counter-backed source of distinct identifiers.
- **Store failures.** A failing store call is named in a set of faulting
  calls. It throws before it changes anything.
- **The loop.**
  - One turn of the loop is `Consumer.Step`. A finite run of turns is
    `Consumer.Run`.
  - What the environment does in a turn is a `Delivery`: what `Consume`
    returns, which store calls throw, whether `Commit` throws, and the clock.
  - The method `Consumer.AuditConsumerBackgroundService.Execute` runs the turns
    and records every store call and commit in a `log`. It is proved to
    produce exactly what `Run` describes.

Where the code and its documentation disagree, the model follows the code:

- A record whose payload decodes to null is skipped without a commit.
- A record whose payload throws while decoding takes the generic `catch`, and
  its offset is not committed either.
- `CaseService` rethrows every repository exception; no conflict is turned
  into "case exists".
- `IAuditDataService` documents the message save and the value save as one
  atomic transaction. The implementation makes two independent writes, and
  `AuditDataService.NoRollback` shows the first write surviving a failure of
  the second.

## Model

Source paths are relative to the repository root.

| member | source | states |
|---|---|---|
| Text.ToLowerIdempotent | src/AuditSync.OracleConsumer.Application/Services/ExtractionService.cs:108 | Lower-casing a field name twice gives the same result as lower-casing it once. |
| Text.IntToStringRoundTrip | src/AuditSync.OracleConsumer.App/Services/AuditConsumerBackgroundService.cs:82 | The decimal text of every integer, negative ones included, parses back to that integer. |
| Text.IntToStringInjective | src/AuditSync.OracleConsumer.App/Services/AuditConsumerBackgroundService.cs:82 | Different integers have different decimal texts. |
| Guids.GuidTextInjective | src/AuditSync.OracleConsumer.Application/Services/CaseService.cs:52 | Two different draws from the identifier source never give the same identifier. |
| Guids.GuidSource.NewGuid | src/AuditSync.OracleConsumer.Application/Services/CaseService.cs:74 | Returns the identifier of the next draw and advances the source by one. |
| Seqs.SortByIsSortedPermutation | src/AuditSync.OracleConsumer.Application/Services/ExtractionService.cs:33 | `OrderBy(r => r.RuleOrder)` returns the same multiset of rules, sorted ascending by key. |
| Seqs.SortByIsStable | src/AuditSync.OracleConsumer.Application/Services/ExtractionService.cs:33 | The sort is stable: the elements with any given key keep their input order. |
| FieldMaps.PutLookup | src/AuditSync.OracleConsumer.Application/Services/RegexRuleEngine.cs:57 | After the dictionary indexer assigns `v` to key `k`, looking up `k` gives `v` and every other key is unchanged. |
| FieldMaps.PutDistinct | src/AuditSync.OracleConsumer.Application/Services/RegexRuleEngine.cs:57 | Assigning through the indexer never creates a second entry for a key. |
| Offsets.Get | src/AuditSync.OracleConsumer.Infrastructure/Kafka/OffsetManager.cs:18-21 | Null exactly when the partition has no entry; otherwise the stored offset. |
| Offsets.OffsetManager.StoreOffset | src/AuditSync.OracleConsumer.Infrastructure/Kafka/OffsetManager.cs:13-16 | Overwrites the partition's entry and nothing else. The map stays equal to a replay of every store made so far. |
| Offsets.OffsetManager.GetLastOffset | src/AuditSync.OracleConsumer.Infrastructure/Kafka/OffsetManager.cs:13-21 | On a manager built by `StoreOffset` calls, the offset of the last store to the partition, or null exactly when it was never stored. |
| Offsets.LastStoreWins | src/AuditSync.OracleConsumer.Infrastructure/Kafka/OffsetManager.cs:13-21 | After any run of stores, a partition reads the offset of the last store to it. If the run never stored to it, it reads what it read before. |
| Offsets.OtherPartitionsUntouched | src/AuditSync.OracleConsumer.Infrastructure/Kafka/OffsetManager.cs:15 | A run of stores to other partitions leaves a partition's entry as it was. |
| Offsets.SmallerOffsetReplacesLarger | src/AuditSync.OracleConsumer.Infrastructure/Kafka/OffsetManager.cs:15 | There is no monotonicity check: storing a smaller offset after a larger one leaves the smaller one. |
| Offsets.ManagerReadsLastStore | src/AuditSync.OracleConsumer.Infrastructure/Kafka/OffsetManager.cs:13-21 | On a manager built only by `StoreOffset` calls, `GetLastOffset(p)` is the last offset stored to `p`, or null when `p` was never stored. |
| AuditMessageRepository.Merge | src/AuditSync.OracleConsumer.Infrastructure/Repositories/AuditMessageRepository.cs:33-71 | The MERGE fails with a unique violation exactly when another id already holds the (partition, offset) pair. Otherwise it adds the id to the keys and stores a row with all message fields, the partition, the offset and the old counter + 1 (1 for a new id). Every other row is unchanged. |
| AuditMessageRepository.Save | src/AuditSync.OracleConsumer.Infrastructure/Repositories/AuditMessageRepository.cs:24-111 | `SaveAsync` either rethrows the connection failure or unique violation and leaves the tables unchanged, or succeeds with exactly the MERGE's new table. |
| AuditMessageRepository.SaveMarksProcessed | src/AuditSync.OracleConsumer.Infrastructure/Repositories/AuditMessageRepository.cs:113-130 | After a successful save, `IsProcessedAsync` holds for the saved id. It is unchanged for every other id. |
| AuditMessageRepository.RepeatedSaveCounts | src/AuditSync.OracleConsumer.Infrastructure/Repositories/AuditMessageRepository.cs:33-71 | `n` saves of the same message leave one row for its id, with its counter up by `n` (so `n` for a new id). Other rows are untouched. |
| AuditMessageRepository.MergeKeepsConstraints | tests/AuditSync.OracleConsumer.Test.Integration/DatabaseIntegrationTestBase.cs:103 | A successful MERGE keeps rows keyed by their message id and keeps the `UK_AUDIT_OFFSET` pairs unique. |
| ExtractedValuesRepository.EntryRows | src/AuditSync.OracleConsumer.Infrastructure/Repositories/ExtractedValuesRepository.cs:47-58 | The INSERT makes exactly one row per dictionary entry, in enumeration order, with the message id, the entry's key and the entry's value. |
| ExtractedValuesRepository.Save | src/AuditSync.OracleConsumer.Infrastructure/Repositories/ExtractedValuesRepository.cs:23-68 | `SaveExtractedValuesAsync`, with the INSERT rows built in a loop, either rethrows and leaves the tables unchanged, or succeeds with exactly the DELETE-then-INSERT table. |
| ExtractedValuesRepository.ReplaceContents | src/AuditSync.OracleConsumer.Infrastructure/Repositories/ExtractedValuesRepository.cs:37-58 | After a non-empty save, the message's rows are exactly the dictionary entries, so old rows are gone. Every other message's rows are unchanged, and `audit_logs` is untouched. |
| ExtractedValuesRepository.ReplaceGuards | src/AuditSync.OracleConsumer.Infrastructure/Repositories/ExtractedValuesRepository.cs:25-29 | An empty dictionary changes nothing, even on a dead connection. A non-empty one for an id that is not stored fails on the foreign key. |
| ExtractedValuesRepository.ReplaceIdempotent | src/AuditSync.OracleConsumer.Infrastructure/Repositories/ExtractedValuesRepository.cs:37-58 | Saving the same dictionary twice leaves the same tables as saving it once. |
| ExtractedValuesRepository.ReplaceKeepsForeignKey | tests/AuditSync.OracleConsumer.Test.Integration/DatabaseIntegrationTestBase.cs:113-114 | A save keeps every value row pointing at a stored message (`FK_AUDIT_MESSAGE`). |
| RuleRepository.GetRulesByTargetSpec | src/AuditSync.OracleConsumer.Infrastructure/Repositories/RuleRepository.cs:30-41 | The loaded rules are the active rules joined with a target of that exact name, as the same multiset as the join (each join row once), ascending by `RULE_ORDER`. Each carries the requested name as `TargetName`, and none is required (`IS_REQUIRED` is not selected). |
| RuleRepository.LoadsEachRuleOnce | src/AuditSync.OracleConsumer.Infrastructure/Repositories/RuleRepository.cs:30-41 | With unique target names, loading an existing target gives each of its active rule rows exactly once (none twice, none missing), loaded against that target, in ascending `RULE_ORDER`. |
| RuleRepository.UnknownTargetLoadsNothing | src/AuditSync.OracleConsumer.Infrastructure/Repositories/RuleRepository.cs:35-36 | A name that no target carries loads an empty list. |
| TargetRepository.CountNamedSpec | src/AuditSync.OracleConsumer.Infrastructure/Repositories/TargetRepository.cs:23-33 | The `COUNT(1)` is positive exactly when some target has exactly that (case-sensitive) name, and exactly when the first such target is found. |
| TargetRepository.UniqueNameCountsOnce | tests/AuditSync.OracleConsumer.Test.Integration/DatabaseIntegrationTestBase.cs:120 | With unique `NAME`s, at most one row matches a name. |
| TargetRepository.ExistsAgreesWithGetByName | src/AuditSync.OracleConsumer.Infrastructure/Repositories/TargetRepository.cs:23-63 | `ExistsAsync(n)` holds exactly when a target is named `n`. With unique names, `GetByNameAsync(n)` never throws: it returns that target when `ExistsAsync(n)` holds and null otherwise. |
| CaseRepository.Create | src/AuditSync.OracleConsumer.Infrastructure/Repositories/CaseRepository.cs:23-58 | Appends exactly the given case and returns its id, or rethrows and changes nothing. |
| CaseRepository.GetById | src/AuditSync.OracleConsumer.Infrastructure/Repositories/CaseRepository.cs:79-101 | Returns a stored case with that id, or null exactly when no case has it. |
| CaseRepository.GetByAuditLogId | src/AuditSync.OracleConsumer.Infrastructure/Repositories/CaseRepository.cs:104-127 | Returns a stored case of that audit log, or null exactly when there is none. |
| CaseRepository.OnlyCaseOfAuditLog | src/AuditSync.OracleConsumer.Infrastructure/Repositories/CaseRepository.cs:104-127 | With at most one case per audit log, the lookup returns that audit log's only case, so the row the database picks does not matter. |
| CaseRepository.ExistsAgreesWithGet | src/AuditSync.OracleConsumer.Infrastructure/Repositories/CaseRepository.cs:60-127 | `ExistsForAuditLogAsync(a)` holds exactly when `GetByAuditLogIdAsync(a)` finds a case. |
| CaseRepository.CountAfterCreate | src/AuditSync.OracleConsumer.Infrastructure/Repositories/CaseRepository.cs:23-77 | Inserting a case adds one to the count of its own audit log and leaves every other count unchanged. |
| CaseRepository.GetByIdAfterCreate | src/AuditSync.OracleConsumer.Infrastructure/Repositories/CaseRepository.cs:23-101 | After an insert, a lookup by id returns the earlier case with that id if there is one, otherwise the new case when its id matches, otherwise null. |
| CaseRepository.CreateThenFind | src/AuditSync.OracleConsumer.Infrastructure/Repositories/CaseRepository.cs:23-95 | After `CreateAsync(c)`, `ExistsForAuditLogAsync(c.AuditLogId)` holds. When the id was new, `GetByIdAsync(c.Id)` returns `c`. |
| CaseRepository.CreateKeepsOneCasePerAuditLog | src/AuditSync.OracleConsumer.Application/Services/CaseService.cs:41-66 | Inserting a case only for an audit log that has none keeps at most one case per audit log. |
| CaseExtractionRepository.CreateBatch | src/AuditSync.OracleConsumer.Infrastructure/Repositories/CaseExtractionRepository.cs:23-53 | An empty batch returns 0 and does not touch the store. A non-empty one appends every element in order and returns the count, or rethrows and changes nothing. |
| CaseExtractionRepository.Where | src/AuditSync.OracleConsumer.Infrastructure/Repositories/CaseExtractionRepository.cs:62-98 | `WHERE CASE_ID = :CaseId` and `WHERE AUDIT_LOG_ID = :AuditLogId` keep exactly the rows whose column holds the value. |
| CaseExtractionRepository.QuerySpec | src/AuditSync.OracleConsumer.Infrastructure/Repositories/CaseExtractionRepository.cs:55-105 | `GetByCaseIdAsync` and `GetByAuditLogIdAsync` return exactly the rows whose `CASE_ID` or `AUDIT_LOG_ID` holds the value, each as often as stored (same multiset), ascending by `EXTRACTED_AT`. Rows with equal timestamps keep table order. |
| CaseExtractionRepository.BatchReadBack | src/AuditSync.OracleConsumer.Infrastructure/Repositories/CaseExtractionRepository.cs:35-72 | After inserting one case's batch, the case's rows are its earlier rows followed by the whole batch. |
| CaseService.Extractions | src/AuditSync.OracleConsumer.Application/Services/CaseService.cs:72-83 | The `Select` builds exactly one extraction per value, in the same order. The k-th extraction takes the k-th fresh identifier. |
| CaseService.BuildBatch | src/AuditSync.OracleConsumer.Application/Services/CaseService.cs:72-83 | The loop builds that list, drawing one identifier per value. |
| CaseService.CreateCaseWithExtractions | src/AuditSync.OracleConsumer.Application/Services/CaseService.cs:28-101 | The method over the shared database and identifier source returns the result, the repository calls, the tables and the next identifier that `CreateCaseSpec` describes. |
| CaseService.NoValuesNoCalls | src/AuditSync.OracleConsumer.Application/Services/CaseService.cs:32-36 | No values: null, no repository call, no change. |
| CaseService.ExistingCaseNoWrites | src/AuditSync.OracleConsumer.Application/Services/CaseService.cs:41-49 | When the message already has a case, only the existence check runs. Nothing is written, no identifier is drawn, and null is returned. |
| CaseService.FailsOnlyOnFault | src/AuditSync.OracleConsumer.Application/Services/CaseService.cs:38-100 | The call throws exactly when a repository call it reaches throws, and it rethrows that exception unchanged. |
| CaseService.CallOrder | src/AuditSync.OracleConsumer.Application/Services/CaseService.cs:41-92 | The calls are a prefix of: existence check, case insert, batch insert. There are none exactly when the value list is empty. A returned case id means all three ran. |
| CaseService.CreatedShape | src/AuditSync.OracleConsumer.Application/Services/CaseService.cs:51-92 | The returned id is the new case's id. The case is OPEN for this message, with `Valid`, `ResolvedAt`, `ResolvedBy` and `ResolutionNotes` null. There is one extraction per value, in order, each copying the value's rule id, name, pattern, source field and value, all tied to the case and the message. The extraction ids are pairwise distinct and differ from the case id. |
| CaseService.CreatedReadBack | src/AuditSync.OracleConsumer.Application/Services/CaseService.cs:72-85 | Reading the new case's extractions back by case id gives exactly the batch. |
| CaseService.KeepsOneCasePerAuditLog | src/AuditSync.OracleConsumer.Application/Services/CaseService.cs:41-66 | The call keeps at most one case per audit log. |
| CaseService.SecondCallIsNoOp | src/AuditSync.OracleConsumer.Application/Services/CaseService.cs:41-49 | Once a call has created a case for a message, a second call for the same message writes nothing and returns null, whatever values it carries. |
| AuditDataService.SaveAuditData | src/AuditSync.OracleConsumer.Application/Services/AuditDataService.cs:27-51 | The method returns the outcome, the calls and the tables that `SaveAuditDataSpec` describes. |
| AuditDataService.MessageBeforeValues | src/AuditSync.OracleConsumer.Application/Services/AuditDataService.cs:34-39 | The message is saved first. The values are written only after that save succeeded, and then always, even for an empty dictionary. |
| AuditDataService.MessageFailureStops | src/AuditSync.OracleConsumer.Application/Services/AuditDataService.cs:29-50 | A failed message save rethrows its exception and changes nothing. |
| AuditDataService.NoRollback | src/AuditSync.OracleConsumer.Application/Services/AuditDataService.cs:34-39 | When the values write throws, the message row written just before stays, with its counter already incremented. |
| AuditDataService.ValuesUnderMessageId | src/AuditSync.OracleConsumer.Application/Services/AuditDataService.cs:37-39 | After success, the message's value rows are exactly the dictionary's entries (untouched for an empty dictionary), keyed by `message.Id`. `AuditRecordId` has no effect. |
| AuditDataService.KeepsValidTables | src/AuditSync.OracleConsumer.Application/Services/AuditDataService.cs:27-51 | Whatever the outcome, the schema's constraints still hold. |
| ExtractionService.SourceFieldNamesDistinct | src/AuditSync.OracleConsumer.Application/Services/ExtractionService.cs:108-125 | The `switch` arms have pairwise distinct names. |
| ExtractionService.OnlyPrivilegeNullable | src/AuditSync.OracleConsumer.Application/Services/ExtractionService.cs:108-125 | Only the `privilegeused` arm can select a null field. |
| ExtractionService.SourceValueNone | src/AuditSync.OracleConsumer.Application/Services/ExtractionService.cs:105-126 | `GetSourceValue` is null exactly when the lower-cased name is none of the 15 arm names (`text` and `sqltext` both select `SqlText`), or when it is `privilegeused` and `PrivilegeUsed` is null. |
| ExtractionService.SourceFieldCaseInsensitive | src/AuditSync.OracleConsumer.Application/Services/ExtractionService.cs:108 | A name and its lower-cased form select the same field. |
| ExtractionService.MatchValues | src/AuditSync.OracleConsumer.Application/Services/ExtractionService.cs:53-71 | Exactly one value per match, in match order. Each value is group 1 when the pattern has a group, else the whole match. |
| ExtractionService.ApplyRule | src/AuditSync.OracleConsumer.Application/Services/ExtractionService.cs:35-96 | One pass of the rule loop appends exactly that rule's values to the list. |
| ExtractionService.ApplyRules | src/AuditSync.OracleConsumer.Application/Services/ExtractionService.cs:22-103 | `ApplyRulesAsync` returns `Extraction`: the values of the rules sorted stably by `RuleOrder`, rule after rule. An empty rule list returns an empty list. |
| ExtractionService.ProvenanceMembers | src/AuditSync.OracleConsumer.Application/Services/ExtractionService.cs:33-71 | Every value comes from one of the rules and is one of that rule's values. |
| ExtractionService.ProvenanceSorted | src/AuditSync.OracleConsumer.Application/Services/ExtractionService.cs:33-71 | Over rules in ascending order, the rules behind successive values have non-decreasing `RuleOrder`: all values of an earlier rule come first. |
| ExtractionService.RuleValuesCopyRule | src/AuditSync.OracleConsumer.Application/Services/ExtractionService.cs:62-69 | Every value of a rule carries the rule's id, name, pattern and source field. |
| ExtractionService.ExtractionProvenance | src/AuditSync.OracleConsumer.Application/Services/ExtractionService.cs:33-71 | Whatever the input order, the values come rule by rule in ascending `RuleOrder`. Each value copies the metadata of an input rule. |
| ExtractionService.ExtractionLength | src/AuditSync.OracleConsumer.Application/Services/ExtractionService.cs:47-76 | The number of values is the sum of the match counts of the rules that are not skipped. |
| ExtractionService.SkippedRuleYieldsNothing | src/AuditSync.OracleConsumer.Application/Services/ExtractionService.cs:37-96 | A rule whose source is null or empty (an unknown field included), or whose pattern is invalid or times out, contributes nothing. |
| ExtractionService.UnproductiveRuleSkipped | src/AuditSync.OracleConsumer.Application/Services/ExtractionService.cs:33-97 | A rule that contributes nothing does not stop the rules after it: the result is what the other rules give. |
| ExtractionService.FlagsIgnored | src/AuditSync.OracleConsumer.Application/Services/ExtractionService.cs:22-103 | `IsRequired` and `IsActive` play no part: changing them on any rules leaves the result unchanged. |
| RuleEngine.EngineSourceValueNone | src/AuditSync.OracleConsumer.Application/Services/RegexRuleEngine.cs:113-134 | This engine's `GetSourceValue` is null exactly for a lower-cased name outside its 14 arms, or for `privilegeused` with a null `PrivilegeUsed`. |
| RuleEngine.EngineSourceValueAgrees | src/AuditSync.OracleConsumer.Application/Services/RegexRuleEngine.cs:113-134 | The two engines read the same field for every name except `text`: this engine gives null for it, while `ExtractionService` gives `SqlText`. |
| RuleEngine.Captured | src/AuditSync.OracleConsumer.Application/Services/RegexRuleEngine.cs:53-55 | A value is captured exactly when the regex runs, has a first match, and the pattern has a group. |
| RuleEngine.ApplyRuleList | src/AuditSync.OracleConsumer.Application/Services/RegexRuleEngine.cs:49-70 | The `foreach`, with its dictionary updated in place, returns `ApplyAll`. |
| RuleEngine.FailureSticks | src/AuditSync.OracleConsumer.Application/Services/RegexRuleEngine.cs:50-70 | Once a prefix of the rules throws, the whole call throws the same exception. |
| RuleEngine.ApplyAllSucceeds | src/AuditSync.OracleConsumer.Application/Services/RegexRuleEngine.cs:50-70 | The call returns a dictionary exactly when no rule fails. A rule fails when its regex throws, or when it is required and captures nothing. |
| RuleEngine.ApplyAllFirstError | src/AuditSync.OracleConsumer.Application/Services/RegexRuleEngine.cs:50-70 | A call that throws throws the error of the first failing rule. |
| RuleEngine.ApplyAllLastWriteWins | src/AuditSync.OracleConsumer.Application/Services/RegexRuleEngine.cs:55-57 | In a returned dictionary, each rule name holds the value of the last rule with that name that captured something, and is absent when none did. |
| RuleEngine.ApplyAllDistinctKeys | src/AuditSync.OracleConsumer.Application/Services/RegexRuleEngine.cs:57 | A returned dictionary has each rule name at most once. |
| RuleEngine.OptionalRulesNeverInvalidate | src/AuditSync.OracleConsumer.Application/Services/RegexRuleEngine.cs:61-65 | With no required rule, the call can throw only a regex failure, never `RuleValidationException`. |
| RuleEngine.LoadedRulesNeverInvalidate | src/AuditSync.OracleConsumer.Application/Services/RegexRuleEngine.cs:61-65 | Rules loaded by `RuleRepository` are never required, so they never raise `RuleValidationException`. |
| RuleEngine.ServeSpec | src/AuditSync.OracleConsumer.Application/Services/RegexRuleEngine.cs:78-111 | The repository is queried exactly when the target is not cached. The call fails exactly when that query throws, and then the cache is unchanged. A successful call leaves its list cached, and other targets' entries are never touched. |
| RuleEngine.ServeAgain | src/AuditSync.OracleConsumer.Application/Services/RegexRuleEngine.cs:81-84 | Loaded at most once: after a successful call for a target, later calls answer from the cache with the same list (an empty list included) without querying. |
| RuleEngine.ServeLoadsRepository | src/AuditSync.OracleConsumer.Application/Services/RegexRuleEngine.cs:97-100 | A first load returns exactly what the rule query gives. |
| RuleEngine.EngineResultHeader | src/AuditSync.OracleConsumer.Application/Services/RegexRuleEngine.cs:28-47 | A result carries the message's id, owner, name and SQL text and the clock reading. No rules gives an empty dictionary, and a failed load rethrows. |
| RuleEngine.RegexRuleEngine.GetRulesForTarget | src/AuditSync.OracleConsumer.Application/Services/RegexRuleEngine.cs:78-111 | The method returns what `Serve` returns and updates `_ruleCache` the same way. It keeps the invariant that every cached target was loaded exactly once. |
| RuleEngine.RegexRuleEngine.ApplyRulesAsync | src/AuditSync.OracleConsumer.Application/Services/RegexRuleEngine.cs:28-76 | The whole call returns what `EngineResult` gives and updates the cache as `Serve` does. |
| Consumer.EnsureIdSpec | src/AuditSync.OracleConsumer.App/Services/AuditConsumerBackgroundService.cs:79-83 | After the id step the id is never empty. A present id is kept, an empty one becomes `"{SessionId}_{EntryId}_{Statement}"`, and nothing else changes. |
| Consumer.SynthesisedIdInjective | src/AuditSync.OracleConsumer.App/Services/AuditConsumerBackgroundService.cs:82 | Equal synthesised ids mean equal session, entry and statement numbers. |
| Consumer.CaseStageFacts | src/AuditSync.OracleConsumer.App/Services/AuditConsumerBackgroundService.cs:123-156 | Step 4 writes only the case tables and calls the case service exactly when there are values. With no values it changes nothing. A commit is its last event, for this record, exactly when it ends committed. |
| Consumer.CaseStageKeepsInvariant | src/AuditSync.OracleConsumer.App/Services/AuditConsumerBackgroundService.cs:123-128 | Step 4 keeps the schema constraints and the rule of one case per audit log. |
| Consumer.ExtractStageFacts | src/AuditSync.OracleConsumer.App/Services/AuditConsumerBackgroundService.cs:112-156 | No rules means a commit with no case call. Otherwise the case service is called exactly when the extraction is non-empty. |
| Consumer.ExtractStageKeepsInvariant | src/AuditSync.OracleConsumer.App/Services/AuditConsumerBackgroundService.cs:112-128 | Step 3 keeps the invariant. |
| Consumer.RulesStageFacts | src/AuditSync.OracleConsumer.App/Services/AuditConsumerBackgroundService.cs:109-156 | From the rule load on, a case call implies the target's rules extracted something. Without a case call, no table or identifier changes. |
| Consumer.RulesStageKeepsInvariant | src/AuditSync.OracleConsumer.App/Services/AuditConsumerBackgroundService.cs:109-128 | Steps 2 to 4 keep the invariant. |
| Consumer.SaveStageFacts | src/AuditSync.OracleConsumer.App/Services/AuditConsumerBackgroundService.cs:103-156 | From the save on: the save is the first event and targets and rules are unchanged. A committed turn stored the MERGE's row. |
| Consumer.SaveStageKeepsInvariant | src/AuditSync.OracleConsumer.App/Services/AuditConsumerBackgroundService.cs:103-128 | Steps 1 to 4 keep the invariant. |
| Consumer.HandleFacts | src/AuditSync.OracleConsumer.App/Services/AuditConsumerBackgroundService.cs:85-156 | From the target check on: events are store calls then at most one final commit for this record. A case call implies a non-empty extraction. Without one, the case tables and identifiers are unchanged. |
| Consumer.HandleKeepsInvariant | src/AuditSync.OracleConsumer.App/Services/AuditConsumerBackgroundService.cs:85-128 | Handling a decoded message keeps the invariant. |
| Consumer.CaseStageSettles | src/AuditSync.OracleConsumer.App/Services/AuditConsumerBackgroundService.cs:123-156 | Step 4 ends committed or caught, and caught exactly when a case-service call it reached threw or the commit threw. |
| Consumer.ExtractStageSettles | src/AuditSync.OracleConsumer.App/Services/AuditConsumerBackgroundService.cs:112-156 | The same for steps 3 and 4. |
| Consumer.RulesStageSettles | src/AuditSync.OracleConsumer.App/Services/AuditConsumerBackgroundService.cs:109-156 | The same from the rule load on. |
| Consumer.SaveStageSettles | src/AuditSync.OracleConsumer.App/Services/AuditConsumerBackgroundService.cs:103-156 | From the save on: caught exactly when a reached call threw, the commit threw, or the upsert was rejected on the record's position. |
| Consumer.HandleSettles | src/AuditSync.OracleConsumer.App/Services/AuditConsumerBackgroundService.cs:85-156 | The same from the target check on. |
| Consumer.FaultMeansNoCommit | src/AuditSync.OracleConsumer.App/Services/AuditConsumerBackgroundService.cs:155-174 | In every turn, a store call that threw ends the turn in the `catch`, and a commit that threw means the record is not committed. |
| Consumer.CommitUnlessFault | src/AuditSync.OracleConsumer.App/Services/AuditConsumerBackgroundService.cs:85-174 | A decoded message ends committed or caught. It is committed exactly when no store call it reached threw, the commit did not throw, and the upsert was not rejected. |
| Consumer.CommitIsLastAndOnly | src/AuditSync.OracleConsumer.App/Services/AuditConsumerBackgroundService.cs:51-174 | A turn commits exactly when it ends committed. The commit is its last and only commit and is for the delivered record; every other event is a store call. |
| Consumer.NothingWithoutAMessage | src/AuditSync.OracleConsumer.App/Services/AuditConsumerBackgroundService.cs:56-77 | Cancellation or disposal, and only those, stop the loop. A turn without a decoded message (null record, null value, null message, JSON error, consume error) changes nothing and commits nothing. |
| Consumer.IneligibleNotStored | src/AuditSync.OracleConsumer.App/Services/AuditConsumerBackgroundService.cs:85-101 | A blank or unknown target is committed (unless `Commit` throws) with no save, no rule load and no case, and no table changes. |
| Consumer.SaveComesFirst | src/AuditSync.OracleConsumer.App/Services/AuditConsumerBackgroundService.cs:93-110 | For an eligible message the upsert comes right after the target check, before the rule load and any commit, even when there will be no rules or no values. |
| Consumer.CommittedMessageStored | src/AuditSync.OracleConsumer.App/Services/AuditConsumerBackgroundService.cs:103-107 | A committed eligible message is stored under its (possibly synthesised) id, with the record's partition and offset and a counter one higher than before. |
| Consumer.CaseOnlyForExtraction | src/AuditSync.OracleConsumer.App/Services/AuditConsumerBackgroundService.cs:120-128 | The case service is called only when the target's rules extracted at least one value. Otherwise the case tables and identifier source are untouched. |
| Consumer.StepKeepsInvariant | src/AuditSync.OracleConsumer.App/Services/AuditConsumerBackgroundService.cs:53-174 | Every turn keeps the schema constraints and at most one case per audit log, whatever throws. |
| Consumer.HandleCreatedCase | src/AuditSync.OracleConsumer.App/Services/AuditConsumerBackgroundService.cs:85-156 | A turn that created a case had an eligible target, a saved message, rules that extracted values, and a successful case creation whose tables it keeps. |
| Consumer.HandleInsertedCase | src/AuditSync.OracleConsumer.App/Services/AuditConsumerBackgroundService.cs:85-128 | A turn that inserted a case, whatever happened after the insert, had an eligible target, a saved message, rules that extracted values and no earlier case for the message. Its tables and outcome are those of that case creation. |
| Consumer.CaseFoundNoNewCase | src/AuditSync.OracleConsumer.App/Services/AuditConsumerBackgroundService.cs:123-128 | Once a case exists for the message, a later turn on it, whatever throws, leaves the case tables and the identifier source as they were and never reports a new case. |
| Consumer.OrphanCase | src/AuditSync.OracleConsumer.Application/Services/CaseService.cs:41-85 | When the batch insert throws after the case insert, the turn is caught and the case stays without its extractions. A later turn on the message finds the case and never writes them. |
| Consumer.HandleAgainKeepsCase | src/AuditSync.OracleConsumer.App/Services/AuditConsumerBackgroundService.cs:85-156 | After a first turn that inserted a case (committed, or caught when the batch insert or the commit threw), a second fault-free turn on the message finds that case. It commits without a new case, leaves the case tables alone, and bumps the counter by one. |
| Consumer.RedeliveryKeepsCase | src/AuditSync.OracleConsumer.App/Services/AuditConsumerBackgroundService.cs:155-174 | A record delivered again after a first turn that inserted a case, whether that turn committed or was caught, creates no second case, leaves the case tables as they were, and commits. |
| Consumer.RunStopsAtCancellation | src/AuditSync.OracleConsumer.App/Services/AuditConsumerBackgroundService.cs:158-168 | Nothing after a cancellation or disposal is consumed. |
| Consumer.RunKeepsInvariant | src/AuditSync.OracleConsumer.App/Services/AuditConsumerBackgroundService.cs:51-175 | The invariant holds after any run of turns. |
| Consumer.AuditConsumerBackgroundService.CommitRecord | src/AuditSync.OracleConsumer.App/Services/AuditConsumerBackgroundService.cs:156 | `Commit` appends the record's position to the log, or throws and appends nothing. |
| Consumer.AuditConsumerBackgroundService.HandleMessage | src/AuditSync.OracleConsumer.App/Services/AuditConsumerBackgroundService.cs:85-156 | The method body from the target check on produces exactly the outcome, tables, identifiers and log events of `Handle`. |
| Consumer.AuditConsumerBackgroundService.SaveStep | src/AuditSync.OracleConsumer.App/Services/AuditConsumerBackgroundService.cs:103-107 | The upsert and the rest of the turn match `SaveStage`. |
| Consumer.AuditConsumerBackgroundService.RulesStep | src/AuditSync.OracleConsumer.App/Services/AuditConsumerBackgroundService.cs:109-121 | The rule load, the no-rules commit, the extraction and the rest of the turn match `RulesStage`. |
| Consumer.AuditConsumerBackgroundService.CaseStep | src/AuditSync.OracleConsumer.App/Services/AuditConsumerBackgroundService.cs:123-156 | The case creation and the final commit match `CaseStage`. |
| Consumer.AuditConsumerBackgroundService.ProcessDelivery | src/AuditSync.OracleConsumer.App/Services/AuditConsumerBackgroundService.cs:53-174 | One turn of the loop, with the id assigned in place, matches `Step`. |
| Consumer.AuditConsumerBackgroundService.Turn | src/AuditSync.OracleConsumer.App/Services/AuditConsumerBackgroundService.cs:51-175 | One turn, read against the run from that delivery on: a stop ends the run with no event, and any other outcome leaves the rest of the run to the later deliveries. |
| Consumer.AuditConsumerBackgroundService.Execute | src/AuditSync.OracleConsumer.App/Services/AuditConsumerBackgroundService.cs:51-175 | The `while` loop over a finite run of deliveries ends with exactly the tables, identifier source, log and turn count of `Run`. |

## Left out

- Regular-expression semantics, including the 100 ms timeout. These are an
  oracle that answers `Invalid`, `Timeout` or a list of matches. "The pattern
  has a group" is read as the oracle reporting at least one group.
- JSON decoding (`JsonSerializer.Deserialize`, case-insensitive property
  names). This is an oracle that answers a message, null or an error. Null
  strings inside a decoded message are not modelled: every message string is
  a value, except `PrivilegeUsed`, which the entity declares nullable.
- `DateTime.UtcNow`. Each turn gets one clock reading, which stands for every
  timestamp that turn writes (`CreatedAt`, `UpdatedAt`, `ExtractedAt`,
  `ProcessedAt`). The audit rows' `PROCESSED_AT`/`CONSUMED_AT` and the value
  rows' `SYS_GUID()` ids and timestamps are not modelled.
- The text format of `Guid.NewGuid()`. Identifiers come from a counter, which
  gives the distinctness the code relies on.
- Oracle and Dapper connection handling. A failing store call throws before
  it changes anything. The model does not cover a failure in the middle of a
  statement sequence: a lost connection between the DELETE and the INSERT of
  `SaveExtractedValuesAsync`, or partway through the per-row INSERTs of
  `CreateBatchAsync`.
- Concurrency: the `SemaphoreSlim` double-checked lock of `RegexRuleEngine`
  and the thread safety of `OffsetManager`'s `ConcurrentDictionary`.
  Everything runs sequentially.
- The five-second `Task.Delay` after a caught exception, and a cancellation
  that fires during that delay. The model treats a caught exception as the
  end of the turn, with no commit.
- Logging, `Program.cs` (dependency injection and hosting), and the
  `KafkaConsumerService` wrapper. `Consume` and `Commit` are events that the
  environment plays through a `Delivery`.
- Consumer.AuditConsumerBackgroundService.Execute: runs over a finite
  sequence of deliveries and stops when they run out. The source loops until
  cancelled, and the `IsCancellationRequested` test at the top of its loop is
  modelled as a delivery that reports cancellation.
- Text.ToLowerIdempotent: `ToLower` is modelled for ASCII letters only.
  Culture-specific lower-casing of other letters is not modelled, and neither
  is culture-specific number formatting in the synthesised id.
- SQL `ORDER BY` ties (`RULE_ORDER`, `EXTRACTED_AT`) are read as keeping
  table order. Oracle does not promise any particular order for ties.
- The `cases` table has no unique constraint on `AUDIT_LOG_ID` in the model.
  At most one case per audit log is an invariant the services keep, proved in
  `Consumer.StepKeepsInvariant`.
- CaseRepository.GetByAuditLogId: `QueryFirstOrDefault` runs without
  `ORDER BY`, so the database may return any case of the audit log. The model
  returns the first in table order. `CaseRepository.OnlyCaseOfAuditLog` shows
  the choice is immaterial while at most one case per audit log is stored.
- CaseExtractionRepository.BatchReadBack: Oracle stores an empty string as
  NULL. The model stores text values as given, so an empty captured value
  reads back as `""` here, where the program reads null.
- CaseService.CreatedReadBack: for the same reason, an empty extracted value
  reads back as `Some("")` in the model and as null in the program.
- The order of deliveries is arbitrary: the environment may deliver any
  record, again or not. Under Kafka a record whose offset was not committed
  is handed out again only after a restart or rebalance, and only if no
  later commit on its partition moved past it. The model does not decide
  which records come back.
- `ExtractedData` values that the consumer loop never builds, the
  `RuleResult` model, and the entity classes' timestamp properties are not
  modelled.
