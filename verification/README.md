# Verified model of the Vault lease broker and its offline tools

This project models, in Dafny, the parts of vault-secrets-bridge whose correctness is hardest to see from the code,
and proves what they promise. `dafny verify dfyconfig.toml` checks everything.

## What is modelled

**The lease broker.** Issue and revoke keep four things in step: the live accessors in Vault, the lease map in memory,
the lease file, and the replay cache.

- `Broker` is a small-step machine: every request is a thread with a program counter, every label one micro-step or an
  event outside (a token created after its reply was lost, an expiry, a crash, a restart). Any enabled label may come
  next and every outside call may fail, so a run is an arbitrary interleaving with arbitrary faults. The micro-steps are
  the calls of `handleIssue` and `handleRevoke` (internal/broker/server.go:112-195), with `stateStore.set` and `remove`
  split into the tentative change of the map, the rename and the unlock. In internal/broker/server.go: `Check` is
  lines 121 and 169, `Admit` 125 and 173 with 222-242, `Acquire` 131 and 178, `Look` 134 and 181, `RevokeDone` and
  `RevokeFailed` 135 and 186, `IssueDone`, `IssueRefused` and `IssueLost` 140, `SealDone` and `SealFailed` 146,
  `BeginStore`, `Rename`, `PersistFailed` and `Reply` 152-157 and 190-194, `UndoDone` and `UndoFailed` 148 and 153;
  `Restart` is the loading of the file (internal/broker/state.go:25-56). `Expire` is any death of a token outside the
  broker: the end of its lease, or a revoke without an answer that takes effect late.
- `BrokerInvariant`, `BrokerOrphans`, `BrokerSequential`, `BrokerIsolation`, `BrokerAdmission`, `BrokerRecovery` and
  `BrokerOutage` hold the results about all runs: the invariant, the bound on live tokens, the refinement of a
  sequential broker ordered by `operationMu`, isolation of leases, the bound on replays, recovery after any mix of
  faults, and the one way in which recovery fails.
- `Server`, `StateStore` and `Nonces` are the objects themselves, as classes whose methods change their fields: the
  critical sections of `Server.Server` are proved to compute the operations the machine refines. `StateCodec` is the
  text of the lease file and its loader, `LeaseKeys` the hashed keys, `Requests`, `Paths`, `Base64` and `Admission` validation,
  freshness and replay.

**The offline planner.** `Decimal` and `StrictJson` are the number tokens and the strict decoder over a stateful token
stream; `Calendar` and `Planner` read requests; `Plans` follows chains of plans; `JsonText` and `PlanText` are
the compact text of a document and the text that the plan identifier hashes.

**The safety gate.** `Findings` removes duplicates inside the slice it reads and searches for words; `Legal` matches
manifest records by deleting from a map.

`Strings` holds the string order, the two character predicates of the configuration and facts about enumerations.

The rules that both an operation and its specification use are pinned by statements that do not use them: `Utf8` and
`Hex` for characters, order and keys, `FileLaws` for the lease file, `ValidationLaws` for broker requests, `RequestLaws`
and `CalendarLaws` for the planner, `JsonLex` for the text of documents.

## Assumptions

- SHA-256: a digest is any function to 64 hex digits. Where distinct keys matter, the statement asks that the digest not
  collide on the two preimages in question.
- A rename is atomic and durable.
- Vault makes an accessor once. A revoke answered without error means the accessor is dead (this covers the replies for
  accessors Vault no longer knows); an answer with an error, or a lost one, leaves liveness open.
- Every clock reading is an input. Results that need readings not to decrease in the order of the nonce lock, or the two
  readings of one request to lie close together, say so.
- The token stream is what the standard library's lexer delivers; `More` answers as that lexer does.
- Sorting returns some permutation in which no later element belongs before an earlier one.

## Where the code differs from its documentation

- docs/SECURITY-MODEL.md:23 says that repeated nonces fail closed. The freshness window reaches as far into the future
  as into the past while a nonce is remembered for one window after its use, so one signed body with a future timestamp
  can be accepted more than once, and at most three times. Exactly when, and that the bound is reached:
  `Admission.AtMostThreeAcceptances`, `Admission.RepeatsExactly`, `Admission.ThreeAcceptances`.
- The store writes files of any size and the loader refuses more than 4 MiB (internal/broker/state.go:35), so a map that
  was persisted without error can stop every later start: `StateCodec.LoadAfterPersist`, `BrokerOutage.OutageReachable`.
- The replay bound assumes a clock that does not step back: `Nonces.ClockStepBack`.

## Model

| member | source | states |
|---|---|---|
| `BrokerInvariant.StepKeeps` | internal/broker/server.go:112-195 | every enabled micro-step of any thread, any fault, crash or restart keeps the invariant: one holder of `operationMu`, memory equals the file whenever the store lock is free, every recorded accessor was made for its key, and what the holder knows at each program point |
| `BrokerInvariant.RunKeeps` | internal/broker/server.go:112-195 | the invariant holds after every run, whatever the interleaving and the faults |
| `BrokerInvariant.RunExpires` | internal/broker/server.go:112-195 | after every run the expired tokens are exactly those its `Expire` steps name, and none of them lives; no other step adds any |
| `BrokerInvariant.LookFinds` | internal/broker/state.go:58-62 | under the lock the lookup sees the persisted map, and the test for the empty string is exact because no recorded accessor is empty |
| `BrokerInvariant.RollbackRestores` | internal/broker/state.go:64-96 | undoing a failed persist restores the map as it was, with and without a previous entry |
| `BrokerInvariant.CountFinds` | internal/broker/state.go:98-102 | in every run, a reader of the count outside `operationMu` that gets the store lock sees the number of leases in the file |
| `BrokerInvariant.TentativeCount` | internal/broker/state.go:64-96 | without the store lock it would not: how the tentative map differs in size until the rename |
| `BrokerOrphans.LiveTokensBounded` | internal/broker/server.go:131-157 | after every run a key has at most 1 + faults live tokens, where only its lost issue replies, failed compensating revokes and crashes with its accessor in hand or asked for are charged |
| `BrokerOrphans.LiveTokensAccounted` | internal/broker/server.go:131-157 | every live accessor is the recorded one, the one the lock holder has in hand, or an orphan, and a key has no more orphans than faults |
| `BrokerOrphans.DebtPaidByFaults` | internal/broker/server.go:141-155 | orphans plus lost requests that may still be served never exceed the faults of the run |
| `BrokerSequential.RefinesSequentialBroker` | internal/broker/server.go:131-195 | in every run the finished critical sections, in lock order, are atomic issue and revoke operations on the map the one before left; what an operation leaves alive lives or has expired, and no other token known to it lives; the file is the replay of the operations, including the one in progress as far as it has heard answers |
| `BrokerSequential.StepOrdered` | internal/broker/server.go:131-195 | every step keeps the section in progress on the course of its atomic operation, or ends it with that operation's state and reply |
| `BrokerSequential.IssueOK` | internal/broker/server.go:133-157 | 200 means: the old recorded accessor is dead, a new one was made for the key and lives unless it has expired, it is recorded under the key, every other lease is unchanged |
| `BrokerSequential.IssueLives` | internal/broker/server.go:133-157 | in every run a 200 leaves its token alive unless an `Expire` step of that run names it |
| `BrokerSequential.RevokeNoContent` | internal/broker/server.go:181-194 | 204 means: the key is absent, its recorded accessor is dead, every other lease is unchanged |
| `BrokerSequential.FailureKeepsLeases` | internal/broker/server.go:133-193 | the replies each operation can give, and that 500 and 502 leave every lease as it was |
| `BrokerSequential.RepliesExactly` | internal/broker/server.go:133-194 | 502 exactly when a call to Vault failed, the revoke of the recorded token or the issue; 500 exactly when Vault did its part and encryption or persisting failed; 200 and 204 otherwise |
| `BrokerSequential.OthersSurvive` | internal/broker/server.go:131-195 | no operation kills any token but the recorded one of its key |
| `BrokerSequential.OldDiesBeforeNew` | internal/broker/server.go:134-140 | in every run, when Vault is asked for a token the recorded one is dead, and the policies handed over are a strictly increasing list of 1 to 16 allowed names |
| `BrokerSequential.ReplayReachesLast` | internal/broker/server.go:131-195 | performing a sequential history from the empty map ends in the map its last operation left |
| `BrokerRecovery.FaultFreeSuccess` | internal/broker/server.go:131-195 | from any state that keeps the invariant with the lock free, every section of every fault-free continuation answers 200 or 204, whatever faults came before |
| `BrokerRecovery.AdmittedRequestSucceeds` | internal/broker/server.go:131-195 | an admitted issue can always go on to 200 with its key recorded and the recorded token alive, an admitted revoke to 204 with the key gone from memory and file; every other lease stays |
| `BrokerRecovery.NewRequestServed` | internal/broker/server.go:112-195 | from every reachable state in which the broker is up, with the lock held or free, a new valid and signed request with an unused nonce, and room in the cache, can be served without a fault |
| `BrokerRecovery.RestartServes` | internal/broker/state.go:25-56 | after a crash, if the start accepts the file, one valid signed request succeeds and every other lease is as it was |
| `BrokerOutage.OutageReachable` | internal/broker/state.go:35 | one process that serves 1024 issues for distinct leases, with accessors of the accepted size, all successfully and without a fault, does not survive its next crash: no start ever succeeds again |
| `BrokerOutage.OutageExists` | internal/broker/state.go:35 | there are a configuration within the broker's limits and valid requests with which this happens |
| `BrokerOutage.RestartExactly` | internal/broker/state.go:25-56 | whenever the broker is down, a start succeeds if and only if the text of the file is at most 4 MiB |
| `BrokerRecovery.LockCanBeFreed` | internal/broker/server.go:131-132 | no program point of the lock holder is a dead end: the lock can become free without a fault |
| `BrokerRecovery.ReachableIsReady` | internal/broker/server.go:112-195 | every reachable state meets the hypotheses of the recovery results |
| `BrokerIsolation.RunIsolated` | internal/broker/server.go:133-154 | over every run without a step of a key, that key's recorded accessor and its live tokens stay the same |
| `BrokerIsolation.StepIsolated` | internal/broker/server.go:133-154 | no step of another key, no crash and no restart touches a key's record or the liveness of its tokens |
| `BrokerIsolation.ThreadsConcernTheirPair` | internal/broker/types.go:164-167 | a validated request works on the key of a valid (host, volume) pair if and only if it names that pair |
| `Broker.ReloadWellFormed` | internal/broker/state.go:25-56 | the modelled start-up code meets what the machine assumes of a restart: it reads back the persisted map, or refuses it exactly when its text exceeds 4 MiB |
| `LeaseKeys.PreimageInjective` | internal/broker/types.go:164-167 | host, NUL and rest determine host and rest when the host contains no NUL |
| `LeaseKeys.DistinctPairsDistinctKeys` | internal/broker/types.go:164-167 | two valid pairs have one state key if and only if they are the same pair, unless the digest collides on them |
| `LeaseKeys.NamesHaveNoNul` | internal/broker/config.go:228-240 | a valid name contains no NUL |
| `LeaseKeys.LeaseKeyExactly` | internal/broker/state.go:49-50 | a lease key is a text that decodes, as hex, to 32 bytes |
| `LeaseKeys.EncodedIsLeaseKey` | internal/broker/types.go:164-167 | the hex text of any 32 bytes is one |
| `Hex.EncodeDecodes` | internal/broker/types.go:166 | hex texts decode to the bytes they encode |
| `Hex.EncodesExactly` | internal/model/model.go:459-464 | a text encodes n bytes if and only if it is 2n lower-case hex digits |
| `Utf8.BelowIsBytewise` | internal/broker/types.go:95 | comparing characters is comparing the bytes of the strings |
| `Utf8.NameExactly` | internal/broker/config.go:228-240 | a name is 1 to `maximum` bytes, all of them in the listed alphabet, and not a special directory |
| `Utf8.SecretExactly` | internal/broker/config.go:242-252 | a secret is 1 to `maximum` bytes with no control byte among them |
| `Server.Server.HandleIssue` | internal/broker/server.go:112-158 | the handler over the store, the cache and Vault: 400 exactly for invalid requests, the section runs exactly for admitted ones and leaves memory, file, live tokens and reply of the sequential operation; otherwise nothing but the cache changes |
| `Server.Server.HandleRevoke` | internal/broker/server.go:160-195 | the same for revoke |
| `Server.Server.IssueSection` | internal/broker/server.go:131-157 | the code between lock and reply computes the sequential issue on memory, file, Vault and status, for every combination of outside answers |
| `Server.Server.RevokeSection` | internal/broker/server.go:178-194 | the same for revoke |
| `Server.Server.VerifyHostRequest` | internal/broker/server.go:222-242 | admission is signature and unused nonce; an unsigned request leaves the replay cache alone |
| `StateStore.StateStore.Set` | internal/broker/state.go:64-81 | success exactly when the accessor is valid and no call fails; memory, file and temporaries afterwards; every intermediate image of the directory holds the whole old or the whole new file |
| `StateStore.StateStore.Delete` | internal/broker/state.go:83-96 | the same for removal, with an absent key succeeding without a write |
| `StateStore.StateStore.Accessor` | internal/broker/state.go:58-62 | the empty answer means exactly "not recorded"; any other answer is also what the file holds |
| `StateStore.StateStore.Count` | internal/broker/state.go:98-102 | the count is the number of entries in the file |
| `StateStore.Directory.Replace` | internal/broker/state.go:104-147 | all or nothing: nil leaves the new content, an error the old, every image in between one of the two; a temporary file survives only a failure whose cleanup also failed |
| `StateStore.Directory.Fill` | internal/broker/state.go:127-141 | the temporary file has the full content and owner-only mode before it may be renamed, and the target is not touched |
| `StateStore.OpenStateStore` | internal/broker/state.go:25-56 | a store is opened exactly when the file loads, with memory and file in agreement, for every reader of JSON that reads what the store writes |
| `StateStore.JsonFaithful` | internal/broker/state.go:112 | the text written for a lease map decodes to that map, for every map |
| `StateCodec.RoundTrip` | internal/broker/state.go:112 | decoding the encoded map gives version 1 and the same map: keys, values, escapes and order included |
| `StateCodec.DecodeReadsOwn` | internal/broker/state.go:38-46 | there is a reader of all texts the store writes |
| `StateCodec.LoadAfterPersist` | internal/broker/state.go:25-56 | for every map the store can hold, and every JSON reader that reads what the store writes, load after persist is the identity if and only if the text is at most 4 MiB, and a refusal otherwise |
| `StateCodec.UnloadableLeases` | internal/broker/state.go:35 | the missing cap matters: 1024 leases with accessors of 4096 bytes make a file that does not load |
| `StateCodec.LoadStateStore` | internal/broker/state.go:25-56 | the chain of checks returns what `Load` says, for absent, unsafe, oversized, malformed and good files, whatever the JSON reader returns; what that is, `FileLaws.LoadsExactly` says |
| `FileLaws.LoadsExactly` | internal/broker/state.go:25-56 | loaded are exactly the regular files without a permission for group or others, of 1 to 4194304 bytes, that read as version 1 with keys of 32 hex-coded bytes and accessors of 1 to 4096 bytes without control bytes; unsafe are exactly those of another kind or mode |
| `FileLaws.WrittenPrivately` | internal/broker/state.go:127 | what a persist writes the owner reads and writes, and nobody else touches |
| `FileLaws.ModeIrrelevant` | internal/broker/state.go:31 | among the modes it takes the loader does not care which |
| `FileLaws.EscapeExactly` | internal/broker/state.go:112 | which characters the encoder escapes, and how: two characters, or the lower-case hex of the code |
| `StateCodec.CopyChecked` | internal/broker/state.go:47-54 | the loop accepts exactly the maps whose keys are 32 hex-coded bytes and whose accessors are valid, and copies them |
| `StateCodec.ReadQuoted` | internal/broker/state.go:112 | a string literal written with the encoder's escapes reads back as the string, leaving the text after it |
| `StateCodec.SortedEnumerates` | internal/broker/state.go:112 | the key order of the encoder is the strictly increasing enumeration of the keys |
| `Nonces.NonceCache.Use` | internal/broker/nonce.go:25-40 | the prune loop, in any visiting order, and the insertion compute the specified answer and map |
| `Nonces.AcceptsByWindow` | internal/broker/nonce.go:25-40 | with clock readings that do not decrease in lock order: accepted if and only if no earlier acceptance of the key is in its window and fewer than `maximum` keys are |
| `Nonces.AcceptsByHistory` | internal/broker/nonce.go:25-40 | for any clock: the pruned map answers as the full history of calls does |
| `Nonces.PrunedIsRemembered` | internal/broker/nonce.go:29-34 | what survives a prune is exactly the set of keys whose acceptance outlives every later reading |
| `Nonces.Bounded` | internal/broker/nonce.go:35-37 | the map never holds more than `maximum` keys |
| `Nonces.ClockStepBack` | internal/broker/nonce.go:25-40 | the clock assumption is needed for every window and every capacity of at least two: after another key is used one window later, any reading inside the first window lets the first key through again |
| `Admission.AtMostThreeAcceptances` | internal/broker/server.go:121 | one signed body is let through at most three times, at least a window apart, and once only if its timestamp is earlier than its first use by more than the delay bound; only requests that reach the cache need ordered and prompt clock readings |
| `Admission.EarlyAcceptanceRepeats` | internal/broker/server.go:238 | after any earlier uses: a body let through no later than the delay bound after its timestamp is let through again one window later |
| `Admission.RepeatsExactly` | internal/broker/server.go:238 | the condition is exact: after any acceptance a body can be let through again if and only if that acceptance came no later than the delay bound after its timestamp |
| `Admission.ThreeAcceptances` | internal/broker/types.go:119-133 | the bound three is reached |
| `Admission.AcceptancesSpaced` | internal/broker/nonce.go:25-40 | two acceptances of one body are at least the window apart |
| `BrokerAdmission.RunLetsThroughAtMostThrice` | internal/broker/server.go:121-129 | the same bounds for runs of the broker: in every interleaving between a start and the next crash, one signed body passes to `operationMu` at most three times, a window apart, and once only if it is used late |
| `BrokerAdmission.RunLetsThroughThrice` | internal/broker/server.go:121-129 | the bound is reached by a run: a request valid at its timestamp passes three times in one process |
| `BrokerAdmission.RunAccepts` | internal/broker/server.go:222-242 | in every such run a request passes exactly when its use is accepted in the stream of uses |
| `BrokerAdmission.RunTracks` | internal/broker/server.go:222-242 | the replay cache of the run is the one the stream of uses leaves, and every thread past validation was fresh at the recorded reading |
| `BrokerAdmission.DownIsUnused` | internal/broker/server.go:44-65 | whenever the broker is down, its next process starts with an empty cache and no threads |
| `Requests.ValidatePolicies` | internal/broker/types.go:94-107 | accepted lists are exactly the strictly increasing lists of 1 to 16 valid allowed names |
| `Requests.PoliciesCanonical` | internal/broker/types.go:94-107 | an accepted list is the only accepted list of its set, and the set is a non-empty part of the allowlist |
| `Base64.WholeGroups` | internal/broker/types.go:128-131 | a text decodes to exactly 3n bytes, as a nonce must to 24, if and only if without line breaks it is 4n characters of the alphabet |
| `ValidationLaws.BreaksRemoved` | internal/broker/types.go:128 | the decoder passes over carriage returns and line feeds, and over nothing else |
| `Base64.SextetExactly` | internal/broker/types.go:128 | the six bits of a character are its place in the alphabet |
| `Requests.Validate` | internal/broker/types.go:84-117 | the validation of issue and revoke requests decides validity, file fields included; what that is, `ValidationLaws.ValidExactly` says |
| `ValidationLaws.ValidExactly` | internal/broker/types.go:84-133 | validity in bytes, alphabets and numbers: version, names, timestamp within the window, nonce of 24 bytes, path, owner, mode, and 1 to 16 allowed policies in increasing order |
| `Paths.ModeExactly` | internal/broker/types.go:160-162 | the accepted modes are those by which the owner reads, nobody writes or executes, and others read only if the group does |
| `Paths.SplitExactly` | internal/broker/types.go:140 | the parts of a path are the one way to write it as slash-free pieces with slashes between them |
| `Paths.ValidRelativePath` | internal/broker/types.go:135-150 | accepted are exactly the paths of at most 240 bytes and 16 parts whose parts are proper names of at most 64 bytes: the tests for backslashes, absolute paths and normal form add nothing |
| `Paths.AcceptedStaysBelow` | internal/broker/types.go:135-150 | resolved from any directory, an accepted path ends strictly below it |
| `Paths.ValidOwnership` | internal/broker/types.go:152-158 | accepted are exactly the numbers below 2^31, with an optional plus sign and leading zeros, and minus zero |
| `Paths.OwnershipExactly` | internal/broker/types.go:152-158 | the spellings of a number below 2^31: plain, after a plus sign, or zero after a minus sign |
| `StrictJson.StrictLanguage` | internal/strictjson/value.go:44-142 | a token stream is accepted with a value if and only if it ends cleanly and prints, with members in some order, a duplicate-free tree of depth at most 16 with canonical numbers and this value |
| `StrictJson.DocumentsArePrintings` | internal/strictjson/value.go:69-142 | accepted streams and such trees correspond one to one |
| `StrictJson.TreeSound` | internal/strictjson/value.go:69-142 | what is read at any depth is the printing of a proper tree within the depth bound, followed by the tokens left |
| `StrictJson.TreeComplete` | internal/strictjson/value.go:69-142 | every printing of a proper tree within the bound is read back, whatever follows it |
| `StrictJson.PrintUnambiguous` | internal/strictjson/value.go:69-142 | two proper trees with one printing are equal, at any depth |
| `StrictJson.DepthExactly` | internal/strictjson/value.go:70-72 | a scalar inside 15 containers is accepted, inside 16 it is too deep |
| `StrictJson.SameValue` | internal/strictjson/value.go:99 | two documents have the same value if and only if they differ in the order of members only, at every level |
| `StrictJson.Parse` | internal/strictjson/value.go:54-67 | the whole decoder returns the value of the one document in the stream, or fails |
| `StrictJson.ParseToken` | internal/strictjson/value.go:69-142 | the recursive step on the stateful decoder: value returned and tokens left; it terminates on the tokens left |
| `StrictJson.ParseObject` | internal/strictjson/value.go:77-105 | from the tokens after an opening brace: the object of the member list that stands there and the tokens after its closing brace, or failure if there is none with distinct keys within the depth bound |
| `StrictJson.ParseArray` | internal/strictjson/value.go:106-123 | the same for the elements after an opening bracket |
| `Decimal.CanonicalUnsignedNumber` | internal/strictjson/value.go:144-157 | the index loop accepts exactly the decimal printings of naturals |
| `Decimal.CanonicalBijection` | internal/strictjson/value.go:144-157 | canonical strings and naturals correspond one to one |
| `Decimal.ParseUint` | internal/model/model.go:431-440 | the 64-bit conversion with its overflow tests returns the value of the digits if and only if it is below 2^64 |
| `Decimal.AcceptedTokens` | internal/model/model.go:431-440 | a canonical token denotes n exactly when it is the printing of n |
| `Planner.RequestReads` | internal/model/model.go:137-183 | a decoded value is read as a request if and only if the request is well formed and the value says it, under exactly the keys of the schema |
| `RequestLaws.RepresentsExactly` | internal/model/model.go:137-183 | a value says a request exactly when under each name of the schema, and no other name, it has what the request says |
| `RequestLaws.LeaseExactly` | internal/model/model.go:185-236 | the same for the lease and its twelve names |
| `RequestLaws.AssertionsExactly` | internal/model/model.go:238-259 | the same for the five assertions |
| `RequestLaws.TransitionLaw` | internal/model/model.go:261-281 | the four cases are one law: expected is observed; observed is 0 and the lease absent exactly for an issue, active otherwise; the target is the next generation for issue and rotate, the same one otherwise; an issue has no renewals; a renewal needs a renewable lease and fewer than 1000 |
| `RequestLaws.RenewableRange` | internal/model/model.go:268-270 | in a request well formed with a renewable lease, the flag may be false exactly if it is not a renewal |
| `RequestLaws.GenerationRange` | internal/model/model.go:261-281 | which generations may stand in an accepted request: expected as observed, 0 only for an issue, the target one more for issue and rotate |
| `RequestLaws.RenewalRange` | internal/model/model.go:218 | which renewal counts may: none for an issue, fewer than 1000 for a renewal, at most 1000 otherwise |
| `RequestLaws.PolicyRange` | internal/model/model.go:215 | which policy counts may: 1 to 64 |
| `RequestLaws.WrapRange` | internal/model/model.go:217-218 | which wrapping times may: 30 to 600 seconds, and no more than the lease lasts |
| `RequestLaws.DurationRange` | internal/model/model.go:216-233 | which durations with which ends may: a minute to twelve hours, and the end exactly so long after the start |
| `RequestLaws.ReferenceExactly` | internal/model/model.go:455-466 | a reference is the prefix and the lower-case hex text of 32 bytes |
| `CalendarLaws.InstantOrder` | internal/model/model.go:468-478 | the order of instants is the order of canonical times, field by field, and no two share one |
| `CalendarLaws.InstantsAreGapless` | internal/model/model.go:230-233 | the instants of canonical times are exactly the numbers of the seconds from year 0 to year 9999: none is skipped |
| `CalendarLaws.MonthStarts` | internal/model/model.go:468-478 | the month lengths agree with the straight-line formula |
| `CalendarLaws.YearLength` | internal/model/model.go:468-478 | the leap rule agrees with the count of leap days by division, 97 in 400 years |
| `Planner.LeaseFieldReads` | internal/model/model.go:185-236 | the same for the lease object, with its bounds and times |
| `Planner.ReadingLosesNothing` | internal/model/model.go:137-183 | the request determines the value it was read from: nothing accepted is dropped |
| `Planner.RepresentsOne` | internal/model/model.go:137-183 | a value says one request only |
| `Planner.NumeralRead` | internal/model/model.go:431-440 | a numeric field reads as n if and only if n < 2^64 and the token is the printing of n |
| `Planner.ReadRequest` | internal/model/model.go:137-183 | the reading code decides and returns what its specification says |
| `Planner.ReadLease` | internal/model/model.go:185-236 | the same for the lease |
| `Planner.ReadAssertions` | internal/model/model.go:238-259 | accepts exactly the five true assertions |
| `Planner.FillNumbers` | internal/model/model.go:206-219 | the loop over the numeric fields returns all numbers in order, or fails exactly when one field is not a number below 2^64 |
| `Planner.FillReferences` | internal/model/model.go:156-165 | the loop over the reference fields returns all references in order, or fails exactly when one is not a reference |
| `Planner.ReadUnsigned` | internal/model/model.go:431-440 | one numeric field |
| `Planner.ExactKeys` | internal/model/model.go:407-417 | for distinct keys the size and presence tests hold if and only if the key set is exactly this one |
| `Planner.AllUnique` | internal/model/model.go:480-489 | the seen-set loop holds if and only if no two positions are equal |
| `Plans.ChainReaches` | internal/model/model.go:261-305 | along every chain of accepted plans from absent: generation = 1 + rotations, renewal count = renewals since the last issue or rotation and at most 1000, no 64-bit sum wraps |
| `Plans.ChainOrder` | internal/model/model.go:261-281 | only the first request issues, nothing follows a revocation, generation 0 is never observed again |
| `Plans.ChainConnects` | internal/model/model.go:283-290 | in every chain each plan expects what it observes, the first starts from an absent lease of generation 0, and every later one where the plan before it ended |
| `Plans.PlanSays` | internal/model/model.go:283-290 | the plan names the state and generation the lease was in, and where the operation takes it |
| `Plans.NextOperations` | internal/model/model.go:261-281 | the well-formed requests that can follow an accepted one are exactly those its plan leaves open, a renewal only with a renewable lease |
| `Plans.RevokedIsTerminal` | internal/model/model.go:261-281 | no accepted request starts from a revoked lease; generation 0 is observed exactly while absent |
| `Planner.SampleWellFormed` | internal/model/model.go:185-281 | well-formed requests exist |
| `PlanText.RequestRoundTrip` | internal/model/model.go:384-405 | every well-formed request has a document, and that document is accepted and read back as the request |
| `PlanText.DocumentIsNormalised` | internal/model/model.go:384-405 | what `planID` marshals is the accepted document with its members in schema order |
| `PlanText.PlanTextInjective` | internal/model/model.go:384-405 | two request structs give the same hashed text if and only if they are equal, whether they would be accepted or not: any operation and state text, any assertions |
| `PlanText.SameTextSameDocument` | internal/model/model.go:384-405 | two accepted documents give the same hashed text if and only if they differ in the order of members only |
| `PlanText.DocumentReads` | internal/model/model.go:137-183 | a strict document is accepted as a request if and only if it represents it and the request is well formed |
| `PlanText.AcceptedIsDocument` | internal/model/model.go:137-141 | nothing but a strict document is accepted |
| `PlanText.ParseRequestDocument` | internal/model/model.go:137-183 | decoder and reader together accept exactly the streams, and return exactly the requests, that `PlanText.DocumentReads` speaks of |
| `JsonText.TextInjective` | internal/model/model.go:402 | the compact text of a document determines the document, order of members included |
| `JsonText.TextUnambiguous` | internal/model/model.go:402 | where the text of a document ends does not depend on what follows |
| `JsonLex.TextLexes` | internal/model/model.go:402 | the compact text of a document lexes to its printing |
| `JsonLex.PlanTextReadsBack` | internal/model/model.go:384-405 | the hashed text of a well-formed request, lexed and read, is that request |
| `JsonText.EncodeIsText` | internal/broker/state.go:112 | the text of the lease file is the compact text of its version and its sorted leases |
| `Findings.UniqueFindings` | internal/safety/scanner.go:323-335 | in place on the slice it reads: the prefix returned is the deduplicated old content, slots behind it are untouched |
| `Findings.ReportIsTheEnumeration` | internal/safety/scanner.go:153-159 | after any sorted permutation, the report lists the findings once each, by path and within a path by code, and only that list does |
| `Findings.DiscoveryIrrelevant` | internal/safety/scanner.go:153-159 | two scans report the same if and only if they found the same set |
| `Findings.DeduplicatedEnumerates` | internal/safety/scanner.go:323-335 | sorted input gives a strictly increasing output with the same elements |
| `Findings.BeforeTotal` | internal/safety/scanner.go:153-158 | the comparison is total on distinct findings |
| `Findings.ContainsAsciiToken` | internal/safety/scanner.go:229-248 | true if and only if some occurrence has no letter or digit beside it, overlapping candidates included; for an empty token without such a place it slices out of range |
| `Findings.WordsStandAlone` | internal/safety/scanner.go:229-252 | the token is found exactly when the content is something, the token, and something, with no listed letter or digit beside it |
| `Legal.SilentExactly` | internal/safety/legal.go:207-225 | with distinct expected IDs: no mismatch and no missing record if and only if the records are a permutation of the expected ones and those carry the attribution they need; the count is then right |
| `Legal.PassesExactly` | internal/safety/legal.go:193-227 | the whole manifest check returns nothing exactly for manifests with the named version, status, notice, module and dependency model, the root licence, and a permutation of the records |
| `Legal.HeaderReported` | internal/safety/legal.go:195-206 | which of the three header findings is reported when |
| `Legal.AttributableExactly` | internal/safety/legal.go:217 | a package and a path are needed exactly for records of dependencies |
| `Legal.VerifyLegalManifest` | internal/safety/legal.go:193-227 | the findings and their order: boundary, implementation, root licence, then those about the records |
| `Legal.CheckRecords` | internal/safety/legal.go:211-225 | a count finding exactly when the numbers differ, one mismatch per unmatched record, a missing finding exactly when an expected ID does not occur |
| `Legal.MatchRecords` | internal/safety/legal.go:215-222 | deleting from the map reports exactly the records that are not the first with their ID or differ from the table, and leaves exactly the unseen IDs |
| `Legal.TableHolds` | internal/safety/legal.go:207-210 | with distinct IDs the map holds every expected record under its ID, none replaced by a later one |
| `Legal.SameLegalRecord` | internal/safety/legal.go:229-239 | the field comparisons amount to equality, plus attribution where it is required |

## Left out

- HTTP, headers, media types, TLS, redirects, timeouts, health and readiness, shutdown: plumbing over libraries; only the outcome of a Vault call is used.
- Signature checks, key lookup and envelope encryption: the signature is a yes or no that comes with the request, encryption succeeds or fails.
- Lexing of JSON text, the bytes of a base64 text and the time library: tokens and instants are inputs, and of a base64 text only the decoded length is modelled. In `Calendar` a canonical time is a calendar text and its instant is computed.
- Flag and environment parsing and `Config.Validate`: the configuration is an input.
- Loss of a completed rename after a power failure.
- StateCodec.Decode: reads the compact form that the encoder writes. The loader itself is modelled for any reader that agrees with it on those texts, so other spellings of the JSON are covered as far as the loader goes.
- Byte strings that are not valid UTF-8: strings are sequences of Unicode scalars, which is what a JSON decoder delivers.
- A failing `json.Marshal` in the machine: it is one of the failing calls of `StateStore.Directory.Replace`, and any failing call is a failed persist there.
- Server.Server.HandleIssue: starts from the decoded request; method, media type and body reading are outside, and it runs without interleaving, which is the subject of the machine in `Broker`.
- Server.Server.HandleRevoke: the same.
- Server.Server.VerifyHostRequest: key lookup and signature verification are one yes or no.
- BrokerRecovery.AdmittedRequestSucceeds: gives a run without further faults; it does not promise that a scheduler picks it.
- The steps, gates, diagnostics and controls of a plan, and the constant licence table: constant data.
- Directory walks, import scanning, the remaining content patterns and binary scanning of the safety gate: input and output or single tests.
- The command line, its output and its localisation.
