# Ciel verdict path: a Dafny model

Ciel simulates a Solana transaction, runs a set of checkers over the trace, scores their findings and signs a
verdict. This project models that path and the state machines it rests on, and proves what they promise:

- the commitment over checker outputs and the attestation wire format (`CheckerTypes`, `StableSort`, `OutputsHash`,
  `Attestation`, `TextCodecs`, `Pea`);
- the state machines over time (`CircuitBreaker`, `AccountCache`, `OutcomeCapture`, `Staleness`);
- trace building and batch loading (`Executor`, `BatchLoader`);
- the checkers (`AuthorityDiff`, `ApprovalAbuse`, `OracleFeeds`, `OracleSanity`, `IntentDiff`);
- scoring and the pipeline that ties them together (`Scorer`, `Pipeline`).

`Prelude` holds bytes, little-endian numbers, sums and enumerations of maps; `Chain` holds the ledger's vocabulary.
Code that updates fields or loops is a class or a method, proved against a function on values; the theorems are
about those functions. Time is a natural number that does not run backwards, hashing and signing are parameters, map
iteration order is an arbitrary listing of the keys, and every RPC, database or simulator answer is arbitrary.

Check everything with `dafny verify dfyconfig.toml`.

Places where the code does not do what it, or its documentation, says; the model follows the code:

- The breaker's HalfOpen state is documented as letting one request through (crates/ciel-fork/src/rpc.rs:31); it lets
  through all of them (`CircuitBreaker.HalfOpenAdmitsEveryone`, with a schedule from the new breaker in
  `CircuitBreaker.TwoProbesInFlight`), so there is one probe exactly when one caller asks before anybody reports
  (`CircuitBreaker.OneProbeIff`).
- Eviction from the account cache can be observed when an entry is marked monitored after its plain TTL, and only then
  (`AccountCache.EvictionUnobservableIff`). `get` checks and removes in two steps, so it can delete an entry that was
  inserted or revived in between (`AccountCache.OvertakenGetLosesInsert`); `AccountCache.RacingGetsAgreeIff` says
  exactly when racing gets do no harm.
- A batch load of a duplicated key can return two different accounts when the entry expires between its two reads, and
  only then (`BatchLoader.SlotsAgreeIff`).
- Outcome capture, however healthy, never decides a pending row when a batch of older rows have malformed signatures,
  and may not when ties of time go against it (`OutcomeCapture.EverDecidedIff`, `OutcomeCapture.AlwaysDecidedIff`).
  Ciel itself writes 64 bytes or NULL (crates/ciel-pipeline/src/pipeline.rs:220), but the column has no length
  constraint (migrations/002_tx_signature.sql:6), so malformed rows take another writer of the table.
- The approval checker reads a call list that is not in execution order, so a pass does not always protect: an inner
  revoke under an earlier instruction hides an unlimited approval (`ApprovalAbuse.EarlyInnerRevokeHidesAbuse`);
  `ApprovalAbuse.PassLeavesAbuseIff` says exactly when.
- `from_pea_json` documents, and section 6 of Ciel PEA / 1.0 demands, a comparison with the JSON `attestation` object;
  the code never reads it (`Pea.AttestationObjectIgnored`), so an envelope showing another verdict there is accepted
  (`Pea.SwappedObjectIsAccepted`).
- The comment at crates/ciel-checkers/src/intent_diff.rs:453-458 treats summed lamport deltas as the user's change
  plus fee noise; summed over all accounts they are the fee alone, so honest native-SOL transfers and deposits are
  reported as mismatches (`IntentDiff.NativeOutflowPassesIff`). The simulator records no token deltas
  (crates/ciel-fork/src/executor.rs:96 and 117), so no swap intent ever matches, and token transfers pass only for
  amounts of nothing or amounts that saturate the tolerance (`IntentDiff.SimulatedSwapNeverMatches`,
  `IntentDiff.SimulatedOutflowPassesIff`).
- The pipeline hands the oracle checker an empty price cache (crates/ciel-pipeline/src/pipeline.rs:157), so no price
  deviation is ever found end to end (`Pipeline.OracleCheckSeesNoPrices`).
- An intent that acknowledges multisig work lowers the durable-nonce handoff flag from Critical to High
  (`AuthorityDiff.HandoffFlag`); the pipeline passes no intent, so end to end the handoff is still blocked.
- Several mainnet feeds are registered as both sides of their asset (crates/ciel-checkers/src/oracle_cache.rs:411-415,
  for one); such a feed is compared with itself (`OracleSanity.SelfPairedFeedNeverDeviates`).

## Model

| member | source | states |
|---|---|---|
| `CheckerTypes.OutputRoundTrip` | crates/ciel-checkers/src/traits.rs:152-204 | An output's Borsh encoding is self-delimiting: whatever bytes follow it, decoding returns the output and exactly those bytes |
| `CheckerTypes.OutputsRoundTrip` | crates/ciel-checkers/src/hash.rs:32-37 | The concatenation of encodings, which has no count prefix, decodes to exactly the list that was encoded |
| `CheckerTypes.FlagLayout` | crates/ciel-checkers/src/traits.rs:148-162 | A flag's bytes are the code's length and bytes, then the message's, then the data's |
| `CheckerTypes.FlagsLayout` | crates/ciel-checkers/src/traits.rs:192-204 | Flags follow one another in list order |
| `CheckerTypes.OutputEnds` | crates/ciel-checkers/src/traits.rs:192-204 | An output starts with its name's length and bytes and ends with its details' |
| `CheckerTypes.OutputMiddle` | crates/ciel-checkers/src/traits.rs:119-204 | In between: 0 or 1 for passed, 0 to 4 for None to Critical, the number of flags, the flags |
| `Prelude.LeBytesByPlace` | spec/ciel-pea-1.0.md:93-107 | Integers are stored least significant byte first |
| `StableSort.SortIsSorted` | crates/ciel-checkers/src/hash.rs:30 | The sort orders its input under any total preorder (its permutation is the function's own postcondition) |
| `StableSort.SortIsStable` | crates/ciel-checkers/src/hash.rs:30 | Members tied with each other keep their original order |
| `StableSort.SortedIsUnique` | crates/ciel-checkers/src/hash.rs:28-30 | Two sorted lists with the same members are equal, when tied members are equal |
| `OutputsHash.CollectCompleted` | crates/ciel-checkers/src/hash.rs:19-26 | The loop over the map keeps exactly the completed outputs, in the order the map yields them |
| `OutputsHash.FeedHasher` | crates/ciel-checkers/src/hash.rs:32-37 | The bytes fed to the hasher are the concatenated encodings, or the `expect` panics exactly when an output is too long for Borsh |
| `OutputsHash.HashPreimage` | crates/ciel-checkers/src/hash.rs:18-40 | Filter, sort and feed compute the preimage that the following rows characterise, for every iteration order |
| `OutputsHash.HashedInNameOrder` | crates/ciel-checkers/src/hash.rs:28-30 | In the list a preimage decodes to, of any two names the earlier is a prefix of the later or has the smaller byte where they first differ |
| `OutputsHash.HashedOutputs` | crates/ciel-checkers/src/hash.rs:18-40 | That list holds the outputs of the completed checkers, all of them and nothing else |
| `OutputsHash.PreimageIsSome` | crates/ciel-checkers/src/hash.rs:34-35 | Hashing panics exactly when some completed output does not fit Borsh's u32 lengths |
| `OutputsHash.PreimageDecodes` | crates/ciel-checkers/src/hash.rs:18-40 | A preimage decodes to the completed outputs sorted by name |
| `OutputsHash.OrderIndependentIff` | crates/ciel-checkers/src/hash.rs:28-36 | Map order has no effect if and only if completed outputs of equal name are equal, or some output does not fit and every order panics |
| `OutputsHash.ClashMakesOrderMatter` | crates/ciel-checkers/src/hash.rs:28-30 | Two different completed outputs under one name always give two iteration orders with different preimages |
| `OutputsHash.SamePreimageIff` | crates/ciel-checkers/src/hash.rs:18-40 | For results keyed by checker name, two preimages are equal if and only if the same checkers completed with the same outputs, timed-out entries and order notwithstanding |
| `CircuitBreaker.CircuitBreaker.IsAvailable` | crates/ciel-fork/src/rpc.rs:62-77 | The answer and the new state, field by field |
| `CircuitBreaker.CircuitBreaker.RecordSuccess` | crates/ciel-fork/src/rpc.rs:80-87 | The breaker is as new |
| `CircuitBreaker.CircuitBreaker.RecordFailure` | crates/ciel-fork/src/rpc.rs:90-127 | The pruning loop and the three transitions compute the specified next state |
| `CircuitBreaker.RunRefinesTrace` | crates/ciel-fork/src/rpc.rs:62-127 | On every run with a monotone clock, the pruned breaker is in the state that the unpruned history of failures since the last success dictates |
| `CircuitBreaker.OpenedIffFiveFailures` | crates/ciel-fork/src/rpc.rs:17-21 | After any run the breaker is out of Closed if and only if five failures lie within ten seconds of each other with no success after the first of them |
| `CircuitBreaker.BreakerInvariant` | crates/ciel-fork/src/rpc.rs:80-127 | After any run, Closed is equivalent to no `opened_at`; Closed has fewer than five stored failures, Open and HalfOpen exactly five, and `opened_at` is the last failure |
| `CircuitBreaker.BlockedWhileOpen` | crates/ciel-fork/src/rpc.rs:66-75 | From Open, while no success is reported and the open period lasts, no sequence of questions and failures gets anyone admitted |
| `CircuitBreaker.FailureBlocks` | crates/ciel-fork/src/rpc.rs:90-127 | A failure at t that leaves the breaker Open keeps every caller away until t plus the open period |
| `CircuitBreaker.ScheduleIsRun` | crates/ciel-fork/src/rpc.rs:190-231 | Every interleaving of callers, who lock once to ask and once to report, drives the breaker like one sequence of events |
| `CircuitBreaker.AdmissionFromTrace` | crates/ciel-fork/src/rpc.rs:190-231 | Under every interleaving, a caller is admitted if and only if there are no five failures in a window since the last success, or somebody has probed since the last failure, or the open period since the last failure is over |
| `CircuitBreaker.HalfOpenAdmitsEveryone` | crates/ciel-fork/src/rpc.rs:62-77 | Any valid schedule ending in HalfOpen can be extended by any new callers, and all of them are admitted |
| `CircuitBreaker.AdmittedTogether` | crates/ciel-fork/src/rpc.rs:62-77 | Callers whom the breaker would each admit alone are all in flight after asking one after another |
| `CircuitBreaker.OneProbeIff` | crates/ciel-fork/src/rpc.rs:62-77 | Once the open period is over and before anybody reports, at most one probe is in flight if and only if at most one caller asked |
| `CircuitBreaker.TwoProbesInFlight` | crates/ciel-fork/src/rpc.rs:62-127 | A valid schedule from the new breaker reaches HalfOpen with two probes in flight |
| `AccountCache.AccountCache.Get` | crates/ciel-fork/src/cache.rs:59-74 | The answer, and removal of exactly the expired entry asked for |
| `AccountCache.AccountCache.EvictStale` | crates/ciel-fork/src/cache.rs:97-112 | Exactly the expired entries go, and the count returned is how many there were |
| `AccountCache.AccountCache.Insert` | crates/ciel-fork/src/cache.rs:77-87 | The key's entry is replaced, everything else stays |
| `AccountCache.AccountCache.MarkMonitored` | crates/ciel-fork/src/cache.rs:90-94 | A present entry is marked without an expiry check, an absent one is not created |
| `AccountCache.StoredIsLogged` | crates/ciel-fork/src/cache.rs:59-112 | On every run, races included, what the store holds for a key is what a log that never evicts says |
| `AccountCache.HitIsLatestAndYoung` | crates/ciel-fork/src/cache.rs:59-74 | On every run a hit is the latest insertion of its key and no older than the larger TTL |
| `AccountCache.GetsAgreeWithLog` | crates/ciel-fork/src/cache.rs:59-112 | On a sequential run in which no mark revives an expired entry, every get answers what the log answers |
| `AccountCache.EvictionUnobservableIff` | crates/ciel-fork/src/cache.rs:90-112 | However gets and evictions are interleaved with given insertions and marks, all gets agree with the log, if and only if no mark falls between an entry's two expiry times |
| `AccountCache.RevivalIsObservable` | crates/ciel-fork/src/cache.rs:90-94 | Each reviving mark has an interleaving that tells the cache from the log |
| `AccountCache.AgreesThroughoutIff` | crates/ciel-fork/src/cache.rs:59-112 | On any timed run, overtaken gets included, all gets at all prefixes agree with the log if and only if no mark revives an entry already removed and no overtaken get removes a live entry |
| `AccountCache.RacingGetsAgreeIff` | crates/ciel-fork/src/cache.rs:59-74 | When every removal follows a check that saw a stale entry, gets agree with the log throughout if and only if revivals come in time and nothing inserted or revived between a check and its removal is alive at the removal |
| `AccountCache.UndisturbedGetsAgree` | crates/ciel-fork/src/cache.rs:59-74 | With no reviving marks and no insertion of a key between a check of it and its removal, racing gets agree with the log throughout |
| `AccountCache.OvertakenGetLosesInsert` | crates/ciel-fork/src/cache.rs:59-74 | The smallest run in which an overtaken get deletes a new insertion, so that gets no longer agree with the log |
| `OutcomeCapture.VerdictLog.UpdateVerdictOutcome` | crates/ciel-pipeline/src/outcome.rs:289-307 | Outcome and slot of one row are replaced, or nothing changes when the update fails |
| `OutcomeCapture.VerdictLog.CaptureCycle` | crates/ciel-pipeline/src/outcome.rs:136-183 | The loop performs exactly the decided writes up to the first failed update, and succeeds exactly when none failed |
| `OutcomeCapture.StepWritesPending` | crates/ciel-pipeline/src/outcome.rs:136-225 | A step writes pending rows only, each once, with a slot exactly when not expired, and leaves all other rows alone |
| `OutcomeCapture.WrittenOutcome` | crates/ciel-pipeline/src/outcome.rs:230-286 | A write says landed for a transaction that went through, reverted for one that failed, both with its slot, and expired for one the RPC does not know past the TTL |
| `OutcomeCapture.WrittenIff` | crates/ciel-pipeline/src/outcome.rs:136-286 | When the database takes every update, a cycle writes a row if and only if it was fetched, its signature is 64 bytes, and the RPC has seen it or not seen it past the TTL; within the TTL an unknown row is never written |
| `OutcomeCapture.DecidedRowsAreFrozen` | crates/ciel-pipeline/src/outcome.rs:190-225 | A decided row is never written again, whatever happens afterwards |
| `OutcomeCapture.WriteOnce` | crates/ciel-pipeline/src/outcome.rs:136-307 | Over every run, whatever the RPC and database do, no row is written twice, only APPROVE rows are written, and the final row shows the write |
| `OutcomeCapture.HealthyCycleDecides` | crates/ciel-pipeline/src/outcome.rs:230-286 | A healthy cycle writes an outcome for every fetched row that is past the TTL and has a 64-byte signature |
| `OutcomeCapture.DueAfterStep` | crates/ciel-pipeline/src/outcome.rs:136-183 | A healthy step takes exactly the fetched rows out of the due set and leaves the stuck set as it was |
| `OutcomeCapture.CycleProgress` | crates/ciel-pipeline/src/outcome.rs:190-225 | A healthy cycle clears the due rows or a batch of them less the stuck rows |
| `OutcomeCapture.CaptureDrains` | crates/ciel-pipeline/src/outcome.rs:136-307 | k due rows are all decided after ceil(k/rate) healthy cycles even as newer rows arrive, where rate is the batch size less the rows with malformed signatures (the batch size itself when there are none) |
| `OutcomeCapture.StuckRowsStarveTheRest` | crates/ciel-pipeline/src/outcome.rs:190-247 | With a batch of malformed signatures older than a time, no run ever decides a row created then or later, whatever older rows there are and whatever arrives |
| `OutcomeCapture.DecidedOrStarved` | crates/ciel-pipeline/src/outcome.rs:136-307 | A decidable row is decided in every healthy run with as many cycles as due rows if fewer than a batch of malformed rows are no newer, and in no run at all if a batch of them are older |
| `OutcomeCapture.AlwaysDecidedIff` | crates/ciel-pipeline/src/outcome.rs:136-307 | It is decided in every long enough healthy run, however the database breaks ties, if and only if fewer than a batch of malformed rows are no newer than it |
| `OutcomeCapture.EverDecidedIff` | crates/ciel-pipeline/src/outcome.rs:136-307 | It is decided in some long enough healthy run if and only if fewer than a batch of malformed rows are older than it |
| `OutcomeCapture.RunAgainst` | crates/ciel-pipeline/src/outcome.rs:190-225 | Between those bounds some healthy run of any length, breaking ties towards malformed rows, leaves it undecided |
| `OutcomeCapture.RunInFavour` | crates/ciel-pipeline/src/outcome.rs:190-225 | And some healthy run of any sufficient length, breaking ties towards it, decides it |
| `OutcomeCapture.SomeBatch` | crates/ciel-pipeline/src/outcome.rs:190-225 | Every table has a batch the query may return that puts any chosen rows first among those of the same time |
| `OutcomeCapture.SomeHealthyRun` | crates/ciel-pipeline/src/outcome.rs:136-183 | From every table there are healthy runs of any number of cycles |
| `Attestation.Offsets` | spec/ciel-pea-1.0.md:87-107 | Every field sits at the offset the specification gives |
| `Attestation.DecodeEncode` | crates/ciel-signer/src/attestation.rs:63-120 | Decoding undoes encoding for every attestation |
| `Attestation.EncodeDecode` | crates/ciel-signer/src/attestation.rs:63-89 | Every 132-byte string is the encoding of the attestation it decodes to |
| `Attestation.ConstructedBytes` | crates/ciel-signer/src/attestation.rs:42-120 | The constructor writes CIEL, version 1, the verdict as 0 for APPROVE, 1 for WARN, 2 for BLOCK, 3 for TIMEOUT, and every argument at its place |
| `Attestation.ExpiryIsTwoSlotsOn` | crates/ciel-signer/src/attestation.rs:95-120 | The expiry is slot + 2 if and only if that does not wrap |
| `Attestation.PolicyRoundTrip` | crates/ciel-signer/src/attestation.rs:152-190 | Decoding undoes encoding of policy attestations |
| `Attestation.PolicyReencodes` | crates/ciel-signer/src/attestation.rs:152-168 | An 86-byte string is a policy payload if and only if its last byte is a boolean, and then re-encodes to itself |
| `Attestation.OverrideRoundTrip` | crates/ciel-signer/src/attestation.rs:196-231 | Decoding undoes encoding of override attestations |
| `Attestation.OverrideReencodes` | crates/ciel-signer/src/attestation.rs:196-212 | Every 86-byte string is an override payload and re-encodes to itself |
| `Attestation.ConstructedPolicyBytes` | crates/ciel-signer/src/attestation.rs:152-190 | What the policy constructor writes, byte by byte: CILP, version 1, its arguments, not revoked |
| `Attestation.ConstructedOverrideBytes` | crates/ciel-signer/src/attestation.rs:196-231 | What the override constructor writes, byte by byte: CLOV, version 1, its arguments |
| `Attestation.MagicsSeparate` | crates/ciel-signer/src/attestation.rs:152-231 | Payloads with the three magics never coincide, though two layouts have the same length |
| `Attestation.PayloadsNeverCoincide` | crates/ciel-signer/src/attestation.rs:91-231 | Bytes built by the three constructors never coincide, whatever they are given |
| `TextCodecs.HexRoundTrip` | crates/ciel-signer/src/pea.rs:69-88 | Hex decoding undoes hex encoding |
| `TextCodecs.HexByPlace` | crates/ciel-signer/src/pea.rs:69-88 | Two lower-case digits per byte, the high half first |
| `TextCodecs.Base64RoundTrip` | crates/ciel-signer/src/pea.rs:69-88 | Base64 decoding undoes base64 encoding, for every length |
| `TextCodecs.Base64ByPlace` | crates/ciel-signer/src/pea.rs:69-88 | Every three bytes are spelled as the four base-64 digits of their 24-bit number in the standard alphabet |
| `TextCodecs.Base64TailOne` | crates/ciel-signer/src/pea.rs:69-88 | A last single byte is spelled by two characters and `==` |
| `TextCodecs.Base64TailTwo` | crates/ciel-signer/src/pea.rs:69-88 | A last pair of bytes is spelled by three characters and `=` |
| `TextCodecs.Base64Length` | crates/ciel-signer/src/pea.rs:69-88 | Four characters per three bytes begun |
| `TextCodecs.Base64IsCanonical` | crates/ciel-signer/src/pea.rs:135-147 | The strict decoder accepts nothing but canonical encodings |
| `Pea.ToPeaJson` | crates/ciel-signer/src/pea.rs:57-100 | The envelope built member by member is the specified one: optional members appear exactly when given |
| `Pea.RequiredOnTheWire` | spec/ciel-pea-1.0.md:71-78 | The required members, under the names and with the version strings of the specification |
| `Pea.ObjectShowsHead` | crates/ciel-signer/src/pea.rs:66-80 | The attestation object shows magic, version, transaction hash and verdict under their names |
| `Pea.ObjectShowsScores` | crates/ciel-signer/src/pea.rs:66-80 | It shows both scores, the outputs hash and the time-out under their names |
| `Pea.ObjectShowsSlots` | crates/ciel-signer/src/pea.rs:66-80 | It shows slot, expiry, signer and time under their names |
| `Pea.OptionalMembers` | crates/ciel-signer/src/pea.rs:89-100 | Flags and intent are there exactly when given |
| `Pea.FlagsListed` | crates/ciel-signer/src/pea.rs:89-100 | Flags are listed in the order given |
| `Pea.FlagMembers` | crates/ciel-signer/src/pea.rs:26-42 | What a flag shows, with its severity as INFO, WARN or BLOCK |
| `Pea.IntentMembers` | crates/ciel-signer/src/pea.rs:43-55 | What an intent shows, leaving out what is absent |
| `Pea.WireRoundTrip` | crates/ciel-signer/src/pea.rs:124-160 | The wire member written for an attestation reads back as that attestation |
| `Pea.EnvelopeRoundTrip` | crates/ciel-signer/src/pea.rs:57-174 | Reading a written envelope returns the attestation and signature, for all flags and intents |
| `Pea.ParseReadsThreeMembers` | crates/ciel-signer/src/pea.rs:112-174 | The parse depends on three top-level members only |
| `Pea.UnknownMembersIgnored` | spec/ciel-pea-1.0.md:182-196 | Adding unknown top-level members never changes the parse |
| `Pea.AttestationObjectIgnored` | crates/ciel-signer/src/pea.rs:102-160 | Replacing the JSON attestation object never changes the parse |
| `Pea.SwappedObjectIsAccepted` | crates/ciel-signer/src/pea.rs:57-174 | A written envelope showing any other attestation, another verdict included, is accepted as the original one |
| `Pea.ObjectIsAmbiguous` | crates/ciel-signer/src/pea.rs:66-80 | Attestations differing in a magic that is no UTF-8 have the same JSON object |
| `Pea.ReencodeNeverRejects` | crates/ciel-signer/src/pea.rs:143-160 | Neither Borsh decoding nor the re-encode comparison can reject an envelope |
| `Pea.AcceptedWireIsCanonical` | crates/ciel-signer/src/pea.rs:124-160 | A wire member is accepted as an attestation exactly when it holds that attestation's canonical text |
| `Pea.AcceptedIff` | crates/ciel-signer/src/pea.rs:112-174 | Exactly which envelopes are accepted, and as what |
| `Pea.WireRefusedIff` | crates/ciel-signer/src/pea.rs:122-160 | Which test a refused wire member fails first |
| `Pea.RefusedIff` | crates/ciel-signer/src/pea.rs:112-174 | Why an envelope is refused: its version, then its wire member, then its signature |
| `Executor.ComputeBalanceDeltas` | crates/ciel-fork/src/executor.rs:150-164 | The loop computes the specified deltas, with i64 casts and subtraction wrapping |
| `Executor.DeltaIsDifference` | crates/ciel-fork/src/executor.rs:150-164 | A delta is the true difference exactly when that fits an i64, and is zero exactly when the balances agree |
| `Executor.DeltasSumToTotals` | crates/ciel-fork/src/executor.rs:150-164 | Over distinct accounts with balances below 2^63, deltas sum to total after minus total before |
| `Executor.ComputeAccountChanges` | crates/ciel-fork/src/executor.rs:166-201 | The loop collects exactly the accounts whose owner, lamports or data length changed |
| `Executor.ChangedIff` | crates/ciel-fork/src/executor.rs:166-201 | An account has a record if and only if its owner, lamports or data length changed; the record shows both sides |
| `Executor.DeltaIffLamportChange` | crates/ciel-fork/src/executor.rs:150-201 | A key has a delta if and only if one of its change records shows a lamport change |
| `Executor.ExtractCpiGraph` | crates/ciel-fork/src/executor.rs:208-269 | The nested loops list all top-level calls, then all inner calls by instruction |
| `Executor.CallShape` | crates/ciel-fork/src/executor.rs:208-269 | A call resolves its program and accounts by index, out-of-range ones to the zero key, and keeps index, height and data |
| `Executor.InnerCallIsListed` | crates/ciel-fork/src/executor.rs:238-266 | Every inner call is in the graph after the instructions, under its own instruction and height |
| `Executor.GraphStartsWithInstructions` | crates/ciel-fork/src/executor.rs:208-236 | Entry i of the graph is signed instruction i, at height 1, whatever the inner calls are |
| `Executor.GraphIsTopThenInner` | crates/ciel-fork/src/executor.rs:208-269 | The graph lists the instructions, then all inner calls, which execution interleaves |
| `Executor.Locate` | crates/ciel-fork/src/executor.rs:208-269 | Every executed call is an instruction, or an inner call whose later inner calls in the graph all run after it |
| `Executor.DetectTokenApprovals` | crates/ciel-fork/src/executor.rs:369-423 | The loop finds exactly the nine-byte token approvals with three accounts |
| `Executor.DetectedIff` | crates/ciel-fork/src/executor.rs:369-423 | Exactly the nine-byte approvals of the token program with three accounts are detected, with their source, delegate, owner and amount |
| `Executor.ApprovalIsInGraph` | crates/ciel-fork/src/executor.rs:369-423 | Each approval found matches source, delegate, amount and owner of a height-1 graph entry |
| `AuthorityDiff.ScanCalls` | crates/ciel-checkers/src/authority_diff.rs:95-124 | The first pass gives each matching call its flag with the severity that SeverityByNumbers states, in order |
| `AuthorityDiff.AcknowledgeAll` | crates/ciel-checkers/src/authority_diff.rs:126-150 | The in-place second pass changes each acknowledged flag as specified and no other |
| `AuthorityDiff.Summarize` | crates/ciel-checkers/src/authority_diff.rs:152-165 | Severity is taken before the scratch field is stripped from every flag |
| `AuthorityDiff.Check` | crates/ciel-checkers/src/authority_diff.rs:83-184 | The three passes together compute the report that the following rows characterise |
| `AuthorityDiff.FlaggedIff` | crates/ciel-checkers/src/authority_diff.rs:186-350 | A call is flagged if and only if it is a token call with first byte 1, 6, 9, 16 or 18, an upgradeable-loader call with first byte 3, 4, 5 or 7, or a Squads call carrying another known program |
| `AuthorityDiff.SeverityByNumbers` | crates/ciel-checkers/src/authority_diff.rs:95-150 | The final severity of every flag in numbers: its start, the known-program rule, the height, the nonce and the acknowledgement |
| `AuthorityDiff.FlagContents` | crates/ciel-checkers/src/authority_diff.rs:199-350 | What a flag says of its call: index, height, nonce, and the account it targets |
| `AuthorityDiff.FlagNames` | crates/ciel-checkers/src/authority_diff.rs:322-379 | It names the first known program among the accounts, and a handoff targets the first other than Squads |
| `AuthorityDiff.ReportedIff` | crates/ciel-checkers/src/authority_diff.rs:95-184 | The report holds the flag of every flagged call, scratch severity removed, and nothing else |
| `AuthorityDiff.CallBoundsReport` | crates/ciel-checkers/src/authority_diff.rs:152-157 | The report is at least as severe as the flag of any of its calls |
| `AuthorityDiff.FlagBounds` | crates/ciel-checkers/src/authority_diff.rs:356-429 | Every flag ends at Low or above, and at High or above when its call names a known program |
| `AuthorityDiff.AcknowledgementIsMild` | crates/ciel-checkers/src/authority_diff.rs:126-150 | An acknowledgement lowers a flag by at most one level and never raises it |
| `AuthorityDiff.SilentIffNoFlags` | crates/ciel-checkers/src/authority_diff.rs:152-165 | Severity is None if and only if there are no flags, and the check passes if and only if there are none |
| `AuthorityDiff.DeeperIsNoMilder` | crates/ciel-checkers/src/authority_diff.rs:381-387 | Moving a call deeper neither adds nor removes its flag and never lowers it |
| `AuthorityDiff.MoreOrDeeperIsNoMilder` | crates/ciel-checkers/src/authority_diff.rs:95-165 | Appending calls or increasing stack heights never lowers the report's severity |
| `AuthorityDiff.HandoffFlag` | crates/ciel-checkers/src/authority_diff.rs:322-387 | After an AdvanceNonce, a Squads call carrying another known program is Critical, or High when acknowledged |
| `AuthorityDiff.HandoffIsCritical` | crates/ciel-checkers/src/authority_diff.rs:83-184 | One such call makes the whole report Critical whatever else the graph holds, High at least when acknowledged |
| `ApprovalAbuse.Check` | crates/ciel-checkers/src/approval_abuse.rs:63-100 | The loop with its suffix scan flags exactly the unlimited approvals to unknown delegates that nothing later in the list revokes; severity is High exactly when there are flags |
| `ApprovalAbuse.FlaggedIff` | crates/ciel-checkers/src/approval_abuse.rs:63-168 | A position is flagged if and only if its call is a token Approve or ApproveChecked of the largest u64 to an unregistered delegate and no later call revokes the source; in bytes and account places |
| `ApprovalAbuse.BackwardPass` | crates/ciel-checkers/src/approval_abuse.rs:63-168 | One backward pass with a set of revoked sources flags the same calls |
| `ApprovalAbuse.DelegationProvenance` | crates/ciel-checkers/src/approval_abuse.rs:112-168 | A delegate left by folding the calls comes from an approval after which nothing touches its source |
| `ApprovalAbuse.PassingLeavesNoAbuse` | crates/ciel-checkers/src/approval_abuse.rs:63-100 | If the checker passes, folding the calls in list order leaves no source with an unlimited unknown delegate |
| `ApprovalAbuse.PassLeavesAbuseIff` | crates/ciel-checkers/src/approval_abuse.rs:63-168 | When the checker passes, executing the transaction leaves such a delegate if and only if some signed instruction is an abusive approval whose source nothing that runs after it touches |
| `ApprovalAbuse.PassProtects` | crates/ciel-checkers/src/approval_abuse.rs:162-168 | A pass protects in execution order whenever no instruction makes an inner revoke of what a later instruction abusively approves |
| `ApprovalAbuse.EarlyInnerRevokeHidesAbuse` | crates/ciel-checkers/src/approval_abuse.rs:162-168 | A transaction, with owner accounts in place, that passes and still leaves an unlimited unknown delegate |
| `ApprovalAbuse.PassesIffNothingExposed` | crates/ciel-checkers/src/approval_abuse.rs:63-168 | The checker passes if and only if no source is left exposed, where only a revoke clears an exposure |
| `ApprovalAbuse.DetectedApprovalIsFlagged` | crates/ciel-checkers/src/approval_abuse.rs:63-168 | Every abusive approval the executor lists is flagged at its own graph entry unless a revoke follows it |
| `BatchLoader.ForkSimulator.Partition` | crates/ciel-fork/src/simulator.rs:241-255 | Hits are what the cache held before the load; misses are listed in order; only entries of missed keys leave the cache |
| `BatchLoader.ForkSimulator.Gather` | crates/ciel-fork/src/simulator.rs:257-281 | Each answer goes to the cache and to its own slot, up to the first missing account, or the index panics |
| `BatchLoader.ForkSimulator.Inject` | crates/ciel-fork/src/simulator.rs:283-292 | Every account found goes into the SVM in order, until one is rejected |
| `BatchLoader.ForkSimulator.UnwrapAll` | crates/ciel-fork/src/simulator.rs:301-302 | Unwrapping panics exactly when a slot is empty and otherwise returns every slot |
| `BatchLoader.SlotsFilledIff` | crates/ciel-fork/src/simulator.rs:264-281 | With no account missing, every slot is filled if and only if there is one answer per miss |
| `BatchLoader.CacheHoldsResults` | crates/ciel-fork/src/simulator.rs:241-281 | After a load the cache holds each result at its key, duplicates included |
| `BatchLoader.ForkSimulator.LoadAccounts` | crates/ciel-fork/src/simulator.rs:241-303 | For every provider: a missing account is reported, a wrong number of answers never yields a result, one answer per miss never panics, slot i is its hit or its own answer, and cache and SVM hold result i at key i whenever slots of equal keys agree |
| `BatchLoader.SlotsAgreeIff` | crates/ciel-fork/src/simulator.rs:241-281 | Slots of equal keys agree under every consistent provider if and only if no entry is read twice with its expiry in between |
| `BatchLoader.StraddlingSlotsDiffer` | crates/ciel-fork/src/simulator.rs:241-281 | A straddled expiry has a consistent provider under which one key gets two different accounts |
| `OracleFeeds.CanonicalFeedMap.Register` | crates/ciel-checkers/src/oracle_cache.rs:331-345 | All three maps are updated, the Pyth key last |
| `OracleFeeds.InvolutionIff` | crates/ciel-checkers/src/oracle_cache.rs:331-368 | After any registration history, crossing over twice returns to every known feed one starts from, if and only if each registration that a later one overlaps has had both its feeds registered again |
| `OracleFeeds.WhollyReplacedPairsUp` | crates/ciel-checkers/src/oracle_cache.rs:331-368 | After any such history a feed and its cross reference know each other under one asset, on opposite sides |
| `OracleFeeds.CleanHistoryIsInvolution` | crates/ciel-checkers/src/oracle_cache.rs:362-368 | In particular after any history with fresh assets and feeds not shared between assets |
| `OracleFeeds.CrossReferenceFrom` | crates/ciel-checkers/src/oracle_cache.rs:362-368 | Crossing over leads from a feed's last registration to the current other feed of that registration's asset |
| `OracleFeeds.SharedFeedBreaksPairing` | crates/ciel-checkers/src/oracle_cache.rs:331-368 | A feed shared by two assets breaks the involution |
| `OracleSanity.Check` | crates/ciel-checkers/src/oracle_sanity.rs:84-242 | The loop with its set of checked pairs computes the specified flags and the worst severity |
| `OracleSanity.DeviatesIff` | crates/ciel-checkers/src/oracle_sanity.rs:184-192 | Prices deviate if and only if some confidence is positive and they differ by more than sigma times each confidence |
| `OracleSanity.StaleIff` | crates/ciel-checkers/src/oracle_sanity.rs:123-148 | A stale flag is raised if and only if the feed was read and its price is older than allowed |
| `OracleSanity.WideIff` | crates/ciel-checkers/src/oracle_sanity.rs:150-172 | A wide flag is raised if and only if the feed was read and its confidence exceeds the allowed part of a positive price |
| `OracleSanity.UnknownIff` | crates/ciel-checkers/src/oracle_sanity.rs:103-122 | An unknown flag is raised if and only if the account read is neither cached nor registered |
| `OracleSanity.SeverityIff` | crates/ciel-checkers/src/oracle_sanity.rs:233-269 | Critical for a deviation, else High for a stale or unknown feed, else Medium for a wide one, else None |
| `OracleSanity.ScanAppends` | crates/ciel-checkers/src/oracle_sanity.rs:103-230 | Each read only appends its flags: stale, then wide, then deviation |
| `OracleSanity.DeviationReports` | crates/ciel-checkers/src/oracle_sanity.rs:192-230 | A deviation flag reports, as Switchboard's and as Pyth's, the prices of the feeds registered as such |
| `OracleSanity.OneDeviationPerPair` | crates/ciel-checkers/src/oracle_sanity.rs:174-230 | At most one deviation flag per unordered pair, for any reads |
| `OracleSanity.DeviationsFromKeys` | crates/ciel-checkers/src/oracle_sanity.rs:174-230 | A pair is flagged if and only if one of its feeds was read and the two cached prices deviate |
| `OracleSanity.OrderDoesNotMatter` | crates/ciel-checkers/src/oracle_sanity.rs:103-242 | Permuting or repeating reads changes neither the deviating pairs nor the severity |
| `OracleSanity.SameFlags` | crates/ciel-checkers/src/oracle_sanity.rs:103-230 | With feeds that pair up and labelled prices, permuting or repeating reads neither adds a new flag nor loses one, reported prices included |
| `OracleSanity.PermutedReadsPermuteFlags` | crates/ciel-checkers/src/oracle_sanity.rs:103-230 | Under the same conditions a permutation of the reads raises every flag exactly as often |
| `OracleSanity.PairRaisesOneFlag` | crates/ciel-checkers/src/oracle_sanity.rs:192-230 | A pair raises the same flag, Switchboard and Pyth prices in their places, whichever of its feeds is read first |
| `OracleSanity.SelfPairedFeedNeverDeviates` | crates/ciel-checkers/src/oracle_sanity.rs:103-230 | After registrations that pair up, no deviation flag ever names a feed registered as both sides of its asset, for any reads and prices |
| `OracleSanity.CanDeviateIff` | crates/ciel-checkers/src/oracle_sanity.rs:174-230 | Among feeds that pair up, some reads and prices raise a deviation flag naming a known feed if and only if it is not its own cross reference |
| `OracleSanity.EmptyCacheFindsUnknownOnly` | crates/ciel-checkers/src/oracle_sanity.rs:103-242 | On an empty price cache the only findings are reads of unregistered feeds, and the severity is High exactly when there is one |
| `IntentDiff.ToleranceIff` | crates/ciel-checkers/src/intent_diff.rs:491-498 | The saturating test accepts exactly the stated band, plus everything once the allowance saturates |
| `IntentDiff.SaturationOnlyAccepts` | crates/ciel-checkers/src/intent_diff.rs:491-498 | A wrong answer is always an acceptance with both products at the top of the range |
| `IntentDiff.ExactForSmallAmounts` | crates/ciel-checkers/src/intent_diff.rs:491-498 | For u64-sized amounts the test is exactly the band |
| `IntentDiff.SumsFit` | crates/ciel-checkers/src/intent_diff.rs:459-481 | Delta sums over bounded traces, running sums included, cannot overflow |
| `IntentDiff.DeltaCounts` | crates/ciel-checkers/src/intent_diff.rs:459-481 | A token delta counts for its own mint and no other; lamport deltas count for wrapped SOL alone |
| `IntentDiff.SwapPassesIff` | crates/ciel-checkers/src/intent_diff.rs:261-330 | A swap passes if and only if the net outflow is in the band, something came in, and enough of it |
| `IntentDiff.OutflowPassesIff` | crates/ciel-checkers/src/intent_diff.rs:336-445 | A transfer or deposit passes if and only if the net outflow is within its band |
| `IntentDiff.NativeOutflowPassesIff` | crates/ciel-checkers/src/intent_diff.rs:336-481 | On a simulated trace a native-SOL transfer or deposit passes if and only if the stated amount is within tolerance of the fee, or of zero when the transaction failed |
| `IntentDiff.HonestNativeOutflowFails` | crates/ciel-checkers/src/intent_diff.rs:448-481 | So transfers and deposits of at least twice the fee are always reported as mismatches |
| `IntentDiff.NothingComesIn` | crates/ciel-fork/src/executor.rs:80-122 | A trace without token deltas shows no change of any mint but wrapped SOL, which on a simulated trace changes by minus the fee |
| `IntentDiff.SimulatedSwapNeverMatches` | crates/ciel-checkers/src/intent_diff.rs:261-330 | No swap intent ever matches a trace the simulator builds |
| `IntentDiff.SimulatedOutflowPassesIff` | crates/ciel-checkers/src/intent_diff.rs:336-445 | On every trace without token deltas, a transfer or deposit of another mint passes if and only if its amount is zero or saturates the tolerance |
| `Scorer.ComputeSafetyScore` | crates/ciel-pipeline/src/scorer_stub.rs:14-43 | The running subtraction gives the same score for every iteration order |
| `Scorer.ScoreByCounting` | crates/ciel-pipeline/src/scorer_stub.rs:14-43 | The score is 100 less 5, 15, 40 and 100 for each Low, Medium, High and Critical output and 10 for each time-out, kept in 0..100 |
| `Scorer.TimeoutsAlone` | crates/ciel-pipeline/src/scorer_stub.rs:20-59 | Time-outs alone are approved up to three of them and warned about up to six |
| `Scorer.CriticalAgreesWithThreshold` | crates/ciel-pipeline/src/scorer_stub.rs:45-59 | The Critical short-circuit never changes a verdict |
| `Scorer.JudgeByTotal` | crates/ciel-pipeline/src/scorer_stub.rs:14-59 | The verdict follows from the total penalty alone |
| `Scorer.HarsherIsNoMilder` | crates/ciel-pipeline/src/scorer_stub.rs:14-59 | Raising penalties or adding checkers never moves the verdict towards APPROVE |
| `Scorer.EncodedScoreDecides` | crates/ciel-pipeline/src/scorer_stub.rs:45-65 | The encoded score stays in 0..10000 and determines the verdict before any downgrade |
| `Scorer.SevereFindingDecides` | crates/ciel-pipeline/src/scorer_stub.rs:14-59 | A High or Critical finding rules out APPROVE, a Critical one forces BLOCK, whatever else is found |
| `Staleness.StalenessTracker.RecordUpdate` | crates/ciel-fork/src/staleness.rs:81-84 | The tracker follows the stream of updates by one more |
| `Staleness.StalenessTracker.State` | crates/ciel-fork/src/staleness.rs:87-96 | Over any history of updates: Fresh if and only if something was heard within both thresholds, Expired if and only if nothing was heard within the timeout threshold |
| `Staleness.LastHeardDecides` | crates/ciel-fork/src/staleness.rs:81-106 | Keeping the last update alone loses nothing: anything was heard within a span exactly when the last update was |
| `Staleness.FreshNeedsUpdate` | crates/ciel-fork/src/staleness.rs:81-96 | A stream that was not Fresh is Fresh again only through an update that arrived within the warn threshold |
| `Pipeline.ResultsAreKeyedByName` | crates/ciel-checkers/src/runner.rs:20-53 | Results of honest checkers are keyed by the names inside them, whichever time out |
| `Pipeline.UniqueCheckerResult` | crates/ciel-checkers/src/runner.rs:20-53 | The last checker of a name has its own output, or its time-out, under that name |
| `Pipeline.EvaluateRawTx` | crates/ciel-pipeline/src/pipeline.rs:90-258 | The evaluation, error and timeout paths included, computes the specified response |
| `Pipeline.TimeoutIsFaithful` | crates/ciel-pipeline/src/pipeline.rs:260-309 | A timeout response carries a TIMEOUT attestation with both sentinels |
| `Pipeline.ResponseMatchesAttestation` | crates/ciel-pipeline/src/pipeline.rs:90-309 | Every response's bytes decode to its verdict, slot, signer and expiry; each score is 0xFFFF if and only if the verdict is TIMEOUT |
| `Pipeline.VerdictByte` | crates/ciel-pipeline/src/pipeline.rs:187-206 | Every response is signed over CIEL, version 1 and a verdict byte that is 0, 1, 2 or 3 exactly for APPROVE, WARN, BLOCK or TIMEOUT |
| `Pipeline.SignedBytes` | crates/ciel-pipeline/src/pipeline.rs:173-206 | All 132 bytes of a judged response, and what is signed |
| `Pipeline.TimeoutBytes` | crates/ciel-pipeline/src/pipeline.rs:260-309 | All 132 bytes of a timeout response, and what is signed |
| `Pipeline.VerdictIs` | crates/ciel-pipeline/src/pipeline.rs:114-178 | Which verdict is given, from the deadline, the updates heard and the findings counted |
| `Pipeline.ErrorIff` | crates/ciel-pipeline/src/pipeline.rs:90-309 | Exactly when an evaluation fails, and with which error |
| `Pipeline.ApproveIff` | crates/ciel-pipeline/src/pipeline.rs:114-258 | APPROVE is signed if and only if in time, with an update heard within both staleness thresholds of the sample, and a total penalty of at most 0.30 |
| `Pipeline.ApproveHappens` | crates/ciel-pipeline/src/pipeline.rs:114-258 | There are worlds in which APPROVE is signed |
| `Pipeline.ApproveMeansNothingSevere` | crates/ciel-pipeline/src/pipeline.rs:114-258 | No APPROVE carries a completed checker at High or Critical |
| `Pipeline.HandoffIsBlocked` | crates/ciel-pipeline/src/pipeline.rs:114-258 | A transaction opening with AdvanceNonce and carrying a Squads call with another known program gets BLOCK or TIMEOUT once the authority check completes, whatever simulation, inner calls and other checkers do |
| `Pipeline.NonceIff` | crates/ciel-checkers/src/authority_diff.rs:462-474 | The nonce test holds exactly for a first instruction of the System Program with first byte 4 |
| `Pipeline.UpgradeIsNotApproved` | crates/ciel-checkers/src/authority_diff.rs:260-320 | A signed program upgrade is never APPROVE once the authority check completes |
| `Chain.KnownPrograms` | crates/ciel-checkers/src/program_registry.rs:49-60 | Which programs the mainnet registry knows |
| `Pipeline.AbusiveApprovalIsNotApproved` | crates/ciel-pipeline/src/pipeline.rs:114-258 | A signed unlimited approval to an unknown delegate that nothing later in the call list revokes is never APPROVE once the approval check completes |
| `Pipeline.OracleCheckSeesNoPrices` | crates/ciel-pipeline/src/pipeline.rs:151-160 | A completed oracle check says High for reads of unregistered feeds and otherwise nothing; no deviation can arise |
| `Pipeline.SignedHash` | crates/ciel-pipeline/src/pipeline.rs:187-206 | The attestation bytes decode to the hash of the preimage of the results returned with them |
| `Pipeline.CommitmentIff` | crates/ciel-pipeline/src/pipeline.rs:114-258 | Two signed attestations carry the hashes of the preimages of the results returned with them, and those preimages are equal if and only if the same checkers completed with the same outputs |

## Left out

- SHA-256 and Ed25519: parameters; hash properties are stated on the hash input.
- UTF-8 and JSON text: strings and JSON flag data are their bytes; the UTF-8 decoder used to show the magic is a parameter.
- Floating point: scores are exact hundredths and oracle prices are reals, so rounding at the 0.4 and 0.7 thresholds is not captured; neither is i64 overflow of a feed's age.
- Clock readings: one per breaker call and one per batch of cache insertions, where the source reads the clock again for each pruned failure and each insertion.
- Shared cache during a batch load: no other task changes the cache while the fetch is awaited.
- Lamport running sums: the map's i64 values are added in one step; fewer than 2^64 of them cannot overflow an i128.
- NothingComesIn: its clause on wrapped SOL, and so SimulatedSwapNeverMatches, NativeOutflowPassesIff and HonestNativeOutflowFails, take it as given that LiteSVM conserves lamports but for the fee and that balances fit an i64.
- LiteSVM, RPC clients, Geyser, SQL text and the servers: their answers are arbitrary inputs.
- Intent keywords: an arbitrary predicate on flag codes stands for the keyword table.
- Flag messages, details, timings and `authority_type_name`: text for people.
- `parse_intent_goal`, `to_raw_units` and the oracle byte parsers: free text and floating point.
- `detect_oracle_reads`: the reads are an arbitrary list. The single-key `load_account` is the one-element batch without duplicates.
- Nesting below the first level: the inner calls of an instruction run in the order recorded, whatever their height.
- Concurrent outcome capture: one capture task, and verdicts arrive between its cycles, not during one; a cycle whose fetch fails is no step.
- Stub checkers, LLM and enforcement crates, demo, SDKs, gateway, fixtures and programs/ciel-assert: not part of this model.
