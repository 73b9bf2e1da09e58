# Verified model of the memory store, the paid dark pool, the batching client and the arena

The project models four parts of the repository that share state, and proves what they promise over all inputs and all
runs.

- **The 1-bit memory** (`BitCodes`, `Merkle`, `PinnedSlot`, `PinnedLayout`, `MemoryStore`, `Encodings`, `Scoring`,
  `MemoryLaws`, `DecayRates`, `MemoryServices`, `Persistence`, `ChildClone`). Vectors are kept as packed signs and one
  norm; working entries decay and are evicted, pinned entries are committed to by a Merkle root; the store is saved
  column by column and cloned for a child agent.
- **The paid dark pool** (`RateLimiting`, `NonceStores`, `Payments`, `DarkPools`, `DarkPoolOffers`, `DarkPoolRuns`,
  `DarkPoolSpellings`, `DarkPoolRaces`, `DarkPoolRates`, `PaidAdds`, `X402Client`). Requests carry an EIP-3009
  authorization signed under an EIP-712 domain; the server checks it, takes a token from the signer's bucket, consumes
  the nonce and answers. Runs mix requests on both routes with purges and decay ticks.
- **The batching client** (`BatchClient`, `Usdc`, `UsdcForms`). A queue of paid authorizations with one flush in
  flight, and the exact decimal parser and printer for USDC.
- **The arena** (`Duels`, `DuelRunners`, `Leaderboard`). A block cursor that hands each chaos injection to a scored
  cycle, the runner that creates a duel and reports its cycles, and the fold of cycle reports into standings and
  rankings.

Objects that the repository updates in place are classes here; each method is proved against a function of the old
state, and the properties are lemmas about those functions. SHA-256, the rotation matrix, the L2 norm, the float32 cast
and signature recovery are arbitrary functions passed in. Binding of the Merkle root is therefore stated as "equal
contents, or two different strings among those hashed for the two roots share a digest".

How the model reads the code:

- Floats are real numbers. The clock of the memory counts whole ticks of any length, so a kind's decay over dt is the
  dt-th power of its per-tick factor in (0, 1].
- A dictionary is a sequence of entries with distinct ids in insertion order. Ids are their UTF-8 bytes and payloads
  their canonical JSON bytes.
- From validation to the commit of the nonce a request only awaits a lock whose critical section never suspends, so
  the handlers are single steps. `DarkPoolRaces` drops that and lets validations and commits of different requests
  overlap.
- The awaits of the batching client are the boundaries between its steps.

Where the code does less than its documentation says, the exact condition is proved:

- Several decay ticks equal one tick at the end if and only if for every entry the first tick is not behind its stamp, or
  all ticks are at one time, or it does not decay, or the one tick evicts it anyway
  (`MemoryLaws.ScheduleMattersExactlyWhen`).
- Short of a collision, two pinned slots have one Merkle root if and only if they have the same contents, or the leaf
  strings of one, in id order, are the strings hashed for the layer of the other's tree at the difference of the heights
  (`PinnedSlot.PinnedRootBinds`). Those strings are 64 bytes long, so a leaf string of any other length in each slot
  rules that out (`PinnedSlot.NoNodeSizedLeafBinds`); at dimension 384 a leaf has that length when id and payload
  together take 14 bytes, and then one record can have the root of two (`PinnedSlot.LeafAsNodeHasSameRoot`).
- The announced wait of the limiter is right unless the request is above the capacity of a bucket that exists
  (`RateLimiting.RetryAfterExact`).
- A nonce is signed with a missing `0x` prefix added but filed as it was spelled. Whatever bytes its spellings stand for,
  an authorization is answered 200 once per lower-cased spelling (`DarkPoolSpellings.OncePerSpelling`); for nonces of 32
  bytes in full hex that is at most twice, with and without the prefix (`DarkPoolSpellings.AtMostTwice`). The second 200
  comes if and only if the prefix is toggled, the other key is not on file, a token is left and an add brings a new id
  (`DarkPoolSpellings.RespelledIsServedExactlyWhen`), and such runs exist (`DarkPoolSpellings.BothSpellingsAreServed`).
  When every nonce of a run is spelled one way, no authorization is served twice
  (`DarkPoolSpellings.OnceWhenSpelledAlike`).
- A negative USDC amount with a fractional part does not print as a decimal (`Usdc.FormatThenParse`).
- `close()` joins a flush that is in flight instead of draining the queue (`BatchClient.CloseDrains`), and with a
  gateway key every non-empty batch is dropped (`BatchClient.NothingIsLost`).

## Model

| member | source | states |
|---|---|---|
| BitCodes.MaskOfPackedByte | agents/memory_service.py:173-194 | reading a packed byte through the sign table gives back each sign, and minus one on the zero padding |
| BitCodes.ScanIsSignDot | agents/memory_service.py:373-384 | the byte-lookup scan equals the inner product of the stored signs with the query, for every dimension |
| BitCodes.OwnCodeScansHighest | agents/memory_service.py:373-384 | a query's own code scans to exactly its l1, and no code scans beyond plus or minus that |
| BitCodes.SelfQueryEstimate | agents/memory_service.py:356-389 | a self-query is estimated at exactly 1 when l1 is positive and at 0 otherwise |
| Encodings.EncodingMeaning | agents/memory_service.py:280-318 | the code, most significant bit first, says of each row of the rotation whether the vector, less the centroid, projects on it without going negative; the rotated vector is those projections over the norm and l1 the sum of its magnitudes |
| Encodings.NothingToEncode | agents/memory_service.py:280-318 | a vector without length at the centroid has norm and l1 zero |
| Scoring.TopKIsRight | agents/memory_service.py:356-399 | the answer lists the k best without repeating an id, each scored as the inner product of the stored signs with the query over l1 times the weight, and nothing left out deserves more |
| Merkle.RootByLayers | agents/memory_service.py:466-474 | the while loop with its padding terminates and returns the layer-by-layer root |
| Merkle.RootIsTreeHash | agents/memory_service.py:451-474 | that root is the hash of the recursive duplicate-last tree of the leaves |
| Merkle.HeightIsLeast | agents/memory_service.py:467-473 | the number of layers is the least height with room for all leaves |
| Merkle.EqualRootsEqualLeaves | agents/memory_service.py:466-474 | equal roots at equal height have the same leaf digests, or two hashed node strings collide |
| Merkle.LowerTreeIsALayer | agents/memory_service.py:466-474 | of two trees with one root and distinct leaves, the lower one's leaves are, in order, the layer of the other at the height difference |
| PinnedSlot.LeafInputInjective | agents/memory_service.py:429-449 | with a NUL-free id and codes of one length, the leaf string determines id, code and payload |
| PinnedSlot.RootIgnoresOrder | agents/memory_service.py:459-466 | the root depends only on the set of pinned records, not on their storage order |
| PinnedLayout.RootLayout | agents/memory_service.py:429-474 | the root is that over the pinned entries in ascending byte order of id, each leaf the digest of id, NUL, code, NUL and payload, or the digest of nothing |
| PinnedLayout.IdOrderExists | agents/memory_service.py:459-462 | every memory has such an order of its pinned entries |
| PinnedLayout.RootOfTwo | agents/memory_service.py:429-474 | of two pinned entries, stored in either order, the one with the smaller id is hashed on the left |
| PinnedSlot.PinnedRootBinds | agents/memory_service.py:429-474 | short of a collision among the hashed strings, roots are equal if and only if the contents are the same or the leaf strings of one slot are a layer of node strings of the other |
| PinnedSlot.NoNodeSizedLeafBinds | agents/memory_service.py:429-474 | when each slot has a leaf string that is not 64 bytes long, equal roots mean equal contents or a collision |
| PinnedSlot.LeafAsNodeHasSameRoot | agents/memory_service.py:429-474 | a record whose leaf string is the join of two leaf digests has the root of those two records |
| MemoryStore.PutKeepsOrder | agents/memory_service.py:344-354 | overwriting keeps every id in its place, and a new id goes to the end |
| MemoryStore.AddedKeepsValid | agents/memory_service.py:319-354 | add succeeds exactly on a known kind and a right dimension, touches only its id, and keeps the store invariant |
| MemoryStore.DecayedKeepsValid | agents/memory_service.py:401-425 | a tick keeps the invariant: working weights stay in [0.05, 1], pinned weights stay 1, ids stay distinct |
| MemoryLaws.ScheduleIndependence | agents/memory_service.py:401-425 | any nondecreasing ticks ending at T leave the same entries and weights as one tick at T, evictions on the way included |
| MemoryLaws.ScheduleMattersExactlyWhen | agents/memory_service.py:401-425 | any nondecreasing ticks leave what one tick at the end leaves if and only if every entry is unaffected by a set-back stamp; otherwise they differ, and never keep more entries |
| MemoryLaws.FreshEntryLifetime | agents/memory_service.py:418-425 | a fresh entry outlives any schedule exactly while its factor to the power of its age is at least 0.05 |
| DecayRates.TickMeaning | agents/memory_service.py:401-425 | a tick keeps exactly the pinned entries and those with at least 0.05 left, each weight being multiplied by one factor of its own kind per tick since its stamp; a kind without a rate keeps its weight |
| DecayRates.OneTick | agents/memory_service.py:418-425 | one tick after its stamp a working entry has lost one factor of its kind, and is kept exactly while 0.05 is left |
| DecayRates.SelfQueryAfterDecay | agents/memory_service.py:319-425 | an entry added at t and decayed at T answers its own vector with the product of its kind's factor over the ticks between |
| MemoryLaws.DecayKeepsPinned | agents/memory_service.py:412-417 | decay changes no pinned record |
| MemoryLaws.InsertionOrderIrrelevant | agents/memory_service.py:271-354 | all orders of adding the same requests under distinct new ids give one pinned root, refused requests included |
| MemoryLaws.StoreRootBinds | agents/memory_service.py:451-474 | the same exact condition for the roots of two stores of one dimension, with any numbers of pinned entries |
| MemoryServices.MemoryService.SetCentroid | agents/memory_service.py:243-267 | accepted exactly on an empty store with a right dimension; stores the float32 cast, or clears it |
| MemoryServices.MemoryService.Add | agents/memory_service.py:319-354 | the new store is the specified one, with kind and pinned flag made to agree; errors change nothing |
| MemoryServices.MemoryService.Query | agents/memory_service.py:356-399 | changes nothing and returns the right answer: the k best by stored cosine times weight, best first; an empty store answers before the dimension is checked |
| MemoryServices.MemoryService.AgeInPlace | agents/memory_service.py:411-423 | the first loop ages every entry and collects exactly the ids to evict |
| MemoryServices.MemoryService.Drop | agents/memory_service.py:424-425 | the second loop removes exactly the collected ids |
| MemoryServices.MemoryService.DecayStep | agents/memory_service.py:401-425 | together they leave the survivors of the tick, in order |
| MemoryServices.MemoryService.PinnedMerkleRoot | agents/memory_service.py:451-474 | returns the root of the sorted pinned records, and the digest of the empty string for none |
| MemoryServices.BestIsTopK | agents/memory_service.py:394-399 | the selection is a sorted top k: nothing left out scores above anything returned |
| MemoryServices.SelfQueryScore | agents/memory_service.py:356-391 | an added vector queried again scores its own fresh entry at exactly 1 unless degenerate |
| Persistence.Load | agents/memory_service.py:544-663 | refuses by version and row counts in that order, else rebuilds the specified store |
| Persistence.SaveLoad | agents/memory_service.py:478-663 | what comes back is the saved store with l1, norm and weight cast to float32 and all else exact |
| Persistence.SecondSaveLoad | agents/memory_service.py:478-663 | a second save writes the same archive and a second load is the identity |
| Persistence.SaveLoadKeepsRoot | agents/memory_service.py:478-663 | saving and loading keeps the pinned root |
| Persistence.BuiltStoresRoundTrip | agents/memory_service.py:253-663 | every store built from an empty one by setting the centroid, adding and decaying comes back from a save and load with its scalars in float32 and its root unchanged |
| Persistence.LoadAccepts | agents/memory_service.py:586-639 | loading succeeds exactly on version 3 with equal row counts, and then every id is present once |
| Persistence.LoadedRows | agents/memory_service.py:640-663 | rows with distinct ids come back in order, each from its own columns, a missing payload as an empty object |
| ChildClone.CopyPinned | agents/bob.py:675-688 | the first loop copies every pinned entry and nothing else |
| ChildClone.CopyWorking | agents/bob.py:702-714 | the second loop appends the chosen working entries verbatim |
| ChildClone.CloneMemoryForChild | agents/bob.py:639-716 | the child's store is the specified clone; the parent is untouched |
| ChildClone.CloneKeepsRoot | agents/bob.py:639-688 | the child has the parent's pinned root and satisfies the store invariant |
| ChildClone.InheritsTheBest | agents/bob.py:690-714 | exactly min(cap, n) working entries are inherited, each strictly before every one left behind |
| ChildClone.ChildHoldsTheHeaviest | agents/bob.py:675-714 | the child holds every pinned entry and working entries heavier, or as heavy and later, or then of smaller id, than any left behind; nothing is left behind while there is room |
| ChildClone.InheritanceIgnoresOrder | agents/bob.py:696-703 | what is inherited does not depend on the order of the parent's map |
| ChildClone.InheritedTopHit | agents/bob.py:639-716 | child scores are parent scores of the same ids, and an inherited top hit of the parent keeps the best score in the child |
| RateLimiting.RateLimiter.TryConsume | agents/rate_limiter.py:95-142 | refuses a count that is not positive, else grants by the refilled balance and changes only this key's bucket |
| RateLimiting.RateLimiter.RetryAfterOf | agents/rate_limiter.py:112-150 | returns the specified wait and changes nothing |
| RateLimiting.SlotsValid | agents/rate_limiter.py:95-110 | every balance met in a run is between 0 and the capacity |
| RateLimiting.RefusedCallIsInvisible | agents/rate_limiter.py:95-110 | lazy refill is continuous: a refused call changes no later balance |
| RateLimiting.ClockGoesBack | agents/rate_limiter.py:101-106 | a clock that goes back refills nothing but sets the stamp back, so the time up to it is refilled again |
| RateLimiting.RateBound | agents/rate_limiter.py:95-110 | calls i to j are granted at most capacity plus refill times the time between them |
| RateLimiting.GrantedExactlyWithinAllWindows | agents/rate_limiter.py:95-110 | on a fresh key a call is granted if and only if every window it closes stays within capacity plus refill |
| RateLimiting.RetryAfterExact | agents/rate_limiter.py:112-124 | the wait is exact for all later times if and only if the request fits the capacity or the key has no bucket |
| RateLimiting.HeaderIsLeastWait | agents/dark_pool.py:894-906 | the Retry-After header is the least positive whole number of seconds after which the call succeeds |
| NonceStores.InMemoryNonceStore.Has | agents/nonce_store.py:328-339 | membership of the lower-cased key; a missing domain is an error |
| NonceStores.InMemoryNonceStore.Add | agents/nonce_store.py:341-354 | the first write of a key wins |
| NonceStores.InMemoryNonceStore.PurgeExpired | agents/nonce_store.py:356-361 | removes exactly the rows that expire at or before now, and counts them |
| NonceStores.SqliteNonceStore.Has | agents/nonce_store.py:248-264 | the same answer on the map the table stands for |
| NonceStores.SqliteNonceStore.Add | agents/nonce_store.py:266-285 | INSERT OR IGNORE is the same first-write-wins on that map |
| NonceStores.SqliteNonceStore.PurgeExpired | agents/nonce_store.py:287-292 | DELETE removes and counts the same rows |
| NonceStores.TableRefinesMap | agents/nonce_store.py:248-292 | every statement on the keyed table is the map operation, row count included |
| NonceStores.StoresAnswerAlike | agents/nonce_store.py:248-361 | over any run of operations the two stores give the same answers |
| Payments.FirstMatchSpec | agents/dark_pool.py:694-731 | the domain search finds the first candidate the payer signed under, and fails only if there is none |
| Payments.AcceptedExactlyWhen | agents/dark_pool.py:552-775 | a payment is accepted if and only if it is chargeable here and now, signed by its payer under USDC or else the gateway, and fresh under that domain |
| DarkPoolOffers.ScreenedForTheFirstReason | agents/dark_pool.py:565-672 | a payment is turned away for the first check that fails, the envelope's before the authorization's |
| DarkPoolOffers.RefusedForTheFirstReason | agents/dark_pool.py:674-775 | recovery that raises under some domain is told from another signer, and only a payment that passes all else is called replayed; a missing header gives no reason |
| DarkPoolOffers.OffersAreHonoured | agents/dark_pool.py:468-526 | a payment made out for any advertised offer, signed under the domain the offer names, is accepted exactly while its nonce is not on file there |
| Payments.SpellingDecidesTheKey | agents/dark_pool.py:733-734 | two spellings of one signed nonce share a store key if and only if both or neither carry the 0x prefix |
| DarkPools.DarkPoolServer.ValidatePayment | agents/dark_pool.py:552-775 | the loop over candidate domains and the read-only replay check return the specified verdict, error by error |
| DarkPools.DarkPoolServer.CommitNonce | agents/dark_pool.py:777-815 | succeeds exactly when the key was free, and then files it with its expiry |
| DarkPools.DarkPoolServer.Admit | agents/dark_pool.py:858-906 | refuses with 402 and no change, or with 429 announcing the wait of the bucket it changed, or admits |
| DarkPools.PayloadOfEntry | agents/dark_pool.py:929-935 | every stored id is reported with its own payload, an unknown one with an empty object |
| DarkPools.DarkPoolServer.CollectHits | agents/dark_pool.py:928-935 | attaches to each result the payload of its entry |
| DarkPools.DarkPoolServer.HandleQuery | agents/dark_pool.py:821-936 | status and new state are the specified ones; a 200 carries a right top k of the memory, a 429 the wait of the signer's bucket and its whole seconds |
| DarkPools.DarkPoolServer.CommitAndStore | agents/dark_pool.py:1067-1095 | after the earlier checks neither the commit nor the memory can refuse, so the 402 and 400 behind them are unreachable |
| DarkPools.DarkPoolServer.AddAdmitted | agents/dark_pool.py:1056-1105 | an existing id is answered 409 before the nonce is touched; otherwise nonce and entry are stored together |
| DarkPools.DarkPoolServer.HandleAdd | agents/dark_pool.py:942-1105 | status and new state are the specified ones, in the order of checks that the route documents; a 429 carries the wait of the signer's bucket and its whole seconds |
| PaidAdds.PaidAddStores | agents/dark_pool.py:1002-1086 | 400 exactly on a malformed body, a wrong dimension or another kind; a 200 appends one unpinned entry of weight 1 with the id, kind, payload and encoded vector of the body |
| PaidAdds.PaidPayloadIsReported | agents/dark_pool.py:925-935 | whatever happens after a paid add, short of another add under its id, a query that hits the id reports the payload that was added |
| DarkPoolRuns.NonceConsumedExactlyOn200 | agents/dark_pool.py:821-1105 | the nonce store changes exactly on 200; 400 and 402 change nothing, 409 and 429 at most one bucket, and only 200 and 409 spend a token |
| DarkPoolRuns.RunKeepsGuarded | agents/dark_pool.py:747-815 | in every run an authorization served and not expired by the last purge is still on file with its expiry |
| DarkPoolRuns.OncePerAuthorization | agents/dark_pool.py:747-815 | in every run with a nondecreasing clock a key is served again only for a later expiry, so no authorization is answered 200 twice under one lower-cased spelling of its nonce |
| DarkPoolSpellings.ServedAgainExactlyWhen | agents/dark_pool.py:733-815 | an authorization just answered 200 is answered 200 again, on either route, if and only if its nonce is spelled differently, that key is free, a token is left and an add is new |
| DarkPoolSpellings.SpellingsPresentAlike | agents/dark_pool.py:159-161 | until it expires a payment presents the same signed data under every spelling of its nonce, filed under that spelling |
| DarkPoolSpellings.RespelledIsServedExactlyWhen | agents/dark_pool.py:733-815 | the payment of a 200 sent again with its nonce respelled presents the same signed data, and the exact condition for its second 200 |
| DarkPoolSpellings.OncePerSpelling | agents/dark_pool.py:747-815 | whatever bytes nonce texts stand for, nothing signed is answered 200 twice in a run under one lower-cased spelling |
| DarkPoolSpellings.AtMostTwice | agents/dark_pool.py:747-815 | when different nonce texts stand for different bytes, nothing signed is answered 200 three times in a run |
| DarkPoolSpellings.FullHexIsToldApart | agents/dark_pool.py:159-161 | in a run whose nonces are 32 bytes in full hex, different texts do stand for different bytes |
| DarkPoolSpellings.OnceWhenSpelledAlike | agents/dark_pool.py:747-815 | in a run whose nonces are full hex and all carry the prefix, or all lack it, nothing signed is answered 200 twice |
| DarkPoolSpellings.RunOfTwoSpellings | agents/dark_pool.py:747-815 | the run of a request and its respelling logs one signed authorization twice exactly when the condition holds |
| DarkPoolSpellings.BothSpellingsAreServed | agents/dark_pool.py:733-815 | on an empty store with two tokens, a query answered 200 and its respelling without the prefix are both served |
| DarkPoolRuns.StoreIsTheUnpurgedLog | agents/dark_pool.py:800-815 | from an empty store, what is on file is exactly what was served and not purged |
| DarkPoolRuns.PaidAddKeepsPinned | agents/dark_pool.py:1077-1086 | a paid add keeps the store invariant and the pinned slot |
| DarkPoolRuns.RunKeepsRoot | agents/dark_pool.py:1002-1086 | paid traffic, purges and decay never move the pinned root |
| DarkPoolRaces.OneWinnerPerRace | agents/dark_pool.py:785-815 | however validations and commits overlap, a key is served again only for a later expiry and the second check lets one request per authorization and lower-cased spelling through |
| DarkPoolRates.RetryAfterIsHonoured | agents/dark_pool.py:882-906 | a request answered 429, sent again unchanged after the seconds in the header of that response while still valid, is answered 200 (or 409 for an id that exists) |
| DarkPoolRates.SignerRate | agents/dark_pool.py:882-906 | in any run one signer is answered 200 at most capacity plus refill times between its first and last call |
| X402Client.PickAccept | agents/x402_client.py:59-113 | returns the first offer within the policy, and distinguishes a wrong payee from no acceptable offer |
| X402Client.ClientPaymentValidates | agents/x402_client.py:116-165 | what the client signs for the first offer validates exactly inside its window with a fresh nonce, under the USDC domain |
| X402Client.SignFor | agents/x402_client.py:116-246 | from any challenge: what is signed is within the policy, is what the payment says and what an exact-scheme offer on the caller's network and asset asked for; something is signed if and only if an offer passes and the first such can be encoded |
| X402Client.SignedAddOutcome | agents/dark_pool.py:1020-1105 | on the add route the signed request is answered 402, 429, 409 or 200 by window and nonce, token and id, in that order, and only 200 files the nonce and the entry |
| X402Client.PayAndQuery | agents/x402_client.py:173-262 | when the parties agree, the paid answer is 200 if and only if the authorization can be encoded, the window holds, the nonce is fresh and a token is left, and the nonce is then on file |
| Usdc.FormatThenParse | scripts/x402/circle_gateway.ts:307-311 | parsing a printed amount returns it if and only if it is not negative with a fractional part |
| Usdc.CanonicalForm | scripts/x402/batch_client.ts:73-97 | two accepted non-negative strings are worth the same exactly when they print alike |
| Usdc.ParserIsExact | scripts/x402/batch_client.ts:73-97 | accepts exactly the decimals of at most six places and returns their worth in millionths by place value |
| UsdcForms.DecimalParses | scripts/x402/batch_client.ts:73-97 | white space, perhaps a minus sign, digits and perhaps a point and digits parse to their worth by place value, or are refused as too precise beyond six places |
| UsdcForms.AcceptedIsDecimal | scripts/x402/batch_client.ts:73-97 | nothing else is accepted |
| UsdcForms.PrintsCanonical | scripts/x402/circle_gateway.ts:307-311 | every amount that is not negative prints without leading zeros and without trailing zeros after the point |
| UsdcForms.CanonicalIsPrinted | scripts/x402/circle_gateway.ts:307-311 | every such canonical string is the printed form of what it parses to |
| BatchClient.X402BatchClient.TotalValueOf | scripts/x402/circle_gateway.ts:300-304 | the loop sums the values |
| BatchClient.X402BatchClient.Settle | scripts/x402/circle_gateway.ts:163-222 | an empty batch settles; without a key every batch does with its total; with one none does, for the reason given |
| BatchClient.X402BatchClient.Flush | scripts/x402/batch_client.ts:350-373 | joins the flush in flight, or drains the whole queue into a new one |
| BatchClient.X402BatchClient.AfterPayment | scripts/x402/batch_client.ts:306-343 | settles at once, or queues and starts a flush when the size limit is reached |
| BatchClient.X402BatchClient.MaybeFlushByAge | scripts/x402/batch_client.ts:394-406 | flushes exactly when the oldest entry has reached the age limit |
| BatchClient.X402BatchClient.Close | scripts/x402/batch_client.ts:409-425 | stops the timer and flushes once; a second close is empty |
| BatchClient.NothingIsLost | scripts/x402/batch_client.ts:337-425 | over every interleaving, enqueued equals delivered batches, then the batch in flight, then the queue, in order and in value |
| BatchClient.TickFlushesByAge | scripts/x402/batch_client.ts:394-406 | a tick drains the whole queue in order, with reason age, exactly when the timer is on, nothing is in flight and the head has reached the age limit; otherwise it changes nothing |
| BatchClient.NothingGrowsOld | scripts/x402/batch_client.ts:394-406 | in auto mode, after any run and one more tick, the head is younger than the limit, or a flush is in flight, or the client is closed |
| BatchClient.PaymentFlushesBySize | scripts/x402/batch_client.ts:306-343 | a payment is queued unless it is immediate, and drains the queue with reason size exactly when it fills an automatic queue with nothing in flight |
| BatchClient.CloseFlushesOnce | scripts/x402/batch_client.ts:409-425 | a first close stops the timer and drains the queue with reason shutdown unless a flush is in flight; a second does nothing |
| BatchClient.CloseDrains | scripts/x402/batch_client.ts:394-425 | whatever deliveries, ticks and closes follow, close leaves an empty queue if and only if no flush was in flight or the queue was empty |
| Duels.PollOnce | agents/duel_runner.py:498-531 | returns the latest injection per target of the window and the next cursor; a fresh cursor only takes the head |
| Duels.TakeStep | agents/arena.py:203-209 | one step polls once and scores if it is scheduled or something was injected |
| Duels.RunSteps | agents/arena.py:196-217 | the loop makes exactly the specified calls up to the first one that raises |
| Duels.RunWindow | agents/arena.py:196-217 | when no cycle raises, every step of the trading window is taken |
| Duels.WindowsTile | agents/duel_runner.py:512-531 | scanned windows are disjoint and contiguous from the first positive head, whatever polls fail or go back |
| Duels.BlockInOneWindow | agents/duel_runner.py:512-531 | every block between the first head and the cursor lies in exactly one window |
| Duels.LatestIsLast | agents/duel_runner.py:527-531 | per target the kept log is the last one of the window |
| Duels.EachWindowReachesOneCycle | agents/arena.py:182-211 | with live polling the non-empty windows and the cycles given injections correspond one for one, in order |
| Duels.CycleNumbersAreConsecutive | agents/arena.py:203-209 | the cycle numbers used are 1 to m without gap or repeat |
| Duels.StepHandsOver | agents/arena.py:182-211 | a scheduled step makes one call with what the poll found or else the fixed injections; a later step does so under the next number, and only if that is not nothing |
| DuelRunners.DuelRunner.Create | agents/duel_runner.py:343-361 | succeeds exactly when no guard of `createDuel` reverts, one address for both agents among them; so a duel that exists has two different agents |
| DuelRunners.DuelRunner.RunCycle | agents/duel_runner.py:366-419 | without a duel nothing is reported; otherwise each agent in turn is reported with the id that targets it, up to the first failure |
| DuelRunners.NoInjectionReportedTwice | agents/duel_runner.py:343-412 | in a created duel no injection id is reported twice, whatever was sent of a last cycle that raised |
| DuelRunners.RunDuel | agents/arena.py:158-215 | whatever fails on the way, a whole duel reports the ids handed to its cycles in order, and none of them twice |
| Duels.RepeatWithoutTheGuard | contracts/src/Colosseum.sol:308-318 | why creation refuses one address for both agents: completed cycles of such a duel would repeat an id exactly when a log in a scanned window targets it |
| Leaderboard.PairsInOrder | agents/arena.py:125-132 | every agent plays once in order, and the last of an odd number sits out |
| Leaderboard.Tally | agents/arena.py:245-257 | the dictionary holds the filtered sums of the reports read so far, and the order of first appearance |
| Leaderboard.Aggregate | agents/arena.py:229-266 | each standing holds the filtered sums of its agent, in order of first report |
| Leaderboard.AppearancesSpec | agents/arena.py:245-252 | every reporting agent is listed exactly once |
| Leaderboard.AppearancesGrow | agents/arena.py:245-252 | more reports only append agents |
| Leaderboard.AlphaConserved | agents/arena.py:245-266 | the alphas of the standings add up to all reported moves |
| Leaderboard.ResilienceRange | agents/arena.py:43-49 | resilience lies in [0, 1] and is 1 exactly when all of something ingested was survived |
| Leaderboard.ResilienceIsShare | agents/arena.py:43-49 | resilience is the number of reports in which the agent survived an injection over those in which it took one in, and 0 if there are none |
| Leaderboard.RankingsAreSorted | agents/arena.py:61-72 | both rankings are permutations of the standings, best first, shield ties broken by alpha |
| Leaderboard.RankingsAreStable | agents/arena.py:61-72 | ties keep the order of the standings |

## Left out

- Floating-point rounding is not modelled, except that the float32 cast of save and load is idempotent and keeps zero.
- MemoryLaws.ScheduleIndependence: entries must carry stamps no later than the first tick; MemoryLaws.ScheduleMattersExactlyWhen drops that.
- MemoryServices.MemoryService.Query: equal scores may come in any order; a negative k is not modelled.
- PinnedSlot.PinnedRootBinds: ids must be distinct, as the keys of a dictionary are, and NUL-free, because the leaf string separates its parts by NUL.
- Persistence.Load: the zip container, the pickle sniff, missing keys and the JSON text are not modelled; the archive starts as decoded columns.
- The default decay constants are not modelled; the factors are a parameter.
- Addresses and nonces are ASCII; lower-casing of other letters is not modelled.
- Payments.SpellingDecidesTheKey: speaks of texts; which other texts an ABI encoder reads as the same bytes is an arbitrary function in `DarkPoolSpellings`.
- A payee that is named but is not an address, and amounts or timeouts that do not parse, are not modelled in the client.
- Header and body decoding (base64, JSON, field bounds of the request models) is an outcome, not a parser; a nonce or payee that is not a string is not modelled.
- Elliptic-curve recovery is a function of the typed data and the signature; the client's signer is assumed to sign so that recovery returns it.
- The price is a natural number of base units; the rounding of `usdc_to_base_units` and the refusal of split prices at construction are not modelled.
- X402Client.PayAndQuery: the two calls are to the query route; the answer of the add route to the signed request is a lemma.
- DarkPoolRaces.OneWinnerPerRace: assumes that no request commits after a purge at or past its expiry.
- DarkPoolRuns.NonceConsumedExactlyOn200: rendering the answer as JSON is not modelled; a value that cannot be rendered, such as a NaN in a score or a stored payload, may raise after the nonce is committed.
- SQLite files, journaling, migration of old files and locks are not modelled; a table is a sequence of keyed rows.
- Resetting the limiter and its synchronous entry points are not modelled.
- The batching client's 402 round trip, `pickAccept`, signing, the batch digest and the broadcasting path of the settler are not modelled.
- The choice of direction inside a cycle, its retries and penalties, the contract's rules other than the guards of `createDuel`, and memory anchoring are not modelled.
- Duels.EachWindowReachesOneCycle: logs of a block do not change after it was scanned; a chain reorganisation is not modelled.
- Spawning of the child agent around the clone (budget check, wallet, extra rules) is not modelled.
- DuelRunners.DuelRunner.Create: addresses are spelled in hex with a prefix, so two of them are one exactly when they agree up to letter case.
- The rest of the Solidity contracts, the web interface, provisioning and demo scripts are not part of this model.
