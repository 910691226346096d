# Esker: the client core and the base library, verified

Esker is a distributed key-value store with a columnar side. This project models, in Dafny, the
parts of it whose correctness is hardest to see, and proves what they promise. To check it, run
`dafny verify dfyconfig.toml` in this directory.

- **The region-crossing scan** (`RawScan`, over `Ranges` and `StoreScan`). A range is planned one
  piece per region, paged, and re-planned when a store has split under it. An answered scan is the
  first pairs of the range, in either direction, whatever the page sizes, byte budgets and splits.
- **The routed call** (`Router`, over `Retry` and `Proto`). A state machine over transport answers,
  cache repairs, a retry budget that progress refills and a deadline. A write is applied at most
  once, what an error claims about the database is true, attempts and sleeps are bounded, and calls
  end under exactly the options whose shortest sleeps add up to the timeout.
- **The region cache** (`RegionCache`). Throughout a history an ordered-map lookup answers what the
  history alone says about the key, if and only if no insertion hid anything.
- **Routing tables** (`Partition`, `Walk`, `Fragments`). What makes a list of regions a partition,
  what the operator's walk really establishes, and which regions a fragment is asked of.
- **Byte algorithms** (`Crc32c`, `Sha256`, `Hmac`, `Varint`, `Base64`, `Hash`). The fast or streaming
  form equals its definition; decoders accept exactly what encoders write, or exactly what is said
  where they accept more.
- **Random numbers** (`Rng`, `Shuffling`). The generator visits every state, bounded draws are
  unbiased, and a shuffle is a bijection between choices and orders.
- **The column chunk** (`Values`, `Column`). What a builder takes is what a reader gives back, and a
  row that lost its value makes the column an error and never a shifted one.

`Keys`, `Arithmetic` and `Words` hold the order on keys and the facts about numbers the rest uses.

Stores, transports, the placement driver, clocks and the cache as other calls change it are given to
an operation as input: what each call, lookup and wait meets, one after another without end. What is
proved holds whatever they are, and says what the result is in terms of them. Objects that the program
updates in place are classes, and loops are loops. Machine integers are numbers with their ranges and
wrap-around written out; the words of CRC32C are bit vectors.

Where the code and its documentation disagree, the model follows the code:

- `RawClient::scan` says a limit of zero means the protocol's default; the code reads every pair.
  `ZeroIsEverything` says when the two agree, and `ManyPairs` that they need not.
- Planning a scan stops quietly when a routing answer does not advance past the key asked about, so
  the scan then covers less than its range. `ExactUnlessStuck` says exactly when, over the routing
  answers, and `PlanCanGetStuck` gives a case. The resolvers of the repository answer only with a
  region that contains the key (`crates/esker-client/src/region_cache.rs:181` and `237`,
  `crates/esker-pd/src/routing.rs:176`), so such an answer comes only from another `RegionResolver`.
- Jitter is documented never to give less than half the wait; it works in whole milliseconds, and
  `HalfIsKeptExactly` says for which waits that is true.
- A PEM payload is documented to be canonical base64; spare bits are not checked, and
  `CanonicalExactly` says which accepted payloads are canonical.
- The walk of the routing table is documented to report every overlap; `OverlapIsAccepted` and
  `StepBackIsAccepted` give two it does not, and `AcceptedIsPartition` says exactly when an accepted
  table is a partition.
- The cache is documented to answer by range. `InsertionExactly` says which insertions keep that and
  `HistoryExactly` in which histories it holds; `CrossedRegionHides` is an insertion that breaks it.
  The placement driver refuses an empty or inverted range (`crates/esker-pd/src/pd/mod.rs:1109-1114`);
  the client does not check the regions it caches, such as those an `EpochNotMatch` carries.

## Model

| member | source | states |
|---|---|---|
| `Proto.EpochsAgree` | crates/esker-proto/src/region.rs:48-52 | two epochs are one exactly when neither is stale against the other |
| `Proto.FailuresAreSorted` | crates/esker-proto/src/error.rs:378-455 | a typed refusal and a request never sent say not applied, and nothing else does; what a loop must not repeat is everything of unknown outcome and the refusals that waiting cannot mend |
| `Proto.QuestionsChangeNothing` | crates/esker-proto/src/messages.rs:412-437 | the methods that are not mutations are the questions |
| `Keys.ClampEnd` | crates/esker-client/src/router.rs:669-677 | the tighter of two exclusive upper bounds: one of the two, and in order before both, whatever side the open end is on |
| `Keys.SuccessorIsImmediate` | crates/esker-client/src/raw.rs:283-292 | appending a zero byte gives the immediate successor: a key is above `a` exactly when it is at or above `a` with a zero byte |
| `Ranges.SelectIsSlice` | crates/esker-client/src/raw.rs:197-209 | the pairs whose keys lie in a range, picked out one by one, are one contiguous stretch of the sorted database |
| `Ranges.SplitRange` | crates/esker-client/src/raw.rs:255-266 | a range is what lies below any key of it followed by what lies from that key on, and the other way round downwards |
| `Ranges.ResumeForward` | crates/esker-client/src/raw.rs:283-292 | resuming at the successor of the last key of a page leaves exactly the pairs not yet read, and the resume test stops exactly when none are |
| `Ranges.ResumeReverse` | crates/esker-client/src/raw.rs:272-282 | the same downwards: the last key of the page becomes the exclusive upper bound, and nothing is lost or met twice |
| `StoreScan.StoredBoundsAreTheRange` | crates/esker-store/src/rawkv.rs:369-399 | the stored bounds of a range cut out of a shared engine exactly the raw keys of that range: no key of a neighbouring namespace, none missed |
| `StoreScan.ContainsRangeExactly` | crates/esker-store/src/rawkv.rs:369-399 | for bounds that leave room for a key, the check that a range is inside the region is exactly every key of it being the region's |
| `StoreScan.Collect` | crates/esker-store/src/rawkv.rs:299-361 | under any count and byte budget the store answers with the longest leading part of the range, in the direction asked, that is within both, but with one pair at least |
| `StoreScan.LongestIsUnique` | crates/esker-store/src/rawkv.rs:299-361 | only one answer meets that description |
| `StoreScan.Serve` | crates/esker-store/src/rawkv.rs:299-395 | a scan is served exactly when its bounds are in order and inside the region, with that longest part; otherwise the refusal is the one for crossed bounds or names the region and its range |
| `RawScan.Routed` | crates/esker-client/src/router.rs:388-444 | without a deadline a cached route is used without asking, and otherwise the driver's first word other than that it knows no region, which is reported as the key in no region after five more questions |
| `RawScan.Route` | crates/esker-client/src/router.rs:388-444 | the loop over the driver's silence comes to that answer |
| `RawScan.Repaired` | crates/esker-client/src/router.rs:588-638 | a repaired route always holds the key; a store that named a range holding it is believed over the driver, and then the repair fails exactly when neither cache nor driver knows the key; otherwise it fails exactly when none of five driver answers is a region holding the key; a failure is the refusal that began it |
| `RawScan.RepairRoute` | crates/esker-client/src/router.rs:588-638 | asking the driver in a loop, or believing the store, comes to that answer for every lookup and refusal |
| `RawScan.OwnRefusalIsWaitedOut` | crates/esker-client/src/router.rs:593-606 | the router's own refusal, which names no region, is never believed as a store's |
| `RawScan.RegionsOf` | crates/esker-client/src/raw.rs:300-339 | given what routing finds at each step: a plan has one piece per answer, each asked about where the one before it ended; it is a chain over the whole range, or a chain up to the last key asked about, the latter exactly when the last answer ended at or before that key and below the end of the range; it fails only where both the lookup and its repair do, or when sixty-four answers all advanced short of the end |
| `RawScan.PlanGrows` | crates/esker-client/src/raw.rs:303-328 | one more routing answer completes the plan, gets it stuck, or leaves a longer chain |
| `RawScan.PlanCovers` | crates/esker-client/src/raw.rs:300-339 | visiting a plan piece by piece, either way, meets the pairs of the range it covers, each once and in order |
| `RawScan.ExactUnlessStuck` | crates/esker-client/src/raw.rs:300-339 | for a range that can hold a key, a plan reads what the range holds in every database if and only if the last routing answer reached past the key it was asked about, or to the end of the range |
| `RawScan.ReachesPast` | crates/esker-client/src/raw.rs:303-328 | a region that holds the key asked about does advance |
| `RawScan.PlanCanGetStuck` | crates/esker-client/src/raw.rs:303-328 | one answer that ends at or before the key asked about makes a plan that covers nothing of a range that holds a pair |
| `RawScan.ScanRegion` | crates/esker-client/src/raw.rs:351-406 | given what each store call and each repair meets: the region's worth is the first answer after up to four refusals of the one kind that names a region, each repaired, read to the bound the repairs leave; it fails only with the first other failure, a failed repair or a fifth refusal; and the page is a leading part of what lies between the lower bound and the bound reached |
| `RawScan.TightestBound` | crates/esker-client/src/raw.rs:390-402 | the bound reached is the tightest of the one asked for and the ends of the regions the repairs found, and is one of them |
| `RawScan.ServedAfterRefusals` | crates/esker-client/src/raw.rs:386-404 | if the first `k` of at most four answers name another region and each is repaired, and the next is served, that is the region's worth, in `k` and one calls |
| `RawScan.SplitIsSurvived` | crates/esker-client/src/raw.rs:386-404 | a store that holds only a lower part of the range refuses it, is believed, and the next store holding that part serves it |
| `RawScan.NarrowForward` | crates/esker-client/src/raw.rs:255-266 | cutting a piece at a split and queueing the upper part changes nothing of what is still to be read |
| `RawScan.NarrowReverse` | crates/esker-client/src/raw.rs:255-266 | cutting a piece at a split, downwards, and queueing both parts changes nothing of what is still to be read |
| `RawScan.TakePage` | crates/esker-client/src/raw.rs:236-292 | after a page and any re-planning, what was left to read is the page followed by what is left now, and bounds in order stay so |
| `RawScan.AskForPage` | crates/esker-client/src/raw.rs:236-292 | one page asked for and taken in: the calls so far are served, or refused and repaired, or the last of them failed and its failure is the error |
| `RawScan.WalkPieces` | crates/esker-client/src/raw.rs:226-296 | the walk returns a leading part of everything planned, all of it unless it has as many as wanted, within the bound on store calls; it ends early only at the cap or with the failure of its last call, every earlier call having been served, or refused and repaired |
| `RawScan.ScanWith` | crates/esker-client/src/raw.rs:210-297 | given what routing, stores and repairs meet: an answered scan is exactly the first `limit` pairs of the covered range (all for zero) in either direction, for every page size, byte budget, split and database, and of the whole range when the last routing answer advanced; it makes at most one call per pair, per piece and per split (two per split downwards), and the call cap is hit only above that bound; an error short of the cap is the failure of the last call; and if every refusal met can be repaired and of any five calls in a row one is served, a range in order is answered |
| `RawScan.ZeroIsEverything` | crates/esker-client/src/raw.rs:165-168 | reading every pair for a limit of zero is what the documented default limit would read if and only if the range holds no more pairs than that |
| `RawScan.ManyPairs` | crates/esker-client/src/raw.rs:165-168 | there are databases of every size, so the two readings of zero do differ |
| `RawScan.BoundedLimit` | crates/esker-client/src/router.rs:186-189 | a page size is never zero, never above the transport's limit, and the caller's own when that fits |
| `Retry.PolicyAgreesWithSchedule` | crates/esker-client/src/retry.rs:78-118 | the policy's delay and the free-standing schedule are the same at every attempt number, overflowing ones included |
| `Retry.BackoffIsMonotone` | crates/esker-client/src/retry.rs:111-118 | under every policy a later attempt never waits less |
| `Retry.BackoffDoubles` | crates/esker-client/src/retry.rs:111-118 | the first delay is the base under the ceiling, each later one is twice the one before under the ceiling as far as the shift goes, and from then on it stays |
| `Retry.Jittered` | crates/esker-client/src/retry.rs:155-166 | a jittered delay lies between the whole-millisecond half and the delay itself |
| `Retry.EachWaitOnce` | crates/esker-client/src/retry.rs:155-166 | every whole number of milliseconds from the half up to the delay is given by exactly one draw, and no other wait is |
| `Retry.HalfIsKeptExactly` | crates/esker-client/src/retry.rs:122-166 | every draw keeps half the wait if and only if the wait is below a millisecond or an even number of them |
| `Retry.HalfIsNotAlwaysKept` | crates/esker-client/src/retry.rs:122-166 | a wait of three milliseconds can be cut to one, less than the half the documentation promises |
| `Retry.FloorVanishesExactly` | crates/esker-client/src/retry.rs:155-166 | a jittered sleep can be nothing if and only if the delay is nothing or at least one and less than two milliseconds |
| `Retry.MinSleptFlattens` | crates/esker-client/src/retry.rs:111-118 | from the thirty-second attempt on every shortest sleep is the same, so the shortest total grows by that much per attempt |
| `Retry.OutlastsExactly` | crates/esker-client/src/retry.rs:111-166 | some number of shortest backoffs outlasts a timeout if and only if the first thirty-two and the last one repeated do |
| `Retry.SeventeenBackoffs` | crates/esker-client/src/retry.rs:96-118 | seventeen shortest default backoffs outlast the default call timeout and sixteen do not |
| `Retry.Classify` | crates/esker-client/src/retry.rs:213-261 | exactly the retryable errors are retried, each of them says the request was not applied, and each gets its own repair: the leader for a refusal (with its hint) or an unsent request, the regions an epoch mismatch carries, a fresh look for a missing region, and a mere wait for a busy server |
| `Retry.WorthBelieving` | crates/esker-client/src/router.rs:464-487 | a repair other than a hint is kept as it is, and a hint is kept or dropped |
| `RegionCache.OverlapsIsSharing` | crates/esker-client/src/region_cache.rs:365-369 | for regions that hold keys, overlapping is exactly sharing a key |
| `RegionCache.LastAtOrBefore` | crates/esker-client/src/region_cache.rs:261-270 | walking back finds the last start at or before the key, and nothing only if there is none |
| `RegionCache.LookupIsLinearSearch` | crates/esker-client/src/region_cache.rs:261-270 | where no entry that holds no key starts inside another, the walk back finds exactly what searching every entry finds, and a gap misses |
| `RegionCache.SearchExactly` | crates/esker-client/src/region_cache.rs:261-270 | among entries that do not overlap, every entry answers for every key it holds if and only if no entry that holds no key starts inside another |
| `RegionCache.InsertedIsApart` | crates/esker-client/src/region_cache.rs:272-277 | inserting any region at all keeps entries disjoint and keyed by their own start |
| `RegionCache.InsertedIsUnobstructed` | crates/esker-client/src/region_cache.rs:272-277 | inserting any region leaves no entry in front of another if and only if it neither starts, holding no key, inside an entry it leaves in place nor holds the start of such an entry |
| `RegionCache.InsertedLookup` | crates/esker-client/src/region_cache.rs:272-277 | after an insertion that hides nothing each key is answered by the new region if that holds it, by the old answer if the two neither overlap nor start alike, and not at all otherwise |
| `RegionCache.InsertionExactly` | crates/esker-client/src/region_cache.rs:272-277 | for every region, well formed or not: every entry goes on answering for every key it holds, and every answer changes as the history says, if and only if the insertion hides nothing |
| `RegionCache.OneOperation` | crates/esker-client/src/region_cache.rs:272-348 | every operation, whatever it brings in, keeps entries disjoint and keyed by their own start; one that hides nothing changes each key's answer as the history of that key says |
| `RegionCache.LookupIsReplay` | crates/esker-client/src/region_cache.rs:261-348 | after any history at all entries are disjoint and keyed by their own start; after one in which no insertion hid anything every lookup equals a replay of the history for that one key |
| `RegionCache.WellFormedIsUndisturbed` | crates/esker-client/src/region_cache.rs:261-348 | in a history of regions that hold keys no insertion hides anything |
| `RegionCache.SinglyIsTheSame` | crates/esker-client/src/region_cache.rs:279-286 | writing each batch out as its insertions changes neither the index nor what any key's history says |
| `RegionCache.HistoryExactly` | crates/esker-client/src/region_cache.rs:261-348 | throughout every history, insertion by insertion, every lookup equals the replay if and only if no insertion hid anything |
| `RegionCache.CrossedRegionHides` | crates/esker-client/src/region_cache.rs:272-277 | an instance of hiding: a cached region with crossed bounds holds no key, and the keys of an earlier one above its start are answered no longer |
| `RegionCache.FindPeer` | crates/esker-client/src/region_cache.rs:318-325 | a hint is resolved to the first listed peer of that id, and to none exactly when no listed peer has it |
| `RegionCache.LeaderIsAsked` | crates/esker-client/src/region_cache.rs:89-105 | a known leader is the peer asked whatever the attempt and the failures, and there is nobody to ask exactly when no leader is known and no peer listed |
| `RegionCache.LiveInOrder` | crates/esker-client/src/region_cache.rs:89-105 | the peers left after leaving corpses out are in their listed order |
| `RegionCache.RotaAsksEachOnce` | crates/esker-client/src/region_cache.rs:89-105 | with no leader known, as many attempts in a row as there are peers worth asking are a rotation of them, so each is asked once and no live one is missed |
| `RegionCache.Cache.LookupRoute` | crates/esker-client/src/region_cache.rs:261-270 | a lookup answers what the index holds for the key, and only a region that contains it |
| `RegionCache.Cache.InsertRoute` | crates/esker-client/src/region_cache.rs:272-277 | the index becomes the swept index with the route at its start; entries stay disjoint; every entry goes on answering for its keys if and only if the insertion hides nothing, and every answer then changes as the history says |
| `RegionCache.Cache.InsertRoutes` | crates/esker-client/src/region_cache.rs:279-286 | a batch is its insertions in order, for the index and, unless one of them hides something, for every key's answer |
| `RegionCache.Cache.InvalidateRegion` | crates/esker-client/src/region_cache.rs:288-291 | exactly the keys answered by that region stop being answered |
| `RegionCache.Cache.InvalidateKeyAt` | crates/esker-client/src/region_cache.rs:293-303 | the entry walked back to from the key is dropped if it holds the key and no other is, whatever the index; exactly the keys it answered stop being answered |
| `RegionCache.Cache.RecordLeader` | crates/esker-client/src/region_cache.rs:312-328 | every entry of that region is led by the first listed peer the hint names, and by nobody if there is no hint or nobody listed has that id; entries of other regions, and all regions, are as they were; every answer changes as the history says |
| `RegionCache.Cache.ClearAll` | crates/esker-client/src/region_cache.rs:342-344 | nothing is answered any more |
| `Router.RecallSent` | crates/esker-client/src/router.rs:294-311 | what is repaired, and the epoch progress is measured against, are those of the last attempt that was addressed and failed |
| `Router.RepairFor` | crates/esker-client/src/router.rs:312-325 | another attempt is made exactly after a retryable failure, or for a read whose answer was lost; a write only after a failure that says it was not applied, and a recorded hint is the one the refusal carried |
| `Router.ClaimsOf` | crates/esker-client/src/router.rs:685-693 | the last failure surfaces as ambiguous if and only if it was a write that may have been applied, and an error says nothing changed exactly when its failure does |
| `Router.NewHintIsSound` | crates/esker-client/src/router.rs:464-487 | a hint believed after an attempt names no peer that refused this call and not the peer on the last unreachable store |
| `Router.HintIsKeptExactly` | crates/esker-client/src/router.rs:464-487 | a refusal's hint is recorded if and only if the peer it names has not refused this call and was not on the last unreachable store |
| `Router.Charged` | crates/esker-client/src/router.rs:326-352 | a repaired attempt leaves the call in order, or the budget spent in one run of fruitless attempts |
| `Router.CorpsesAreSkipped` | crates/esker-client/src/region_cache.rs:89-105 | a store the call failed to reach is not asked again while no leader is known and some listed peer is elsewhere |
| `Router.KnownLeaderIsAsked` | crates/esker-client/src/region_cache.rs:89-105 | in every run an attempt routed with a known leader goes to that leader |
| `Router.EveryLivePeerIsAsked` | crates/esker-client/src/region_cache.rs:89-105 | while routing stands still and no leader is known, as many attempts as there are peers worth asking reach every live one |
| `Router.RouteWithin` | crates/esker-client/src/router.rs:388-444 | given what the cache and the driver say: a cached route is used without asking; otherwise the driver is asked until it says something other than that it knows no region, and its last word is the route, its error, or the key reported in no region; each wait is begun only if it ends before the call's deadline, and asking stops only for a word or for want of time |
| `Router.TryOnce` | crates/esker-client/src/router.rs:264-311 | the attempt made is the one the moment makes: unsent with the routing failure, or addressed to the peer its number picks with the transport's answer; no peer only if the key is routed to a region with nobody in it |
| `Router.LearnedNewerEpoch` | crates/esker-client/src/router.rs:531-540 | given what the cache holds after the repair: progress is learned if and only if something was sent and that route has a newer epoch than the one sent |
| `Router.RepairedAttemptIsSound` | crates/esker-client/src/router.rs:294-352 | a repaired failure keeps at-most-once, nothing applied, sound hints, the aim of every attempt and the run of fruitless ones |
| `Router.RepairedAttemptStands` | crates/esker-client/src/router.rs:326-352 | while the budget lasts, everything that stood before a repaired attempt stands after it, and the count of fruitless attempts is exact |
| `Router.LastAttemptIsSound` | crates/esker-client/src/router.rs:272-327 | the attempt that ends a call keeps at-most-once, sound hints and the bound on fruitless runs |
| `Router.RepairAndWait` | crates/esker-client/src/router.rs:326-363 | repairing, charging or refilling the budget and sleeping either ends the call with what its error claims, or leaves it in order with its sleeps within the timeout |
| `Router.WaitItOut` | crates/esker-client/src/router.rs:353-363 | the backoff of this attempt, as drawn, is slept if it ends before the deadline; otherwise the call ends with the deadline and its last failure |
| `Router.Call` | crates/esker-client/src/router.rs:206-364 | given what every attempt meets: only the last send can have been applied; an error claims that nothing changed only if nothing was applied, and does claim it when nothing was sent or the last failure says so; a write is called ambiguous if and only if its last failure leaves open whether it was applied; errors name the last failure and count attempts, and each is explained by the last moment (the deadline past, a wait that would not end in time, a region with nobody in it, the answer received, a failure nothing repairs, the budget spent by that many and one fruitless attempts in a row, charged exactly when they were sent and taught no newer epoch); exactly what a failure asks for is repaired; sleeps total less than the timeout, which bounds the attempts however often the budget is refilled; an oversized request is never sent |
| `Router.GoesOnExactly` | crates/esker-client/src/router.rs:206-364 | some run goes on from `n` attempts if and only if the `n` shortest backoffs together are less than the timeout |
| `Router.CallEndsExactly` | crates/esker-client/src/router.rs:206-364 | under any options every run ends within some number of attempts that the counter can count if and only if the timeout is at most the first thirty-two shortest sleeps and the last one repeated |
| `Router.CallToTheEnd` | crates/esker-client/src/router.rs:206-364 | if `n` shortest backoffs outlast the timeout the call ends, and within `n` attempts |
| `Router.CallByDefault` | crates/esker-client/src/router.rs:206-364 | a call under the default options ends, and within seventeen attempts |
| `Router.SeventeenAttempts` | crates/esker-client/src/router.rs:206-364 | under the default options no run has more than seventeen attempts |
| `Router.SixteenTurns` | crates/esker-client/src/router.rs:206-364 | a run under the default options can go on from sixteen attempts to a seventeenth |
| `Router.RecordedLeaderIsListed` | crates/esker-client/src/router.rs:490-508 | a repair makes a leader only of the peer the cached region lists under the hinted id |
| `Router.RepairIsMade` | crates/esker-client/src/router.rs:490-508 | a hint decides who leads the region it is about, a region reported gone, or stale without replacements, is forgotten, and a busy server changes nothing |
| `Router.ReplacementsAreCached` | crates/esker-client/src/router.rs:490-508 | whatever was known before, a key of a region carried by an epoch mismatch is afterwards looked up in that region, unless a later one runs into it |
| `Crc32c.StepLinear` | crates/esker-base/src/crc32c.rs:40-47 | a register step distributes over exclusive or |
| `Crc32c.RegisterOfWord` | crates/esker-base/src/crc32c.rs:101-123 | shifting a word in bit by bit equals folding it in at once and stepping, up to the bits not yet in |
| `Crc32c.Advance` | crates/esker-base/src/crc32c.rs:54-63 | eight steps of any word are its upper bytes folded with what its low byte alone leaves |
| `Crc32c.FoldWord` | crates/esker-base/src/crc32c.rs:106-118 | a word is advanced by advancing its four bytes separately and folding them together |
| `Crc32c.BuildTables` | crates/esker-base/src/crc32c.rs:34-66 | entry `i` of table `k` is byte `i` after `8(k+1)` register steps |
| `Crc32c.OneChunk` | crates/esker-base/src/crc32c.rs:106-118 | eight table reads advance the register over the 64 bits of an eight-byte chunk |
| `Crc32c.OneByte` | crates/esker-base/src/crc32c.rs:119-121 | one table read advances the register over the eight bits of a byte |
| `Crc32c.UpdateSoftware` | crates/esker-base/src/crc32c.rs:101-123 | the table-driven checksum equals the bit-at-a-time Castagnoli register for every starting value and every length |
| `Crc32c.CrcChains` | crates/esker-base/src/crc32c.rs:74-79 | continuing a checksum over a second slice is the checksum of the concatenation |
| `Crc32c.StepBack` | crates/esker-base/src/crc32c.rs:40-47 | a register step has an inverse |
| `Crc32c.BurstIsSeen` | crates/esker-base/src/crc32c.rs:101-123 | two runs of up to thirty-two bits leave different registers whatever surrounds them |
| `Crc32c.BurstIsCaught` | crates/esker-base/src/crc32c.rs:101-123 | two messages of equal length that differ only within thirty-two consecutive bits have different checksums from every starting value |
| `Crc32c.KnownChecksums` | crates/esker-base/src/crc32c.rs:206-207 | the published checksums of nothing and of one letter |
| `Rng.HalfTurn` | crates/esker-base/src/rng.rs:52-58 | with an odd increment, `2^k` steps flip bit `k` of the state and leave the lower bits alone |
| `Rng.FullPeriod` | crates/esker-base/src/rng.rs:52-58 | with an odd increment every state is reached from every state within `2^64` steps |
| `Rng.SomeDrawIsAccepted` | crates/esker-base/src/rng.rs:87-98 | from every state a draw is accepted within one period, so the rejection loop ends |
| `Rng.BelowIsUnbiased` | crates/esker-base/src/rng.rs:87-98 | each value below the bound comes from the same number of accepted 32-bit draws |
| `Rng.WideIsNearlyUnbiased` | crates/esker-base/src/rng.rs:101-114 | reducing a 64-bit draw gives each value one of two counts that differ by one |
| `Rng.ReferenceStream` | crates/esker-base/src/rng.rs:163-176 | the six draws of the published stream for seed 42 on sequence 54 |
| `Rng.BelowIsFirstAccepted` | crates/esker-base/src/rng.rs:87-98 | a bounded draw is the remainder of the first draw not below the threshold, with the state right after it |
| `Rng.JoinedHalves` | crates/esker-base/src/rng.rs:77-81 | of two draws joined the first is the high half and the second the low |
| `Rng.Pcg32.constructor` | crates/esker-base/src/rng.rs:33-42 | the increment is the sequence doubled, plus one, and odd; the state is seeded between two steps |
| `Rng.Pcg32.Step` | crates/esker-base/src/rng.rs:52-58 | the state advances by one and the previous one is returned |
| `Rng.Pcg32.NextU32` | crates/esker-base/src/rng.rs:61-73 | the draw is that of the state before the step |
| `Rng.Pcg32.NextU64` | crates/esker-base/src/rng.rs:77-81 | two draws joined, the first the high half |
| `Rng.Pcg32.Below` | crates/esker-base/src/rng.rs:87-98 | the remainder of the first draw not below the threshold, and the state after it; the loop terminates |
| `Rng.Pcg32.RangeInclusive` | crates/esker-base/src/rng.rs:101-114 | the result lies within the bounds for all 64-bit bounds, and is the bounded draw, the reduced wide draw or the whole draw by the size of the range; the state is the one after exactly those draws, and untouched when there is nothing to choose |
| `Rng.Pcg32.Shuffle` | crates/esker-base/src/rng.rs:145-153 | the array becomes the one the generator's own choices give, and is left alone from `2^32` elements on |
| `Rng.DrawnAt` | crates/esker-base/src/rng.rs:145-153 | the choice for each position is an unbiased draw out of itself and those below it, the highest position drawn first |
| `Shuffling.ShuffleKeepsElements` | crates/esker-base/src/rng.rs:145-153 | whatever the choices, the elements are the same |
| `Shuffling.ChoicesAreRecovered` | crates/esker-base/src/rng.rs:145-153 | on distinct elements different choices give different orders |
| `Shuffling.ChoicesFor` | crates/esker-base/src/rng.rs:145-153 | every rearrangement is reached by some choices |
| `Shuffling.ShuffleIsABijection` | crates/esker-base/src/rng.rs:145-153 | on distinct elements each order is reached by exactly one sequence of choices |
| `Varint.PutU64` | crates/esker-base/src/varint.rs:56-66 | appends the encoding and nothing else |
| `Varint.KnownEncoding` | crates/esker-base/src/varint.rs:56-66 | the low seven bits come first |
| `Varint.EncodedLenIsLength` | crates/esker-base/src/varint.rs:49-53 | the length computed from the highest set bit is the length written |
| `Varint.EncodingIsShort` | crates/esker-base/src/varint.rs:16-66 | no 64-bit value takes more than ten bytes |
| `Varint.EncodeIsRead` | crates/esker-base/src/varint.rs:56-66 | an encoding ends at its last byte and is worth its value |
| `Varint.Overlong` | crates/esker-base/src/varint.rs:90-96 | a finished run of bytes is never shorter than the encoding of its value, and if as long it is that encoding |
| `Varint.GetU64` | crates/esker-base/src/varint.rs:76-102 | accepts the encoding at the front, or refuses for exactly the stated reason: unfinished input, more than 64 bits begun, or an overlong form with both lengths |
| `Varint.OneAnswer` | crates/esker-base/src/varint.rs:76-102 | for every input one answer meets that description and no other |
| `Varint.DecodesExactly` | crates/esker-base/src/varint.rs:76-102 | a value and a length are decoded if and only if the input starts with that value's encoding of that length |
| `Varint.GetU32` | crates/esker-base/src/varint.rs:105-109 | a wider value is an overflow exactly when the input starts with its encoding; everything else is as for 64 bits |
| `Varint.ZigzagMeaning` | crates/esker-base/src/varint.rs:114-120 | zigzag sends a value to twice itself and a negative one to twice its magnitude less one |
| `Varint.ZigzagRoundTrip` | crates/esker-base/src/varint.rs:114-132 | zigzag is a bijection between signed and unsigned words |
| `Varint.PutI64` | crates/esker-base/src/varint.rs:135-137 | appends the encoding of the zigzagged value |
| `Varint.GetI64` | crates/esker-base/src/varint.rs:140-143 | a signed value is decoded if and only if the input starts with the encoding of its zigzag form |
| `Sha256.Hasher.constructor` | crates/esker-base/src/sha256.rs:80-87 | a new hasher has taken in nothing |
| `Sha256.Hasher.TopUp` | crates/esker-base/src/sha256.rs:95-113 | a begun block is filled as far as the data goes, folded in if full, and nothing of it is lost |
| `Sha256.Hasher.TakeBlocks` | crates/esker-base/src/sha256.rs:115-128 | whole blocks are folded straight from the data and the rest is buffered |
| `Sha256.Hasher.Update` | crates/esker-base/src/sha256.rs:90-129 | a hasher that has taken in a message has afterwards taken in that message and the data |
| `Sha256.Hasher.Finish` | crates/esker-base/src/sha256.rs:132-154 | the digest is the fold of all the blocks of the padded message |
| `Sha256.OutputAt` | crates/esker-base/src/sha256.rs:149-153 | byte `j` of word `i` of the final state, highest first, is byte `4i+j` of the digest |
| `Sha256.PaddedAt` | crates/esker-base/src/sha256.rs:133-145 | every byte of the padded message: the message, the one bit, zeros, and the number of bits with its highest byte first |
| `Sha256.PaddingIsLeast` | crates/esker-base/src/sha256.rs:133-145 | the padding ends a block, and with fewer zeros it would not |
| `Sha256.PaddedInjective` | crates/esker-base/src/sha256.rs:133-145 | no two messages are padded alike, wrapped bit counts included |
| `Sha256.Digest` | crates/esker-base/src/sha256.rs:159-163 | the one-shot form is the definition |
| `Sha256.DigestOfPieces` | crates/esker-base/src/sha256.rs:62-66 | wherever the calls fall, the digest is that of the concatenation |
| `Hmac.Mask` | crates/esker-base/src/hmac.rs:31-36 | a pad is masked with the key byte by byte |
| `Hmac.HmacSha256` | crates/esker-base/src/hmac.rs:21-47 | for every key length the result is the nested hash of section 2 of RFC 2104 |
| `Values.ValueRoundTrip` | crates/esker-columnar/src/value.rs:280-523 | a value fits a type if and only if borrowing it and owning it again as that type gives it back |
| `Values.FitsTheRun` | crates/esker-columnar/src/column.rs:171-209 | a value that fits a type is of the kind that type's dense run holds |
| `Column.FromBools` | crates/esker-columnar/src/column.rs:44-61 | the mask answers every row as its flag says, counts the flags set, and takes no bytes when none is |
| `Column.SetWeighs` | crates/esker-columnar/src/column.rs:44-61 | the first row of a byte is its lowest bit |
| `Column.CountNulls` | crates/esker-columnar/src/column.rs:514-516 | the number of flags set |
| `Column.NewColumn` | crates/esker-columnar/src/column.rs:219-248 | accepted exactly when the run fits the type, its offsets cover the data in order, and there are as many values as rows not NULL |
| `Column.WovenAt` | crates/esker-columnar/src/column.rs:353-375 | a row that is not NULL holds the value counted by such rows before it |
| `Column.ColumnIter.Next` | crates/esker-columnar/src/column.rs:353-375 | each step gives the next row, NULLs in place, and no row past the last |
| `Column.AppendedIsDense` | crates/esker-columnar/src/column.rs:429-459 | appending to a run adds that value and leaves the others as they were |
| `Column.ColumnBuilder.Append` | crates/esker-columnar/src/column.rs:429-459 | a value is appended to its run, or refused and nothing changed, exactly when the bytes would overflow their offsets |
| `Column.ColumnBuilder.Push` | crates/esker-columnar/src/column.rs:419-459 | a value of another type changes nothing; an accepted one is the next row; one refused for size leaves a row without a value |
| `Column.ColumnBuilder.Finish` | crates/esker-columnar/src/column.rs:480-509 | succeeds exactly when no row lost its value, then with the rows taken; either way the builder is empty again |
| `Column.Build` | crates/esker-columnar/src/column.rs:251-257 | a column is built exactly when every value fits and the bytes together are below `2^32`, and its rows are the values |
| `Column.ToValues` | crates/esker-columnar/src/column.rs:300-302 | every row owned again in order, or an error if and only if some row could not have been written by that type |
| `Column.BuiltIsRead` | crates/esker-columnar/src/column.rs:251-302 | the values a column was built from are the values read out of it |
| `Base64.AlphabetRoundTrip` | crates/esker-base/src/pem.rs:81-90 | a byte stands for a sextet exactly when it is that sextet's letter, and padding is no letter |
| `Base64.AlphabetIs` | crates/esker-base/src/pem.rs:81-90 | the letters are those of table 1 of RFC 4648 |
| `Base64.Decode` | crates/esker-base/src/pem.rs:79-146 | for every text the answer is one its sextets, padding and first offending byte explain, whitespace ignored |
| `Base64.StrippedAround` | crates/esker-base/src/pem.rs:99-101 | a tab, line feed, form feed, carriage return or blank anywhere makes no difference, and every other byte counts in its place |
| `Base64.OneAnswer` | crates/esker-base/src/pem.rs:79-146 | for every text only one answer is explained |
| `Base64.DecodeOfEncode` | crates/esker-base/src/pem.rs:79-146 | decoding undoes the padded encoder of section 4 of RFC 4648 for every byte string, with any of those five bytes put in anywhere and as often as wanted |
| `Base64.AcceptedLength` | crates/esker-base/src/pem.rs:127-146 | an accepted text has whole groups of letters and padding, and the padding says how many bytes the last group lacks |
| `Base64.CanonicalExactly` | crates/esker-base/src/pem.rs:127-138 | an accepted text is the encoding of what it decodes to if and only if its spare bits are zero |
| `Base64.SpareBitsAreNotChecked` | crates/esker-base/src/pem.rs:134-138 | two different texts are accepted for one byte, and only one of them is its encoding |
| `Hash.Fnv1a64From` | crates/esker-base/src/hash.rs:25-32 | the bytes folded in one after another |
| `Hash.FnvStepBack` | crates/esker-base/src/hash.rs:28-29 | what a step leaves gives back the state from the byte and the byte from the state |
| `Hash.FnvChains` | crates/esker-base/src/hash.rs:23-32 | a hash built in pieces is the hash of the concatenation |
| `Hash.FnvInjective` | crates/esker-base/src/hash.rs:25-32 | different states stay different over the same bytes |
| `Hash.Mix64` | crates/esker-base/src/hash.rs:36-44 | the step-by-step finalizer is the composed one |
| `Hash.MixIsABijection` | crates/esker-base/src/hash.rs:36-44 | the finalizer and its written-out inverse undo one another |
| `Hash.CollidesExactly` | crates/esker-base/src/hash.rs:48-50 | two keys collide if and only if FNV-1a makes them |
| `Hash.SeedsDiffer` | crates/esker-base/src/hash.rs:54-56 | one key never has the same hash under two seeds |
| `Hash.OneByteTells` | crates/esker-base/src/hash.rs:54-56 | two keys that differ in one byte never collide, under any seed |
| `Hash.KnownHash` | crates/esker-base/src/hash.rs:66-68 | the published FNV-1a value of one letter |
| `Hash.KnownFinalizer` | crates/esker-base/src/hash.rs:73-77 | the frozen value of the whole hash for no bytes |
| `Partition.TilesPartition` | crates/esker-cli/src/region.rs:298-302 | regions that chain from the beginning to the end of the key space, are open only at the end and cross no bounds hold each key once |
| `Partition.CrossedRegionOverlaps` | crates/esker-cli/src/region.rs:303-380 | in a chain that ends open, a region that ends before it starts leaves some key not held exactly once |
| `Partition.ChainPartitionsExactly` | crates/esker-cli/src/region.rs:303-380 | any chain of regions that reaches the end of the key space is a partition if and only if it reaches it once and no region ends before it starts |
| `Partition.IncreasingStartsSuffice` | crates/esker-cli/src/region.rs:303-380 | regions in strictly increasing order of start meet both conditions |
| `Walk.TakePage` | crates/esker-cli/src/region.rs:338-370 | a page is taken in whole if it chains on; otherwise the region reported is the first that does not start where the list had got to |
| `Walk.OneBreak` | crates/esker-cli/src/region.rs:338-370 | a list has at most one first break and does not chain if it has one, so the report names one region |
| `Walk.WalkPages` | crates/esker-cli/src/region.rs:303-380 | an accepted table is all regions listed, chained to the end of the key space or empty; a break, a gap and a failed question are reported as such and only then, a break against the first region that breaks the chain; pages that run out leave a chain not yet at the end |
| `Walk.AcceptedIsPartition` | crates/esker-cli/src/region.rs:303-380 | an accepted table that is not empty holds every key exactly once if and only if no region before the last is open above and none ends before it starts |
| `Walk.OverlapIsAccepted` | crates/esker-cli/src/region.rs:338-375 | two regions over the whole key space on one page are accepted, although they overlap |
| `Walk.StepBackIsAccepted` | crates/esker-cli/src/region.rs:338-375 | three regions on one page, the middle one ending before it starts, are accepted although a key lies in two of them |
| `Fragments.ColumnarPeer` | crates/esker-client/src/fragment.rs:311-317 | the first listed columnar learner, and none exactly when none is listed |
| `Fragments.Confirmed` | crates/esker-client/src/fragment.rs:150-171 | given what routing, its repair and the driver have for a key: the driver is gone by exactly when no columnar learner is listed and it has a region, and otherwise the route; it fails exactly when both the route and its repair do |
| `Fragments.RunMeets` | crates/esker-client/src/fragment.rs:173-186 | the stopping rule leaves out exactly the regions that do not meet the range |
| `Fragments.Shards` | crates/esker-client/src/fragment.rs:140-188 | given those for every key of a fixed partition: the shards are exactly the regions that meet the range, in order and once each, each with the first columnar learner of the answer gone by; a range with no keys gives the region of its start; a failure is the one routing has for a key the walk gets to |

## Left out

- Texts meant for a human (`detail`, `reason`, formatted messages) are not modelled, nor is logging.
- The other raw operations (`get`, `put`, batches, `delete_range`, `compare_and_swap`) are one routed call each and would add only easy members.
- Router.Call: a run is observed for at most `watch` attempts, because whether the loop ends depends on the options; `CallEndsExactly` says for which, and `CallToTheEnd` and `CallByDefault` need no `watch`. Whether the gate before the first attempt admits the call is an input, and so is what the shared cache holds after each repair; the attempt counter at `2^32` and the eviction of a cache entry on a terminal error are not modelled.
- The converse of the ambiguity rule: a resolver failure of unknown outcome may be reported as ambiguous although nothing was sent.
- Epochs in the cache: an insertion compares none, so the cache promises nothing about their order and nothing is stated.
- `RegionTable`, the fixed routing table, whose insertion sweeps nothing.
- RawScan.Routed: what the driver answers is taken as it comes; that a cached route contains its key is what `RegionCache` proves.
- Fragments.Shards: the routing environment is a fixed partition into regions that hold keys, as the placement driver demands of each, whose peers may be out of date; a cluster that splits during the walk is left to the store's own epoch check.
- `FragmentClient::evaluate` is one retried read with a fixed address; it repeats the bounds proved of `Router.Call` in a simpler form.
- Walk.WalkPages: the pages are given as a list; an endless supply of pages, and the peers and addresses shown with each region, are not modelled.
- The compression of one SHA-256 block is a parameter: its round arithmetic and constants are not modelled.
- The CRC32C instructions of two processor families are not modelled; the portable form is.
- Rng: `chance` (floating point), `fill_bytes`, and the statistical quality of the stream.
- `Varint`, `Base64`, `Column`: shifts and masks are written as division, remainder and addition, wherever the bits joined do not overlap.
- Base64: finding the BEGIN and END lines of a PEM text.
- Values: which byte strings are UTF-8 is a parameter; floating-point values are their bit patterns, so comparison of columns by bits is equality.
- Column: buffer capacities, the byte budget estimate and the on-disk encodings.
- Threads that fan a batch out, sockets, TLS, handshakes, the command-line parser and the process-control commands.
