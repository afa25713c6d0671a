# Specification catalogs and analysis generations, verified in Dafny

The repository builds specification catalogs and analysis generations incrementally. Much of it is a fast form
that has to agree with a slow one, or a small state machine that has to keep a promise over whole runs. This
project models those parts and proves the agreement or the promise for all inputs and all runs.

`dafny verify dfyconfig.toml` checks everything.

| module | models |
|---|---|
| `Utf16`, `StableJson`, `CanonicalObjects` | JavaScript strings, the canonicalizer and the canonical text |
| `JsonReader`, `Utf8Decoding`, `StableJsonInjective` | readers of JSON text and of UTF-8, and what the canonical text and its bytes say to them |
| `OwnedWriter`, `JsonLength`, `Envelope`, `FactShardIdentity` | the streaming identity encoder of fact shards: a bounded buffer, a string cache and a key-shape cache |
| `GenerationIdentity` | the chunked generation preimage with its reference cache |
| `OrderedMap` | the persistent AVL map |
| `Capability`, `CapabilityRoots`, `CapabilityCitations` | memoised capability derivation and the rounds of citations |
| `ConformancePlan` | manifest checks and the dependency-ordered plan |
| `MemoryStore`, `MemoryStoreSteps`, `MemoryStoreRuns` | leases and retention of analysis generations |
| `Manifest`, `ManifestText` | the manifest fast path |
| `InsertionMap`, `OverlayMap`, `CatalogProjection`, `CatalogSnapshot`, `CatalogDelta` | catalog snapshots, their reuse and their patches |
| `ApplicationService`, `ApplicationServiceRuns` | publishing, reading and disposing application snapshots |
| `TaskLimiter`, `RebuildScheduler` | the two small concurrent protocols |
| `DeclarationPartition`, `CompilerUniverses`, `BatchCompiler`, `WorkerOutput` | partitioning, planning, halving and framing of compiler batches |
| `TarHeader`, `ViewerArchive` | the ustar Interchange Format of the `pax` utility (IEEE Std 1003.1) as the viewer reads and writes it |
| `JsonPointer` | sections 3 and 4 of RFC 6901 |
| `Options`, `Sorting`, `Sequences`, `Splitting`, `Collation` | shared helpers |

Code that updates state in place is a class or a method with loops whose contract ties the new state to a function
of the old one; the promises are then proved about that function. Protocols with awaits are state machines whose
steps are the stretches of code between two awaits, and what they promise is proved for every run.

## Assumptions

- `localeCompare` is a parameter of which only a total preorder is assumed; it may tie on different strings.
- A digest is modelled as the message it digests. `CatalogProjection` takes digests as functions and assumes that
  topologies and declaration sources with equal digests are equal and that a revision contains no NUL.
- Objects are plain data: distinct keys, no getters, no proxies, unchanged built-in prototypes.
- A compiler worker answers each request of a batch on its own, reports that the whole batch overflowed, or fails the
  whole batch otherwise (a timeout, an over-long result, a protocol error). The same batch comes back the same way.
- Packing, metrics, search text and the reference projection of a specification are pure functions of the
  specification and the projection of the whole catalog; packing may throw.
- Sources in one catalog are distinct, as the application keeps its specifications by source and refuses a repeated
  one (`application/checkpoint/checkpoint.ts:173-175`). A restored snapshot was a projection when it was persisted.
- A shard reference object that was found to be frozen keeps its contents.
- Publishes on one application service are serialised; readers and its disposal interleave freely.

## What turned out to need a condition

- The manifest fast path agrees with the original comparison on every manifest exactly when `localeCompare` tells
  all shard keys apart (`Manifest.AgreeOnAllManifestsIff`).
- `fromSorted` splits its ranges correctly exactly up to 2^31 entries, because `>>> 1` keeps 32 bits of the sum
  (`OrderedMap.SplitsExactly`).
- Opening a reader makes its universe the most recent one without collecting, so the universe bound can be exceeded
  until the next collection (`MemoryStoreRuns.OpenLeavesBoundExceeded`). It is the only step that can do so, and it does
  exactly when the bound is exceeded already and the universe that was most recent is another one without a lease
  (`MemoryStoreSteps.OpenSettlesIff`, `MemoryStoreRuns.OnlyOpeningUnsettles`).
- Creating a snapshot from a previous one of the same topology keeps all sources of the previous one, so only its
  sources can differ from a fresh snapshot (`CatalogSnapshot.CreateCatalogSnapshot` says by how much).
- A rebuild request that arrives after the loop has exited and before its promise is forgotten is followed by no
  rebuild until the next request (`RebuildScheduler.LateRequestIsLeftOver`, exact in `LeftOverIff`).
- Whether the worker's output is accepted does not depend on the chunks, but which failure is reported can
  (`WorkerOutput.FailureDependsOnChunks`). It does not exactly when the stream is within the limit of the batch or
  shows no bad line up to that limit (`WorkerOutput.CutsAgreeIff`). This matters because only the overflow of a batch
  makes the caller halve it (`WorkerOutput.OverflowReportedIff`).
- Halving keeps a request's result independent of its neighbours exactly if overflow is the only way in which a batch
  of several can fail (`BatchCompiler.NeighboursNeverMatterIff`); a timeout fails all requests of its batch.
- A record published by a refresh that was in flight when the service was disposed is not disposed by that disposal
  (`ApplicationServiceRuns.LatePublishIsMissed`); it disposes of exactly the records that were retained when it started
  (`ApplicationServiceRuns.FinishedDisposalIff`).
- An archive that the writer lays out indexes back exactly when the three required files are not empty; the writer
  itself only checks that they exist (`ViewerArchive.LayoutIndexesBack`).

## Model

| member | source | states |
|---|---|---|
| `Utf16.CompareUnicodeScalars` | analysis/identity/model.ts:101-113 | the two-index loop returns the sign of the code-point lexicographic order, and zero only for equal strings |
| `Utf16.ScalarLessIsStrictOrder` | analysis/identity/model.ts:101-113 | code-point order is a strict total order on all strings, unpaired surrogates included |
| `StableJson.CompareJsonKeys` | analysis/facts/owned-admission.ts:270-283 | the comparator's sign is the order that puts array-index keys first numerically and the others in code-point order |
| `StableJson.JsonKeyLessIsStrictOrder` | analysis/facts/owned-admission.ts:270-283 | that order is strict and total, so sorting by it has one result |
| `StableJson.EnumerateIsSort` | analysis/identity/model.ts:95-97 | rebuilding an object from scalar-sorted entries enumerates its keys in the order `compareJSONKeys` sorts them |
| `StableJson.CanonicalKeysAreSortedThenSkipped` | analysis/identity/model.ts:87-97 | filter, sort and `Object.fromEntries` give the same key order as sorting every key first and skipping undefined entries afterwards |
| `StableJson.CanonicalKeysDistinct` | analysis/identity/model.ts:87-97 | the canonical object has each defined key once |
| `JsonReader.QuoteReads` | analysis/identity/model.ts:73 | what is printed for a string reads back as that string, by a reader written from RFC 8259 |
| `JsonReader.ShortEscapes` | analysis/facts/owned-admission.ts:197-204 | the five control characters with a short escape, the quote and the backslash are spelled by it |
| `JsonReader.OtherUnits` | analysis/facts/owned-admission.ts:197-204 | the other control characters and half surrogate pairs are spelled by four lower-case digits, everything else as it is |
| `JsonReader.RenderReads` | analysis/identity/model.ts:73 | the printed text of any JSON value reads back as that value |
| `Utf8Decoding.Utf8Decodes` | analysis/facts/owned-admission.ts:231-236 | a string without half pairs comes back from its UTF-8 bytes, by a decoder written from RFC 3629 |
| `StableJsonInjective.StableTextReads` | analysis/identity/model.ts:69-98 | `stableJson` reads back as the canonical form, separator escapes included |
| `StableJsonInjective.MessageReads` | analysis/identity/model.ts:69-98 | the bytes of `stableJson`, decoded and read, are the canonical form |
| `StableJsonInjective.StableTextInjective` | analysis/identity/model.ts:69-98 | two values have the same `stableJson` exactly when their canonical forms are equal, separator escapes included |
| `StableJsonInjective.RenderSpelled` | analysis/identity/model.ts:73-75 | replacing the two line separators in the rendered text is the same as spelling them escaped inside strings |
| `StableJsonInjective.ValuePrefix` | analysis/identity/model.ts:69-76 | canonical texts are a prefix code: a text followed by a delimiter determines the value and what follows it |
| `CanonicalObjects.CanonicalIffEntries` | analysis/identity/model.ts:84-97 | two plain objects have one canonical form exactly when each entry agrees, whatever order their properties are in |
| `OwnedWriter.Writer.constructor` | analysis/facts/owned-admission.ts:113-123 | a fresh writer has an empty buffer, empty caches and has emitted nothing |
| `OwnedWriter.Writer.Flush` | analysis/facts/owned-admission.ts:262-267 | empties the buffer into the hash without changing what has been emitted |
| `OwnedWriter.Writer.Part` | analysis/facts/owned-admission.ts:126-131 | a short ASCII token is emitted whole at any buffer fill and counted byte for byte |
| `OwnedWriter.Writer.Text` | analysis/facts/owned-admission.ts:223-238 | a text of any length is emitted as exactly its UTF-8 bytes, in chunks that never split a character; the loop terminates |
| `OwnedWriter.EncodeIntoSplits` | analysis/facts/owned-admission.ts:231-236 | what `encodeInto` wrote and the text it did not consume spell the whole text |
| `OwnedWriter.EncodeInto` | analysis/facts/owned-admission.ts:231-236 | it never writes beyond the room, and with at least four bytes of room it consumes something, which is why the loop ends |
| `OwnedWriter.Writer.StringBytes` | analysis/facts/owned-admission.ts:174-210 | a string is emitted as its canonical quoted form whether it comes from the cache, fits the cache or is streamed, and counted by its ordinary JSON bytes |
| `OwnedWriter.Writer.Remember` | analysis/facts/owned-admission.ts:183-207 | every cached token is the canonical form of its string and fits the buffer |
| `OwnedWriter.Writer.OrderedKeys` | analysis/facts/owned-admission.ts:240-260 | the key order is the sorted one whether or not a cached shape matched, and cached shapes stay right |
| `OwnedWriter.Writer.Value` | analysis/facts/owned-admission.ts:133-167 | writing a nested value finishes exactly on plain JSON data and then appends exactly its canonical text |
| `OwnedWriter.Writer.Finish` | analysis/facts/owned-admission.ts:169-172 | the hashed chunks together are everything that was written |
| `JsonLength.CanonicalLengthIsOrdinary` | analysis/facts/model.ts:156-160 | the ordinary JSON byte length of a value equals that of its canonical form, so it can be counted while writing |
| `FactShardIdentity.WriteFact` | analysis/facts/owned-admission.ts:67-88 | one fact is written as its canonical object and its payload is counted by its ordinary JSON bytes |
| `FactShardIdentity.WriteFacts` | analysis/facts/owned-admission.ts:64-90 | the list of facts is written as one canonical array and the payload counts add up |
| `FactShardIdentity.WriteFactShardIdentity` | analysis/facts/owned-admission.ts:50-104 | the chunks concatenate to the bytes of `stableJson` of the shard identity, which decode and read back as its canonical form, exactly when every part is plain data; `semanticPayloadBytes` is the sum of the ordinary JSON byte lengths of the payloads |
| `GenerationIdentity.GenerationHasher.Encode` | analysis/generation/identity.ts:45-50 | answers exactly for immutable references, with the canonical text, whether it was cached or not |
| `GenerationIdentity.GenerationHasher.HashManifest` | analysis/generation/identity.ts:39-58 | answers exactly when all references are immutable; flushing pending text whenever enough characters gathered then hashes exactly the references joined by commas |
| `GenerationIdentity.GenerationHasher.HashGenerationIdentity` | analysis/generation/identity.ts:21-63 | the chunked preimage, or the generic one it falls back to, is the canonical text of the whole input and reads back as its canonical form, for every state of the reference cache |
| `GenerationIdentity.FastIff` | analysis/generation/identity.ts:34-36 | the chunked preimage is tried exactly for textual names and capabilities and a producer that is a flat record |
| `GenerationIdentity.ImmutableIff` | analysis/generation/identity.ts:65-105 | a reference is cacheable exactly when it is plain and each of its fields is one of the six known ones with a value of its kind |
| `OrderedMap.CompareKeysIsTotal` | analysis/internal/ordered-map.ts:85-89 | `compareKeys` extends `localeCompare` and breaks its ties by code units, so it is a strict total order over any total preorder |
| `OrderedMap.SetIsUpdate` | analysis/internal/ordered-map.ts:36-48 | `set` keeps order, balance, cached height and size, means the map update, and returns the same root when nothing changes |
| `OrderedMap.DeleteIsRemoval` | analysis/internal/ordered-map.ts:50-68 | `delete` keeps order, balance, cached height and size, means the map removal, and returns the same root when the key is absent |
| `OrderedMap.BalanceKeeps` | analysis/internal/ordered-map.ts:96-117 | rebalancing keeps the order, the contents and the map of any node |
| `OrderedMap.Rebuilt` | analysis/internal/ordered-map.ts:96-117 | rebalancing a node whose balanced subtrees differ by at most two gives a valid tree, at most one lower, and leaves a balanced node as it is |
| `OrderedMap.FirstIsLeast` | analysis/internal/ordered-map.ts:57-59 | the successor of a removed node is the least entry of its right subtree, and removing it keeps the rest |
| `OrderedMap.ContentsAreSorted` | analysis/internal/ordered-map.ts:70-80 | the in-order list is strictly ascending, lists exactly the map and has `size` elements |
| `OrderedMap.BalancedIsShallow` | analysis/internal/ordered-map.ts:91-108 | a tree of height h holds at least Fib(h + 2) - 1 entries |
| `OrderedMap.Get` | analysis/internal/ordered-map.ts:26-34 | lookup returns the mapped value and visits no more nodes than the height, hence logarithmically many |
| `OrderedMap.Entries` | analysis/internal/ordered-map.ts:70-80 | the stack-based iterator terminates, yields exactly the in-order list and never stacks more nodes than the height |
| `OrderedMap.SplitsExactly` | analysis/internal/ordered-map.ts:17-23 | the 32-bit midpoint splits every range properly exactly for at most 2^31 entries |
| `OrderedMap.FromSortedIsValid` | analysis/internal/ordered-map.ts:16-24 | building from a strictly sorted list gives a valid balanced tree with exactly that list |
| `OrderedMap.RunMeansMap` | analysis/internal/ordered-map.ts:36-68 | any sequence of sets and deletes means the same sequence of map updates |
| `OrderedMap.RunsStayValid` | analysis/internal/ordered-map.ts:36-68 | every tree reachable by sets and deletes is valid and logarithmically shallow |
| `Capability.ActiveLaws` | specification/capability.ts:119-125 | a law is active exactly when some declaration of it has an active test |
| `Capability.RootOrderIsIrrelevant` | specification/capability.ts:171-190 | listing modules with distinct roots in another order changes neither the entries nor their order |
| `CapabilityRoots.EntriesAreDefinitions` | specification/capability.ts:171-191 | there is an entry for every definition of every module, with its id, source and root and its citations in order, and no other |
| `CapabilityRoots.EntriesByRoot` | specification/capability.ts:174-176 | the entries are listed module by module in ascending order of the roots |
| `CapabilityRoots.CitationTargets` | specification/capability.ts:193-196 | a citation targets the first entry declared under its id in the module it means, its own or the directory below it, and nothing exactly when that module does not declare the id |
| `CapabilityRoots.LawsAreDeclared` | specification/capability.ts:119-125 | a cited law is active exactly when that module declares it with an active test |
| `CapabilityRoots.HeldByItsCitations` | specification/capability.ts:108-115 | read off the modules: a capability is held exactly when it cites something, and every law and capability it cites is active or held where the reference points |
| `Capability.HeldIsFixedPoint` | specification/capability.ts:109-115 | held means citing something, every cited law active and every cited capability held |
| `Capability.HeldIsLeast` | specification/capability.ts:109-115 | held is contained in every set closed under that rule, so it is the least fixed point |
| `Capability.CycleIsNotHeld` | specification/capability.ts:142-143 | a capability that reaches itself by citations is not held, so cutting the cycle there is right |
| `Capability.Deriver.Blocks` | specification/capability.ts:140-145 | a cited capability blocks exactly when it is unresolved or outside the fixed point, at any point of the traversal |
| `Capability.Deriver.Derive` | specification/capability.ts:135-161 | the memoised cycle-cutting derivation reports the fixed point whatever was derived before, and restores the visiting set |
| `Capability.DeriveCapabilityStatuses` | specification/capability.ts:116-163 | every reported status is held exactly on the least fixed point and declared exactly when nothing is cited; the blocking lists are exactly the inactive laws and the capabilities that are not held |
| `CapabilityCitations.StartsIsAdmits` | specification/capability.ts:88-93 | an entry has a chain of at most n + 1 citations to a law exactly when it cites one or cites a key with a chain of at most n |
| `CapabilityCitations.Saturated` | specification/capability.ts:94-97 | once a round admits nothing, no longer chain reaches anything new |
| `CapabilityCitations.Rounds` | specification/capability.ts:82-97 | the rounds terminate and reach exactly the keys from which a law is reachable, listing entries by the length of their shortest chain and then in entry order |
| `CapabilityCitations.CapabilitiesCiting` | specification/capability.ts:78-107 | one report for each listed entry with its coordinate and source, and exactly those of its citations that are given laws or reach one |
| `ConformancePlan.InstallAll` | conformance/plan.ts:12-39 | accepts exactly the valid profile lists with distinct ids and otherwise reports the first problem in checking order |
| `ConformancePlan.DependenciesAscend` | conformance/plan.ts:69 | the dependencies of a profile are visited in ascending order of their ids, each as often as it is listed |
| `ConformancePlan.VisitOneExtends` | conformance/plan.ts:51-61 | a successful visit extends the plan, in dependency order, by profiles reachable from the visited one |
| `ConformancePlan.VisitOneFails` | conformance/plan.ts:51-61 | a failed visit names a reachable profile that is missing or lies on a dependency cycle |
| `ConformancePlan.PlanSucceedsIff` | conformance/plan.ts:48-62 | planning succeeds exactly when every profile reachable from a request is installed and on no cycle |
| `ConformancePlan.PlanIsClosure` | conformance/plan.ts:48-62 | the plan lists the dependency closure once each, every dependency before its dependents |
| `ConformancePlan.PlanFailureIsJustified` | conformance/plan.ts:48-62 | the error of a failed plan is a missing or cyclic profile that some request reaches |
| `ConformancePlan.Planner.Visit` | conformance/plan.ts:51-61 | the recursive visit with its included and visiting sets does to the plan what the pure traversal does |
| `ConformancePlan.PlanConformance` | conformance/plan.ts:8-77 | the whole operation is the traversal of the sorted distinct requests, after the manifest checks and the check of the requests |
| `ConformancePlan.PlanningSucceedsIff` | conformance/plan.ts:41-62 | for valid manifests a plan exists exactly when every requested or installed profile is sound |
| `ConformancePlan.PlanningIsClosure` | conformance/plan.ts:64-76 | the plan and its scope: requests in order, the closure, and the planned profiles that were not requested |
| `ConformancePlan.OrderIsIrrelevant` | conformance/plan.ts:41-46 | neither the order of the profiles nor the order or repetition of the requests changes the result |
| `MemoryStore.MemoryStore.CollectUniverse` | analysis/memory/store.ts:174-191 | the two deleting loops compute the collected state |
| `MemoryStore.MemoryStore.Activate` | analysis/memory/store.ts:193-198 | a universe becomes the most recent and the last in insertion order |
| `MemoryStore.MemoryStore.Commit` | analysis/memory/store.ts:63-95 | commits exactly the valid transaction with the next sequence number and otherwise changes nothing |
| `MemoryStore.MemoryStore.Open` | analysis/memory/store.ts:97-109 | leases the newest retained generation with the id, or the current one when none is named, and fails without changing anything exactly when there is none |
| `MemoryStore.MemoryStore.SnapshotSet` | analysis/memory/store.ts:111-138 | leases for every wanted id the newest retained generation with it, or fails with the store exactly as before because one is not retained |
| `MemoryStore.MemoryStore.Release` | analysis/memory/store.ts:131-136 | gives up each lease in turn and collects its universe |
| `MemoryStore.UndoRestores` | analysis/memory/store.ts:117-126 | giving up in order the leases taken in order restores the store, counts and insertion order included |
| `MemoryStore.LocateAnswers` | analysis/memory/store.ts:156-172 | looking up a generation finds the highest sequence with the id, or the current one, exactly when there is one |
| `MemoryStore.ActivatedIsLast` | analysis/memory/store.ts:193-198 | activating moves a universe to the end of the insertion order and keeps the others in theirs |
| `MemoryStoreSteps.OpenedIsAsked` | analysis/memory/store.ts:160-165 | the opened generation is retained with the id that was asked for, and no retained one with it is newer |
| `MemoryStoreSteps.NotOpenedIff` | analysis/memory/store.ts:165-168 | a named generation is not opened exactly when none with the id is retained |
| `MemoryStoreSteps.DropOldestTrims` | analysis/memory/store.ts:178-183 | only generations neither current nor leased are dropped, oldest first, no more than needed, until the bound holds or none is left |
| `MemoryStoreSteps.EvictFromEvicts` | analysis/memory/store.ts:184-190 | only universes neither most recent nor leased are evicted, until the bound holds or all left are exempt |
| `MemoryStoreSteps.EvictsOldestFirst` | analysis/memory/store.ts:185-190 | eviction removes the exempt-free prefix of the insertion order and stops as soon as the bound holds |
| `MemoryStoreSteps.CollectKeeps` | analysis/memory/store.ts:174-191 | every collection keeps the invariant, drops nothing leased or current, and ends with each bound met or every remaining candidate exempt |
| `MemoryStoreSteps.CommitIff` | analysis/memory/store.ts:63-68 | a transaction is committed exactly when the store is open and the transaction is valid and follows the current generation; a refused one changes nothing |
| `MemoryStoreSteps.CommittedIsCurrent` | analysis/memory/store.ts:70-81 | after a commit its generation is retained under its id without leases, is current, and its universe is the most recent |
| `MemoryStoreSteps.CommitKeeps` | analysis/memory/store.ts:70-81 | a commit keeps lease counts and invariant and ends settled |
| `MemoryStoreRuns.CommitOnlyDropsUnused` | analysis/memory/store.ts:78-81 | a commit replaces no retained generation, and what it drops was neither leased nor current |
| `MemoryStoreSteps.ReleaseKeeps` | analysis/memory/store.ts:105-136 | releasing a reader's leases one by one keeps the counts of all others exact |
| `MemoryStoreRuns.StepKeeps` | analysis/memory/store.ts:58-149 | every step keeps the store consistent with its live readers; disposal empties it and later releases leave it empty |
| `MemoryStoreRuns.NothingInUseIsDropped` | analysis/memory/store.ts:58-138 | in every run before disposal lease counts equal live readers, and no leased generation and no current generation of a retained universe has been dropped |
| `MemoryStoreRuns.EveryCollectSettles` | analysis/memory/store.ts:78-136 | after every run, a commit or the disposal of a reader ends with the bounds met or every remaining candidate exempt, for every universe the reader held |
| `MemoryStoreSteps.OpenSettlesIff` | analysis/memory/store.ts:97-109 | a successful opening leaves the universes settled exactly when the bound holds, or the universe that was most recent is the opened one or holds a lease |
| `MemoryStoreRuns.OnlyOpeningUnsettles` | analysis/memory/store.ts:58-149 | in every run every other step, snapshot sets and disposals included, leaves settled universes settled |
| `MemoryStoreRuns.OpenLeavesBoundExceeded` | analysis/memory/store.ts:102-104 | a run after which a universe that is neither recent nor leased exceeds the bound |
| `Manifest.SameCapabilities` | analysis/internal/manifest.ts:87-92 | the loop decides equality of two optional lists |
| `Manifest.FastIsPermutation` | analysis/internal/manifest.ts:28-42 | strictly increasing references, all matching shards and as many as there are shards, are exactly the built ones |
| `Manifest.FastIsOriginal` | analysis/internal/manifest.ts:13-44 | the one pass accepts exactly what build, sort and compare accepts when no two shard keys tie |
| `Manifest.AgreeOnAllManifestsIff` | analysis/internal/manifest.ts:13-44 | the two agree on every manifest if and only if no two shard keys tie |
| `Manifest.MatchesMaterializedManifest` | analysis/internal/manifest.ts:13-44 | on plain data the loop returns the original answer when a shard is stored under another key, and otherwise the original answer conjoined with the absence of ties |
| `ManifestText.ReferenceIff` | analysis/facts/model.ts:120-129 | two flat reference records have one canonical form exactly when they are one reference, undefined capabilities included |
| `ManifestText.TextsAgreeIff` | analysis/internal/manifest.ts:14-17 | the original comparison of canonical texts is equality of the two lists entry by entry |
| `OverlayMap.CombineMeans` | server/catalog-snapshot.ts:724-744 | flattening an overlay over a layered map means removing keys and then putting changes; changes and removed stay disjoint and removed stays within the base |
| `OverlayMap.KeyListIsKeys` | server/catalog-snapshot.ts:759-770 | `keys` lists every key of the map once |
| `OverlayMap.SameSize` | server/catalog-snapshot.ts:746-748 | `size` is the number of keys of the map |
| `OverlayMap.OverlayMap.constructor` | server/catalog-snapshot.ts:724-744 | an overlay of a map or of an overlay is one level deep and means (base minus removed) plus changes |
| `OverlayMap.OverlayMap.Get` | server/catalog-snapshot.ts:750-753 | `get` reads the map the layers mean |
| `OverlayMap.OverlayMap.Has` | server/catalog-snapshot.ts:755-757 | `has` decides membership in the map the layers mean |
| `OverlayMap.OverlayMap.EnumerateKeys` | server/catalog-snapshot.ts:759-770 | the generator yields each key once, surviving base keys first and then the changed keys |
| `OverlayMap.OverlayAll` | server/catalog-snapshot.ts:711-744 | a chain of any number of overlays agrees with applying the patches in sequence and stays directly over the plain base |
| `CatalogProjection.SpecKeyInjective` | server/catalog-snapshot.ts:492-494 | payload keys of specifications with different sources differ |
| `CatalogProjection.RegisteredKeys` | server/catalog-snapshot.ts:623-647 | the registered sources are exactly those of the specifications' models, each under its digest |
| `CatalogSnapshot.ReuseIsRight` | server/catalog-snapshot.ts:353-369 | a reused entry, payload and key list are the ones that projecting the specification again would give |
| `CatalogSnapshot.RestoredIsCoherent` | server/catalog-checkpoint.ts:168-176 | a restored snapshot, which has no inputs, is as good a previous snapshot as the one that was persisted |
| `CatalogSnapshot.CoherentIsNavigable` | server/catalog-snapshot.ts:138-199 | in every snapshot each index entry leads to the payload with its revision, packed from its specification, and each source key of a payload to the source with that digest |
| `CatalogSnapshot.RegisterSources` | server/catalog-snapshot.ts:623-647 | registering sources never meets a digest collision and adds exactly the missing ones |
| `CatalogSnapshot.CreateCatalogSnapshot` | server/catalog-snapshot.ts:117-199 | with or without a previous snapshot the result is the fresh projection of the catalog: its index names the application snapshot, the content revision and the diagnostics, leads to every payload, and these to their sources; other sources are kept exactly from a previous snapshot of the current format with the same projections; it fails exactly when a specification cannot be packed |
| `CatalogDelta.TableSubstitute` | server/catalog-snapshot.ts:223-239 | a table patched with the changed rows is the table of the substituted catalog |
| `CatalogDelta.EntriesSubstitute` | server/catalog-snapshot.ts:282 | patching the index entries gives the entries of the substituted catalog |
| `CatalogDelta.PayloadsSubstitute` | server/catalog-snapshot.ts:259-280 | removing outdated payloads and adding changed ones gives the payloads of the substituted catalog |
| `CatalogDelta.SourcesSubstitute` | server/catalog-snapshot.ts:276-281 | dropping unlisted sources and adding changed ones leaves exactly the sources the substituted catalog registers |
| `CatalogDelta.ProjectChanges` | server/catalog-snapshot.ts:234-274 | the loop over the changed specifications collects exactly their payloads, outdated keys, sources, key lists and entries |
| `CatalogDelta.UpdateCatalogSnapshot` | server/catalog-snapshot.ts:205-307 | from a fresh, patched or restored snapshot: declines exactly when the format, sources, changes or topology do not allow a patch, and otherwise returns the fresh snapshot of the substituted catalog, with an index that names the application snapshot, the content revision and the diagnostics and leads to all payloads, exactly the registered sources, and the inputs it knows |
| `CatalogDelta.UpdateAll` | server/catalog-snapshot.ts:205-307 | a chain of patches, also from a restored snapshot, goes through exactly when each patch is accepted where the ones before it lead, and then gives the fresh snapshot of the catalog they lead to |
| `ApplicationService.EvictKeeps` | application/service.ts:992-1000 | eviction keeps every record's bookkeeping and ends within the bound |
| `ApplicationServiceRuns.StepKeeps` | application/service.ts:853-1002 | publishing, resuming a publish, opening, closing a reader and both halves of the disposal keep the invariant in any interleaving |
| `ApplicationServiceRuns.ReadsWhatItOpened` | application/service.ts:853-876 | in every run a reader reads the snapshot it was opened for, through evictions, publishes and disposals |
| `ApplicationServiceRuns.DisposedExactlyWhenUnused` | application/service.ts:853-898 | in every run an analysis is disposed of at most once, as soon as its record is evicted and unread and, before the service is disposed, never earlier |
| `ApplicationServiceRuns.CurrentIsMostRecent` | application/service.ts:969-1002 | in every run the retained records are within the maximum and the current snapshot is the most recent of them |
| `ApplicationServiceRuns.PublishedIsCurrent` | application/service.ts:969-1002 | a publish that awaits no unused analysis has made its snapshot current and retained |
| `ApplicationServiceRuns.ResumedIsCurrent` | application/service.ts:975-1000 | a publish of a known snapshot that waited has made it current and retained when it resumes; resuming an eviction keeps the current snapshot |
| `ApplicationServiceRuns.FinishedDisposal` | application/service.ts:887-898 | after a disposal a record is left undisposed only if it is evicted and still read, or was published by a refresh then in flight |
| `ApplicationServiceRuns.FinishedDisposalIff` | application/service.ts:887-898 | whatever happens between the two halves of a disposal, the finished disposal has disposed of exactly the records disposed of before and those retained when it started |
| `ApplicationServiceRuns.LatePublishIsMissed` | application/service.ts:887-898 | a run in which a snapshot published during the disposal stays undisposed |
| `ApplicationService.HeadlessApplicationService.Publish` | application/service.ts:969-1002 | the code up to the first await makes the publish step and keeps the invariant |
| `ApplicationService.HeadlessApplicationService.ResumePublish` | application/service.ts:975-1000 | the code after an await makes the resume step and keeps the invariant |
| `ApplicationService.HeadlessApplicationService.Open` | application/service.ts:853-866 | opens a reader on the named or the current snapshot exactly when the service is open and retains it, and counts it |
| `ApplicationService.HeadlessApplicationService.Close` | application/service.ts:878-883 | closing a reader counts one less once, and disposes of an evicted record with its last reader |
| `ApplicationService.HeadlessApplicationService.FinishDispose` | application/service.ts:893-897 | disposes of every captured record that is not disposed yet |
| `TaskLimiter.RunKeeps` | compiler/limit.ts:6-34 | in every interleaving of asking and ending, throwing or not, the active count is the number of permits held, the queue is non-empty only at capacity, and permits and queue together are the tasks in asking order |
| `TaskLimiter.PermitsAreBounded` | compiler/limit.ts:11-22 | at most `capacity` tasks hold a permit, exactly that many while any task waits, and permits are given first come first served |
| `TaskLimiter.QueueIsServed` | compiler/limit.ts:18-22 | a task at position p of the queue gets its permit within p + 1 endings |
| `TaskLimiter.TaskLimiter.Acquire` | compiler/limit.ts:11-17 | a task takes a free permit or joins the end of the queue |
| `TaskLimiter.TaskLimiter.Release` | compiler/limit.ts:18-22 | the permit goes to the first waiting task or is returned |
| `RebuildScheduler.RunKeeps` | server/reload.ts:22-56 | every interleaving of requests, quiet periods and rebuilds keeps the scheduler's invariant |
| `RebuildScheduler.OneRebuildAtATime` | server/reload.ts:31-40 | completed never exceeds requested and at most one rebuild is unfinished |
| `RebuildScheduler.NormalExitCoversAll` | server/reload.ts:34-42 | when the loop exits normally completed equals requested, every counted request precedes the start of a successful rebuild, and `changed` is the disjunction over the rebuilds of the run |
| `RebuildScheduler.LeftOverIff` | server/reload.ts:43-45 | after a normal run requests are left over exactly when some came after the loop had exited |
| `RebuildScheduler.LateRequestIsLeftOver` | server/reload.ts:28-45 | a run that ends idle with a request no rebuild follows |
| `RebuildScheduler.RebuildScheduler.Request` | server/reload.ts:28-33 | counts the request and starts the loop unless its promise is still there |
| `RebuildScheduler.RebuildScheduler.End` | server/reload.ts:37-42 | the end of a rebuild completes its target and goes on or settles; a throw completes nothing |
| `DeclarationPartition.AcceptsIff` | api/project.ts:349-355 | the group's tables accept a request exactly when it is compatible with every member |
| `DeclarationPartition.PartitionDeclarationEntries` | api/project.ts:330-370 | every request is in exactly one partition, members of a shared partition agree on common specifiers and neither is a root reference of the other, ambient entries are alone, and no two partitions could have been merged |
| `CompilerUniverses.PlanProject` | api/project.ts:117-141 | one project's requests are partitioned, and those that cannot be discovered get batches of their own |
| `CompilerUniverses.PlanDeclarationCompilerUniverses` | api/project.ts:92-146 | every request index is in exactly one batch, shared batches are of one project and pairwise compatible, and batches are in the order of their first index |
| `BatchCompiler.OnlyTheBatchLimitOverflows` | compiler/isolation.optimization.ts:13-20 | of the process runner's failures only the limit of the whole batch counts as its overflow |
| `BatchCompiler.FixedBatches` | compiler/isolation.optimization.ts:48-56 | consecutive batches cover the indices in order, all full but the last |
| `BatchCompiler.Plan` | compiler/isolation.optimization.ts:21-45 | every outcome plans each index once; explicit bounds and the fallback bound hold |
| `BatchCompiler.CompileBatch` | compiler/isolate.ts:75-91 | whatever the worker does, recursive halving terminates with one result per request in order, each what the worker gave for it in a batch of these requests that is not halved |
| `BatchCompiler.SettledMeans` | compiler/isolate.ts:75-91 | such a result is the request's own answer, the overflow report of the request alone, or the failure of a whole batch |
| `BatchCompiler.NeighboursNeverMatterIff` | compiler/isolate.ts:84-90 | every plan gives every request its own answer exactly if overflow is the only way in which a batch of several fails |
| `BatchCompiler.NeighboursDoNotMatter` | compiler/isolate.ts:83-90 | if no request overflows alone and no batch of them fails otherwise, every answer comes back whatever batches overflowed |
| `BatchCompiler.OverflowOnlyAlone` | compiler/isolate.ts:82-84 | an overflow report survives only for a request that overflows by itself |
| `BatchCompiler.CompileApisIsolated` | compiler/isolate.ts:46-73 | results placed by index come back in request order for any batches that contain each index once |
| `BatchCompiler.CompileApis` | compiler/isolate.ts:58-73 | planning and compiling together settle every request, whatever the planner and the worker do |
| `WorkerOutput.OutputReader.OnData` | compiler/isolation-process.optimization.ts:99-127 | the newline loop handles a chunk as accepting its completed lines and keeping the rest |
| `WorkerOutput.OutputReader.AcceptResult` | compiler/isolation-process.optimization.ts:80-97 | a line is skipped, rejected or appended |
| `WorkerOutput.OutputReader.OnClose` | compiler/isolation-process.optimization.ts:137-170 | the outcome at close |
| `WorkerOutput.ChunkTracks` | compiler/isolation-process.optimization.ts:99-127 | after any chunk the handler knows exactly the unfinished line and the results before it, or that no continuation can be accepted |
| `WorkerOutput.AcceptanceIsOfTheStream` | compiler/isolation-process.optimization.ts:80-170 | output is accepted exactly when the whole stream and each line are within their limits, every non-empty line parses and the count is right; the results are those lines in order |
| `WorkerOutput.ChunksDoNotMatter` | compiler/isolation-process.optimization.ts:99-127 | two ways of cutting one stream are accepted alike, with the same results |
| `WorkerOutput.FailureDependsOnChunks` | compiler/isolation-process.optimization.ts:101-108 | one stream whose failure differs with the cut |
| `WorkerOutput.CutsAgreeIff` | compiler/isolation-process.optimization.ts:80-170 | all ways of cutting a stream have the same outcome exactly when it is within the batch limit or shows no bad line within its first bytes up to that limit |
| `WorkerOutput.OverflowReportedIff` | compiler/isolation-process.optimization.ts:99-127 | every way of cutting a stream reports the overflow of the batch exactly when it exceeds the limit and shows no bad line before |
| `TarHeader.OctalFieldReads` | server/viewer-archive.ts:126-132 | a number that fits its field reads back |
| `TarHeader.FieldReads` | server/viewer-archive.ts:118-124 | printable text padded with NULs reads back |
| `TarHeader.FieldIff` | server/viewer-archive.ts:118-124 | a text field reads as a text exactly when it is that text, printable, and NULs up to its end |
| `TarHeader.OctalIff` | server/viewer-archive.ts:126-132 | a numeric field is accepted exactly when it is octal digits followed by NULs and spaces only, once the high bits are dropped |
| `TarHeader.ValidPathIff` | server/viewer-archive.ts:92-93 | a path is accepted exactly when it is printable without backslashes and is names joined by slashes, none of them empty or dots |
| `TarHeader.DecodeIff` | server/viewer-archive.ts:87-95 | a header is decoded exactly when every check passes, and one with a wrong checksum is refused as such |
| `TarHeader.HeaderIff` | scripts/viewer/archive.mjs:53-57 | the writer refuses exactly the sizes of more than eleven octal digits |
| `TarHeader.WrittenSumFits` | scripts/viewer/archive.mjs:30-31 | the checksum always fits its six digits and reads back |
| `TarHeader.HeaderSays` | scripts/viewer/archive.mjs:17-31 | the laid-out header byte by byte: literal constant fields, the path and NULs after it, size and checksum as digits with their terminators |
| `TarHeader.HeaderRoundTrip` | server/viewer-archive.ts:87-94 | the reader decodes every header the writer lays out, checksum, magic, links and path order included |
| `ViewerArchive.IndexArchive` | server/viewer-archive.ts:74-109 | the scan terminates on every input with the result of the block-wise scan, and finds some entries exactly when they account for the whole archive |
| `ViewerArchive.IndexIsChained` | server/viewer-archive.ts:78-107 | a successful index accounts for the whole archive: each header decodes to its entry, padding is zero, and the entries follow each other up to the two zero blocks |
| `ViewerArchive.IndexIff` | server/viewer-archive.ts:74-109 | an archive is accepted with some entries exactly when they are at most 16384, follow each other over the whole archive up to two zero blocks, and hold the three required files, none of them empty |
| `ViewerArchive.MissingIff` | server/viewer-archive.ts:82-84 | the file reported missing is the first required one that is absent or empty |
| `ViewerArchive.RangesAreDisjoint` | server/viewer-archive.ts:93-106 | entry ranges are 512-aligned, pairwise disjoint and before the terminator, and paths are strictly sorted |
| `ViewerArchive.LayoutIndexesBack` | scripts/viewer/archive.mjs:7-34 | an archive laid out for sorted writable files, at most 16384 of them, indexes back to those files if and only if the required ones are present and not empty |
| `ViewerArchive.EntriesHoldFiles` | server/viewer-archive.ts:41-52 | the byte range of each entry holds exactly the data of its file |
| `JsonPointer.UnescapeIsDecode` | reference/pointer.ts:11-15 | replacing `~1` and then `~0` is a single left-to-right decoding of a valid segment |
| `JsonPointer.OrderOfReplacementsMatters` | reference/pointer.ts:14 | the other order would decode `~01` to a slash |
| `JsonPointer.EscapeIsEncode` | reference/pointer.ts:20 | the two replacements escape each character once |
| `JsonPointer.PathRoundTrip` | reference/pointer.ts:6-21 | the segments of a path's pointer are the texts of its parts |
| `JsonPointer.PointerRoundTrip` | reference/pointer.ts:6-21 | a valid pointer comes back from its segments |
| `JsonPointer.IndexTextIsDecimal` | reference/pointer.ts:27-28 | the accepted index texts are exactly the texts of array positions |
| `JsonPointer.MemberIsFirst` | reference/pointer.ts:34-37 | a segment reads the member of that name, and nothing exactly when there is none |
| `JsonPointer.ReadPointer` | reference/pointer.ts:23-39 | the loop follows the segments one node at a time and distinguishes malformed pointers from absent nodes |
| `JsonPointer.ReadsExactlyThePath` | reference/pointer.ts:23-39 | a pointer reads a node exactly when it is the pointer of a path that leads to the node |

## Left out

- The TypeScript compiler and checker, markdown, schema validation and rendering of external modules: they rest on libraries whose behaviour is not part of this model; rendered modules and parsed lines are parameters.
- SHA-256 and gzip: a digest is the message that is digested, so nothing is said about collisions.
- The compact payload codecs behind the physical fact shards (`representation/index.ts`) are not part of this model; a payload is its decoded value.
- Guards against proxies, getters and altered prototypes in `owned-admission.ts`, `generation/identity.ts` and `manifest.ts`: values are plain data, and only the plain-data path is modelled.
- Decimal spelling of JavaScript numbers: a number is known by its text, which is what both encoders print.
- `OverlayMap.OverlayMap.constructor`: the iterators over values and entries and `forEach` follow from `keys` and `get` and are not modelled.
- `CatalogSnapshot.CreateCatalogSnapshot`: reading a persisted snapshot back and overlaying verifications (`catalogProjectionFromPayloads`, `restoreCatalogSnapshotVerifications`) are not modelled; a restored snapshot is a projection without its inputs, and an overlaid one that of the verified specifications.
- `MemoryStore.MemoryStore.Commit`: the checks of a transaction other than that of its sequence number are one flag, and cancellation and telemetry are not modelled; a lease is a count in the table rather than a shared object.
- `ApplicationService.HeadlessApplicationService.Publish`: refreshing, checkpoints, queries and reading sources are not modelled, nor is a failing disposal of an analysis.
- `RebuildScheduler.RebuildScheduler.Request`: delays are steps, and callers that await the shared promise are not modelled.
- `BatchCompiler.CompileBatch`: a worker is a function of its batch, so a batch that is sent twice comes back the same way.
- `WorkerOutput.OutputReader.OnClose`: the deadline, the error channel and spawn errors can fail a worker at any time and are not modelled; the resource report is one flag.
- `BatchCompiler.CompileApisIsolated`: batches run one after the other; since no two of them write the same place, their interleaving does not matter.
- `ViewerArchive.IndexArchive`: the archive is a sequence of bytes; opening, digest checking and streaming are I/O.
- `JsonPointer.ReadPointer`: array positions are compared as integers, where the program compares floating-point numbers; both refuse every position beyond the length.
- The command line, the viewer, telemetry, LRU caches, glob matching and byte ranges: branch reading that would only add easy members.
