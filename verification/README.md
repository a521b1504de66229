# Omnigres core algorithms, modelled and proved in Dafny

Omnigres is a set of Postgres extensions. This project models the algorithms and
protocols inside it that are more than plumbing, and proves what they promise:

- **Shared hash table** (`DshashIndex`, `DshashTable`, `DshashScan`, `DshashSafety`,
  `DshashContents`, `DshashRefinement`).
  Items are chained in a shared arena. The table grows by powers of two under one lock per
  partition, and a sequential scan walks the partitions hand over hand. The memory operations
  are methods on a class over an arena of links. The locking protocol is a state machine over
  any number of backends, its theorems are about every run and about whole operations, and
  inserting, deleting, deleting under a scan and growing in the pointer table are proved to be its steps.
- **Module runtime** (`Hooks`, `Shmem`, `Switchboard`). The hook array with its "wrap" pairs,
  named shared memory with reference counts across backends, and the atomic switchboard.
- **Cascading query aggregate** (`QuerySemantics`, `CascadingQuery`). Queries with common table
  expressions (CTEs) have a meaning over an environment of relations. Renaming, hoisting and
  chaining are proved against that meaning.
- **HTTP worker** (`Handshake`, `Backpressure`, `WorkerReload`, `Relay`, `Listeners`,
  `DescriptorPassing`, `DescriptorAccepting`). The two-thread suspension handshake, back-pressure on
  listeners, both threads together, the WebSocket relay parser, listener reconciliation on reload,
  and passing descriptors in chunks.
- **Release checker** (`TopologicalSort`, `Artifacts`). Kahn's algorithm and the validation of an
  artifacts file, sound and complete.
- **doctest** (`Wildcard`, `Subcases`). The glob matcher and the rerun loop over subcases.

`Basics` holds the few definitions the models share.

Where the code falls short of what one would expect of it, the model keeps the code as it is,
gives an input or a run that shows it, and proves the exact condition:

- Unloading a module leaves the remaining wrap pairs intact if and only if no remaining wrap
  encloses a removed entry (`Hooks.ReorganizeKeepsPairingIff`,
  `Hooks.UnloadingAnInnerHookBreaksTheWrap`).
- The counters of shared memory are exact at every state of a run if and only if no step fills one
  up and no release that no record names finds nothing leaked
  (`Shmem.BalancedIffCareful`, `Shmem.StrayReleaseFrees`, `Shmem.StrayReleaseWraps`).
- The last byte of a record is never written. An exiting backend gives back all it owes to an
  initialised module if and only if that byte is zero in its records, and a record of a 63-byte name
  can outlive its release
  (`Shmem.ExitGivesAllBackIff`, `Shmem.ExitMissesItsRecord`, `Shmem.RecordSurvivesItsRelease`).
- A cascade returns only the first non-empty member if and only if no later member follows an
  empty one, because each member looks at its immediate predecessor only
  (`CascadingQuery.CascadeIsFirstIff`, `CascadingQuery.SkippingAMemberResumes`).
- The built WITH clause names no CTE twice if and only if the member names and the prefixed CTE names
  are all different, and prefixed names collide in exactly one way
  (`CascadingQuery.BuiltNamesDistinctIff`, `CascadingQuery.PrefixedCollideIff`,
  `CascadingQuery.HoistedNamesCanCollide`).
- Renaming a reference is invisible if and only if the reference is unqualified, spelled like the
  CTE, and not aliased to another name (`QuerySemantics.RenamingInvisibleIff`,
  `QuerySemantics.AliasIsOverwritten`).
- The reload work has the event-loop thread out of its poll loop if and only if that thread is parked.
  A slow start breaks this, and so does a reload request that arrives just after a turn of the
  serving loop, because the wait is then skipped (`Handshake.ExclusiveIffParked`,
  `Handshake.SlowStartRace`, `Handshake.SkippedWaitRace`).
- Listeners stay consistent if and only if no reload disposes of a paused one
  (`Backpressure.GateOkIff`, `Backpressure.ReloadWhilePollingStrands`), and the pressure ends if and
  only if no request was lost (`Backpressure.PressureEndsIff`, `Backpressure.OneLostRequest`). With both
  threads in one machine, a reload after a wait that saw the event loop running is safe, one that
  skipped the wait is not, and a parked thread alone is not enough
  (`WorkerReload.WaitedReloadsAreSafe`, `WorkerReload.SkippedWaitStrands`,
  `WorkerReload.ParkedIsNotEnough`).
- The payload the relay hands on lies inside its buffer if and only if header plus length does not
  overflow 64 bits, and the wrapped size is zero for exactly one length (`Relay.PayloadInsideIff`,
  `Relay.WrappedToZeroIff`, `Relay.OverflowingHeader`, `Relay.ZeroSizeHeader`).
- A run of descriptor messages is taken in whole if and only if no message is larger than the one
  before it, up to padding, because the control length is set once (`DescriptorPassing.TakenWholeIffNeverGrow`,
  `DescriptorPassing.GrowingMessageIsCut`). A worker that does not give up accepts the list that was sent
  if and only if it never has to wait between two messages (`DescriptorAccepting.AcceptedIffWaitsOutside`,
  `DescriptorAccepting.WaitDropsTheHead`).

## Model

| member | source | states |
|---|---|---|
| DshashIndex.PartitionOfBucketIsPartitionOfHash | extensions/omni/dshash.c:145-163 | at every table size, the lock partition of a hash's bucket is the partition of the hash, so a lock chosen from the hash alone covers the bucket |
| DshashIndex.BucketInRange | extensions/omni/dshash.c:154-155 | every hash selects an existing bucket |
| DshashIndex.BucketBlock | extensions/omni/dshash.c:154-155 | the hashes of a bucket are exactly one contiguous block, beginning where its number is followed by zero bits |
| DshashIndex.GrowthSplitsBucket | extensions/omni/dshash.c:154-155 | doubling sends a hash from bucket b to 2b or 2b+1 and nowhere else |
| DshashIndex.PartitionBlock | extensions/omni/dshash.c:136-163 | the buckets of a partition are exactly one contiguous block, beginning where the macro says |
| DshashIndex.PartitionInRange | extensions/omni/dshash.c:136-163 | the partitions of the existing buckets are exactly the existing partitions |
| DshashIndex.NextBucketPartition | extensions/omni/dshash.c:136-163 | going to the next bucket stays in the partition or moves to the next one |
| DshashTable.Table.FindInBucket | extensions/omni/dshash.c:467-481 | walks the chain and finds an item with the key, or there is none in it |
| DshashTable.Table.Find | extensions/omni/dshash.c:467-481 | a lookup through the bucket of the key's hash finds an item exactly when the table holds one with the key, at every size |
| DshashTable.Table.InsertIntoBucket | extensions/omni/dshash.c:502-517 | the table gains exactly the new item; all chains stay acyclic, disjoint and filed by hash |
| DshashTable.Table.Insert | extensions/omni/dshash.c:502-517 | the same with the partition's count, which stays the number of its items |
| DshashTable.Table.Unlink | extensions/omni/dshash.c:551-574 | redirecting one link and freeing one item removes exactly that item and keeps all chains valid |
| DshashTable.Table.DeleteItemFromBucket | extensions/omni/dshash.c:551-574 | removes the item if and only if it is in the bucket; otherwise nothing changes |
| DshashTable.Table.DeleteKeyFromBucket | extensions/omni/dshash.c:522-546 | removes exactly the first item with the key if the bucket has one; otherwise nothing changes and there is none |
| DshashTable.Table.DeleteItem | extensions/omni/dshash.c:350-368 | removes exactly the item; its partition's count goes down by one and never below zero |
| DshashTable.Table.Resize | extensions/omni/dshash.c:376-446 | relinking in place keeps exactly the same items, files each under its hash at the new size, and leaves keys, hashes and partition counts alone; an already large table is not touched |
| DshashTable.MoveOne | extensions/omni/dshash.c:418-434 | moving the first item of an old chain to a new bucket keeps the rest of the old chains and all new chains intact |
| DshashTable.ChainedAfterUnlink | extensions/omni/dshash.c:551-574 | bypassing the k-th item of one chain leaves that chain without it and every other chain as it was |
| DshashTable.CountedAfterRemoving | extensions/omni/dshash.c:358-363 | lowering one partition's count after a removal keeps every count equal to the number of items |
| DshashTable.ResizeKeepsPartition | extensions/omni/dshash.c:376-446 | between any two sizes an item's bucket lies in the same partition, and doubling splits each bucket in two |
| DshashScan.FromAfterRemoval | extensions/omni/dshash.c:330-344 | deleting the current item leaves the saved next pointer, and everything reachable from it, as it was |
| DshashSafety.StepKeeps | extensions/omni/dshash.c:210-446 | every step of every backend keeps the whole invariant of locks, cached sizes, chains and scans |
| DshashSafety.RunKeepsInv | extensions/omni/dshash.c:210-446 | the invariant holds at every state of every run |
| DshashSafety.SwapIsAlone | extensions/omni/dshash.c:390-406 | when a backend replaces the bucket array, no other backend holds a lock or is inside a scan, and its own cached size is current |
| DshashSafety.OthersKeep | extensions/omni/dshash.c:229-312 | a change to one bucket goes unnoticed by every backend that does not hold its partition's lock |
| DshashSafety.DeleteCurrentKeeps | extensions/omni/dshash.c:330-344 | deleting the current item keeps the scan's position and what it still has to visit |
| DshashSafety.ScanAlwaysLocked | extensions/omni/dshash.c:229-324 | at every state of every run, a scan holds its current partition's lock, reads buckets only with a current cached size, and waits only for a lock above those it holds |
| DshashSafety.ScanFreezesSize | extensions/omni/dshash.c:229-324 | no step of any backend resizes the table while a scan is under way |
| DshashSafety.ScanSeesOneSize | extensions/omni/dshash.c:229-324 | from its first lock to its end a scan sees a table of one size |
| DshashSafety.RunCovers | extensions/omni/dshash.c:229-312 | at every moment of a scan, each item present throughout has been returned or is still ahead |
| DshashSafety.ScanReturnsExactlyOnce | extensions/omni/dshash.c:229-344 | in every interleaving, a finished scan has returned every item present throughout exactly once, even when the scanning backend deletes current items |
| DshashSafety.ScanNeverRepeats | extensions/omni/dshash.c:229-344 | at no moment of any run has a scan returned an item twice |
| DshashSafety.ReturnedIsInTable | extensions/omni/dshash.c:229-312 | an item is in the table at the moment a scan returns it |
| DshashSafety.GrownIsRehashed | extensions/omni/dshash.c:408-434 | splitting every bucket by the next hash bit is a rehash with the same items, so growing is always possible below 2^32 buckets |
| DshashSafety.AwaitsAbove | extensions/omni/dshash.c:283-297 | whoever waits for a partition lock, in a scan or a resize, holds only lower ones |
| DshashSafety.NoDeadlock | extensions/omni/dshash.c:210-446 | in every reachable state with a busy backend, some busy backend can take a step |
| DshashContents.StepContents | extensions/omni/dshash.c:330-446 | of every step of every backend: the table then holds exactly what it held, without the item the step deletes and with the one it inserts; it changes size at a swap, to the size wanted, and at no other step |
| DshashContents.NeverComesBack | extensions/omni/dshash.c:330-368 | in every run an item once deleted never comes back |
| DshashContents.LeavesByDeletion | extensions/omni/dshash.c:330-368 | in every run an item leaves the table only by a step that deletes it |
| DshashContents.ScanReturnsWhatStays | extensions/omni/dshash.c:223-301 | in every run, an item in the table when a scan takes its first lock and when it reports the end has been returned exactly once |
| DshashContents.DeletingScanEmptiesTheTable | extensions/omni/dshash.c:330-343 | in every run, a scan that deletes each item it returns before it goes on leaves nothing of what the table held at its start, whatever the other backends do |
| DshashContents.InsertOperation | extensions/omni/dshash.c:502-517 | locking, inserting and unlocking takes an idle backend to an idle one without locks and adds exactly the item |
| DshashContents.DeleteOperation | extensions/omni/dshash.c:350-368 | locking, deleting and unlocking takes an idle backend to an idle one without locks and removes exactly the item |
| DshashContents.ScanOperation | extensions/omni/dshash.c:210-315 | a whole scan that nobody is in the way of comes to an end, has then returned each item of the table once and nothing else, and ends without locks; deleting, it leaves the table empty |
| DshashContents.ResizeOperation | extensions/omni/dshash.c:376-446 | a whole growth that nobody is in the way of takes and releases all locks and leaves the rehashed table of the next size |
| DshashContents.LateResizeOperation | extensions/omni/dshash.c:393-405 | a backend that finds the table grown already lets go of its first lock and leaves the table alone |
| DshashRefinement.PlacementsAreRehashes | extensions/omni/dshash.c:376-446 | two placements of the same items, each filed by hash at its size, are rehashes of each other in the protocol's terms |
| DshashRefinement.ResizeIsAStep | extensions/omni/dshash.c:376-446 | growing the pointer table in place is exactly the swap to a rehashed table that the protocol takes as one step, and the swap is enabled |
| DshashRefinement.InsertIsAStep | extensions/omni/dshash.c:486-517 | inserting into the pointer table changes its abstraction exactly as the protocol's insertion step changes the table |
| DshashRefinement.DeleteIsAStep | extensions/omni/dshash.c:350-368 | deleting an item of the pointer table changes its abstraction exactly as the protocol's deletion step changes the table |
| DshashRefinement.DeleteCurrentIsAStep | extensions/omni/dshash.c:330-343 | deleting the item a scan has returned, in the pointer table, changes its abstraction exactly as the protocol's step of that name, and removes exactly that item |
| Hooks.RegisteredKeepsPairing | extensions/omni/omni.c:601-667 | registering a plain or wrap hook keeps every state index in range, at or after its own entry, and at its wrap partner |
| Hooks.KeptIsFilter | extensions/omni/hook_harness.c:110-136 | the entries that stay are exactly those of loaded modules and built-in hooks, in order |
| Hooks.DistanceKept | extensions/omni/hook_harness.c:118-130 | two kept entries stay as far apart as they were exactly when nothing between them was removed |
| Hooks.ReorganizeKeepsPairingIff | extensions/omni/hook_harness.c:110-136 | after unloading, the remaining entries are correctly paired if and only if no remaining wrap encloses a removed entry |
| Hooks.UnloadingAnInnerHookBreaksTheWrap | extensions/omni/hook_harness.c:122-127 | a plain hook inside a wrap, once unloaded, leaves the wrap with a state index outside the array |
| Hooks.HookArray.Register | extensions/omni/omni.c:601-667 | entry by entry: the last entry, and for a wrap the first as well, has the hook's handle, function and name, and every entry there was keeps its own, at its place or one later; all pairs stay intact |
| Hooks.HookArray.BumpStateIndices | extensions/omni/omni.c:613-619 | every state index goes up by one and nothing else changes |
| Hooks.HookArray.ShiftDown | extensions/omni/hook_harness.c:118-130 | one removal: later entries move down one place and lower the state indices at or after their place; earlier entries stay |
| Hooks.HookArray.Reorganize | extensions/omni/hook_harness.c:110-136 | in place, exactly the hooks of loaded modules and the defaults stay, in order, each with its handle, function and name and with its state index at the same distance |
| Hooks.HookArray.PurgeHooks | extensions/omni/omni.c:1095-1100 | unloading leaves a valid array, and correct pairs if and only if no remaining wrap encloses a removed entry |
| Hooks.PairedStatesInside | extensions/omni/hook_harness.c:138-164 | in a paired array every call looks up a context slot of its own or of a later entry |
| Hooks.HookArray.Iterate | extensions/omni/hook_harness.c:138-164 | from the last entry to the first, each function is called once, with the context its partner, already called, has left and with the value of the call before; the calls stop at the first hook that asks to finish |
| Hooks.NewestIsCalledFirst | extensions/omni/hook_harness.c:138-164 | an iteration after a registration calls the new hook's function first and, for a wrap, also last with the context of its first call, unless a call before asks to finish |
| Hooks.CallsAreOfTheEntries | extensions/omni/hook_harness.c:138-164 | the n-th call is of the n-th entry from the end, with its function, its partner's context and the value of the call before |
| Shmem.StepBalances | extensions/omni/omni.c:677-831 | a careful step changes a counter by exactly what it changes of what the backends' records owe and by what it leaks |
| Shmem.StepKeeps | extensions/omni/omni.c:677-831 | a careful step of any backend keeps the account of every key exact |
| Shmem.CarelessStepBreaks | extensions/omni/omni.c:677-831 | a step that fills a counter up, or a stray release without a leaked reference, upsets the account of its key |
| Shmem.RunBalances | extensions/omni/omni.c:677-831 | in every run of careful steps, of any length, each counter is exactly the references owed by the backends' records and those leaked: by failed initialisation, by records that do not name their allocation, by forgetting several records at once, by unloading, by vanishing, and by exits that do not find a record |
| Shmem.BalancedIffCareful | extensions/omni/omni.c:677-831 | of any run whatever: the accounts are exact at every state if and only if every step was careful |
| Shmem.StrayReleaseSafeIff | extensions/omni/omni.c:812-831 | a release that no record of the backend names neither wraps the counter nor takes it below what is owed if and only if the counter was above what is owed, that is, if a reference had leaked |
| Shmem.StrayReleaseFrees | extensions/omni/omni.c:812-831 | a run in which a stray release frees memory another backend has recorded |
| Shmem.StrayReleaseWraps | extensions/omni/omni.c:1190-1215 | a run in which an exiting backend leaves a live counter at zero and a stray release wraps it to 2^32 - 1 |
| Shmem.FindableIffClean | extensions/omni/omni.c:1197-1211 | every record an exiting backend's lookup finds names its allocation; it finds all of them exactly when none has a stray last byte |
| Shmem.ExitGivesAllBackIff | extensions/omni/omni.c:1190-1215 | an exiting backend gives back all it owes of an allocation if and only if it owes nothing, or the module is initialised and no record has a stray last byte |
| Shmem.ExitMissesItsRecord | extensions/omni/omni.c:786-797 | a run of three steps, with a stray byte at the end of the record, in which an exit leaves memory allocated that nobody will give back |
| Shmem.RecordSurvivesItsRelease | extensions/omni/omni.c:819-825 | a run in which the record of a 63-byte name with a stray last byte outlives the release that freed the memory |
| Shmem.FreedOnlyWhenUnused | extensions/omni/omni.c:731-747 | in every careful run, memory that has been freed is owed by no backend, no reference to it has leaked, and no record names it but the one whose release freed it |
| Shmem.NeverUnderflows | extensions/omni/omni.c:731-747 | in every careful run, neither a recorded deallocation nor an exiting backend takes a counter below zero |
| Shmem.CountWithoutKey | extensions/omni/omni.c:819-825 | dropping the records that name one key leaves none that names it and all that name another |
| Shmem.SharedTable.FindOrAllocateDsa | extensions/omni/omni.c:677-770 | long names and empty sizes are refused without effect; otherwise a new entry holds the tentative address, the size and one reference, an old one changes its count by one and nothing else, the last reference takes the entry with it, no other entry changes, and the answer says address, found and live |
| Shmem.AddressStays | extensions/omni/omni.c:706-747 | in every history of calls, a live entry keeps the address and size of its allocation |
| Shmem.SameAddressForAll | extensions/omni/omni.c:706-747 | in every history, whatever is called in between: all calls that find or make a live entry return one address, the one its allocation returned |
| Shmem.NoSharedAddress | extensions/omni/omni.c:683-714 | in every history that starts with an empty table and in which the allocator hands out unused memory, no two live entries share an address |
| Shmem.FreedIsGone | extensions/omni/omni.c:731-747 | memory is reported for freeing exactly when its last reference is given back, and then its entry is gone |
| Shmem.BackendState.FindOrAllocate | extensions/omni/omni.c:772-800 | refused exactly for a long name or an empty size; otherwise what the table answers, recorded once when the memory was found or made; a success is the two protocol steps of taking the reference and recording it |
| Shmem.BackendState.Deallocate | extensions/omni/omni.c:812-831 | one reference is given back, memory is reported for freeing exactly when it was the last, and every record that compares equal to the name is dropped: the protocol's release |
| Shmem.BackendState.ForgetKey | extensions/omni/omni.c:819-825 | the record list loses exactly the records that compare equal to the name, in place |
| Shmem.BackendState.ForgetModule | extensions/omni/omni.c:1134-1142 | the record list loses exactly the entries of the module, in place |
| Shmem.BackendState.GiveBackModule | extensions/omni/omni.c:1197-1211 | every live counter of the module goes down by the number of records the bytewise lookup finds, no other changes, none is deleted |
| Shmem.BackendState.Deinitialize | extensions/omni/omni.c:1190-1215 | an exiting backend takes exactly the protocol's exit step; no entry appears, goes or changes its address |
| Switchboard.ReportsWhatChanged | extensions/omni/omni.c:248-256 | a call reports exactly the bits it changed |
| Switchboard.TransitionsAddUp | extensions/omni/omni.c:241-257 | over any order of calls, "on" reports of a bit minus "off" reports is the change of the bit, so each transition has one owner |
| Switchboard.Module.AtomicSwitch | extensions/omni/omni.c:241-257 | switchboards other than 0 are refused; otherwise the masked bits are set or cleared and the difference is reported |
| QuerySemantics.RenameKeepsMeaning | extensions/omni_httpd/cascading_query.c:22-37 | renaming a relation in a query and its environment together keeps the rows, when references are clean and neither name is rebound |
| QuerySemantics.RenamingInvisibleIff | extensions/omni_httpd/cascading_query.c:22-37 | for one reference, the walk is invisible under all contents of the relations if and only if the reference is unqualified, spelled alike, not aliased otherwise, and not already the new name |
| QuerySemantics.SameNameIff | extensions/omni_httpd/cascading_query.c:22-37 | names are taken for the same exactly when they differ in the case of letters at most |
| QuerySemantics.AliasIsOverwritten | extensions/omni_httpd/cascading_query.c:27-30 | a reference under an alias of its own does not survive the renaming unseen |
| QuerySemantics.HiddenNamesDoNotMatter | extensions/omni_httpd/cascading_query.c:123-159 | a query that does not mention hoisted names evaluates alike with and without them |
| CascadingQuery.RenamedAtKeepsMeaning | extensions/omni_httpd/cascading_query.c:137-157 | giving one CTE its prefixed name, with all references, keeps a member's rows |
| CascadingQuery.RenamedAtKeepsClean | extensions/omni_httpd/cascading_query.c:137-157 | renaming one CTE leaves the later ones fit for renaming |
| CascadingQuery.RenamedFromKeepsMeaning | extensions/omni_httpd/cascading_query.c:137-157 | renaming all CTEs of a clean member, one after the other, keeps its rows |
| CascadingQuery.BuiltShape | extensions/omni_httpd/cascading_query.c:57-121 | every intermediate state is the chain of selects over the member names, with its WITH clause on the outermost select only |
| CascadingQuery.ScanUnlessMeaning | extensions/omni_httpd/cascading_query.c:88-108 | a later member's select returns its rows exactly when its immediate predecessor has none |
| CascadingQuery.MemberExtends | extensions/omni_httpd/cascading_query.c:123-159 | hoisting a member's CTEs and adding the member gives its name exactly the member's rows and hides nothing else |
| CascadingQuery.WithClauseMeaning | extensions/omni_httpd/cascading_query.c:123-159 | under the built WITH clause every member's name has the member's own rows |
| CascadingQuery.BuiltNamesDistinctIff | extensions/omni_httpd/cascading_query.c:137-159 | whatever the members, the built WITH clause names no CTE twice if and only if the member names and the prefixed names of their CTEs are all different |
| CascadingQuery.CleanNamesAreDistinct | extensions/omni_httpd/cascading_query.c:137-159 | the members for which the cascade is proved meet that condition: none of their names and prefixed names repeats |
| CascadingQuery.PrefixedCollideIff | extensions/omni_httpd/cascading_query.c:145-146 | CTEs of two differently named members get the same prefixed name if and only if one member's name continues the other's after an underscore and the CTE names make up for it |
| CascadingQuery.BuiltQueryCascades | extensions/omni_httpd/cascading_query.c:57-159 | the built query returns the first member's rows, then those of exactly the members whose immediate predecessor is empty |
| CascadingQuery.CascadeEmptyIff | extensions/omni_httpd/cascading_query.c:88-108 | the result is empty if and only if every member is |
| CascadingQuery.CascadeMember | extensions/omni_httpd/cascading_query.c:88-108 | place by place: a member right after an empty one, or first, is returned after those before it, and any other is not |
| CascadingQuery.CascadeStartsWithFirst | extensions/omni_httpd/cascading_query.c:88-108 | the first non-empty member's rows come first |
| CascadingQuery.CascadeIsFirstIff | extensions/omni_httpd/cascading_query.c:88-108 | the result is just the first non-empty member if and only if no later non-empty member follows an empty one |
| CascadingQuery.SkippingAMemberResumes | extensions/omni_httpd/cascading_query.c:88-108 | three members of which the second has no rows: the built query returns the rows of the first and the third |
| CascadingQuery.HoistedNamesCanCollide | extensions/omni_httpd/cascading_query.c:137-146 | two members, "a" with a CTE "b_c" and "a_b" with a CTE "c", whose built WITH clause names a CTE twice |
| CascadingQuery.PrefixNames | extensions/omni_httpd/cascading_query.c:137-157 | the loop is the renaming proved to keep the meaning, and every CTE gets the prefix, the member's name and its own |
| CascadingQuery.Aggregate.Reduce | extensions/omni_httpd/cascading_query.c:39-164 | a null name or query is refused without effect; otherwise the statement is the one built from the members so far and this one |
| CascadingQuery.Aggregate.Final | extensions/omni_httpd/cascading_query.c:166-175 | the statement built from the members, or an empty SELECT; on every database, clean members give exactly the rows of the cascade |
| TopologicalSort.CountNeighbors | tools/check_extension_artifacts.py:15-22 | adds one per edge to each neighbour's count, or names a neighbour without an entry |
| TopologicalSort.CountEdges | tools/check_extension_artifacts.py:13-22 | the counts are the in-degrees; a missing entry is reported if and only if the graph is not closed |
| TopologicalSort.TakeOffEdge | tools/check_extension_artifacts.py:40-44 | taking an edge off keeps the counts exact and makes its target ready exactly at zero |
| TopologicalSort.LeftoverHasCycle | tools/check_extension_artifacts.py:46-54 | nodes that each have a predecessor among them contain a cycle |
| TopologicalSort.SortedHasNoCycle | tools/check_extension_artifacts.py:8-54 | a graph with a topological order has no cycle |
| TopologicalSort.NotAllPlacedHasCycle | tools/check_extension_artifacts.py:46-54 | when the worklist runs dry early, the graph has a cycle |
| TopologicalSort.AllPlacedIsTopological | tools/check_extension_artifacts.py:46-54 | when all nodes are placed, the order is a permutation with every edge pointing forward |
| TopologicalSort.Sort | tools/check_extension_artifacts.py:8-54 | a topological permutation for a closed acyclic graph, the cycle error if and only if a closed graph has a cycle, the missing-entry error if and only if it is not closed |
| Artifacts.SplitIsJoinInverse | tools/check_extension_artifacts.py:66-68 | splitting at a separator is the inverse of joining with it |
| Artifacts.JoinIsSplitInverse | tools/check_extension_artifacts.py:67-103 | joining is undone by splitting exactly when no part holds the separator |
| Artifacts.ParseOfPrintedIff | tools/check_extension_artifacts.py:67-103 | a line written out as name=version#name=version,... is read back as it was exactly when no name or version holds a separator |
| Artifacts.PrintOfParsedIff | tools/check_extension_artifacts.py:67-103 | a text that is read as a line is that line written out exactly when it has at most one #; with more, nothing after the first is looked at |
| Artifacts.ParseOfPrintedLines | tools/check_extension_artifacts.py:66-103 | the lines of a file written out are read back as they were |
| Artifacts.SemverIff | tools/check_extension_artifacts.py:64 | the released versions are exactly three numbers separated by dots |
| Artifacts.OmniIff | tools/check_extension_artifacts.py:78 | the omni extensions are exactly those whose names begin with omni |
| Artifacts.AddHead | tools/check_extension_artifacts.py:69-98 | a line's head passes the checks exactly when the lines stay well formed, and the tables then record them |
| Artifacts.AddDep | tools/check_extension_artifacts.py:105-145 | a dependency passes the checks exactly when the lines stay well formed, and the tables then record them |
| Artifacts.CheckDependency | tools/check_extension_artifacts.py:105-145 | accepts exactly the dependencies that fit the dependent and the versions seen, and records them |
| Artifacts.LoadDependencies | tools/check_extension_artifacts.py:100-145 | a whole dependency list is accepted exactly when the line is well formed |
| Artifacts.CheckHead | tools/check_extension_artifacts.py:69-98 | accepts exactly new omni heads with a proper and consistent version, and records them |
| Artifacts.LoadLine | tools/check_extension_artifacts.py:66-145 | one line is accepted exactly when it parses and keeps the file well formed |
| Artifacts.LoadLines | tools/check_extension_artifacts.py:66-145 | the file is accepted so far exactly when all lines parse and are well formed together |
| Artifacts.AddForeign | tools/check_extension_artifacts.py:147-151 | the graph has the lines and, without edges, the unversioned dependencies |
| Artifacts.GraphClosedIff | tools/check_extension_artifacts.py:147-154 | the graph is closed exactly when every omni dependency has a line of its own |
| Artifacts.GraphCycleIff | tools/check_extension_artifacts.py:147-154 | the graph has a cycle exactly when the file's dependencies have one |
| Artifacts.DependencyIsReleased | tools/check_extension_artifacts.py:105-145 | an omni dependency of a released extension is released, at the version asked for |
| Artifacts.DependencyComesLater | tools/check_extension_artifacts.py:153-161 | a released omni dependency is listed after its dependent |
| Artifacts.SelectionIsRelease | tools/check_extension_artifacts.py:153-161 | the selected list is every released extension once, closed under omni dependencies, in order |
| Artifacts.SelectReleased | tools/check_extension_artifacts.py:153-161 | writes out the released extensions of an order, in that order |
| Artifacts.CheckExtensionArtifacts | tools/check_extension_artifacts.py:57-161 | accepts exactly the files in order, and what it lists, as name=version, is a release: every released extension once, each before its dependencies |
| Artifacts.ForeignDependencyFile | tools/check_extension_artifacts.py:67-128 | from the text of a file of one line with a foreign dependency: accepted exactly for an omni extension, at a release or unreleased, with the dependency at any version |
| Artifacts.UnreleasedDependencyIsRefused | tools/check_extension_artifacts.py:112-120 | a released extension that depends on an unreleased one has the file refused, whatever else is in it |
| Wildcard.SkipLiteral | deps/doctest.h:4142-4149 | a star-free part of the pattern matches a text only by fitting at its start |
| Wildcard.ForgetEarlierStar | deps/doctest.h:4152-4157 | when a later star is reached, earlier choices can be forgotten, so one saved position is enough |
| Wildcard.NextAttempt | deps/doctest.h:4162-4165 | after a mismatch, only starting later after the last star can succeed |
| Wildcard.CompareHead | deps/doctest.h:4142-4149 | up to the first star the texts agree, or nothing matches |
| Wildcard.WildCmp | deps/doctest.h:4138-4172 | true if and only if the text matches the pattern under the plain meaning of `*` and `?`, in both case modes; it always ends |
| Wildcard.OneCharacterPattern | deps/doctest.h:4138-4172 | what a pattern of one character matches: a star any text, a question mark any character, any other character itself, or its other case where that does not matter |
| Wildcard.MatchesInParts | deps/doctest.h:4138-4172 | a text matches one pattern after another exactly when it can be cut in two that match them |
| Subcases.Context.Enter | deps/doctest.h:4232-4262 | whether a subcase is entered, what is pushed, and when an untried sibling is saved for the next run |
| Subcases.Context.Leave | deps/doctest.h:4268-4298 | the first subcase left is the leaf; the stack is recorded as finished when nothing is saved |
| Subcases.GoDown | deps/doctest.h:4232-4262 | entering the subcase the saved path leads to keeps the path valid below it |
| Subcases.PassThrough | deps/doctest.h:4232-4298 | after one leaf, the saved path stands for exactly the leaves after it |
| Subcases.LeavesAreDistinct | deps/doctest.h:7008-7059 | no leaf is listed twice |
| Subcases.LeavesIff | deps/doctest.h:7008-7059 | what is listed are exactly the paths to subcases without subcases of their own |
| Subcases.LeavesInSourceOrder | deps/doctest.h:7008-7059 | the leaves of earlier subcases are listed before those of later ones |
| Subcases.Context.RunBody | deps/doctest.h:4232-4298 | one run goes through exactly the first of the leaves left, in source order, and never indexes the stack out of range |
| Subcases.Context.RunTestCase | deps/doctest.h:7008-7059 | the rerun loop ends, having entered every leaf exactly once in source order, with nothing saved |
| Handshake.StepKeeps | extensions/omni_httpd/event_loop.c:412-448 | every step of either thread keeps the invariant of flags, mutex and program points |
| Handshake.RunKeepsInv | extensions/omni_httpd/event_loop.c:412-448 | the invariant holds at every state of every run |
| Handshake.ReloadIsExclusive | extensions/omni_httpd/http_worker.c:595-615 | once the main thread has seen the other resumed in its wait, that thread is out of its poll loop until the suspension is cleared |
| Handshake.NeverBothWaiting | extensions/omni_httpd/http_worker.c:595-615 | in no run are both condition waits blocked |
| Handshake.SignalsAreNotLost | extensions/omni_httpd/event_loop.c:412-448 | a thread waiting for a condition that already holds has its signal still to come |
| Handshake.AckWakesNobody | extensions/omni_httpd/event_loop.c:412-424 | in no run does the acknowledgement of a resumption find the main thread waiting |
| Handshake.SpuriousWakeupIsHarmless | extensions/omni_httpd/http_worker.c:609-615 | a wait that ends without a signal is taken up again as if nothing had happened |
| Handshake.NoDeadlock | extensions/omni_httpd/event_loop.c:412-448 | until the main thread stops, some thread can take a step |
| Handshake.ParkedStays | extensions/omni_httpd/event_loop.c:412-424 | a parked event-loop thread stays parked until the suspension is cleared |
| Handshake.UnparkedPolls | extensions/omni_httpd/event_loop.c:412-448 | a thread not parked at any moment of the reload work can reach its poll loop before the suspension is cleared |
| Handshake.ExclusiveIffParked | extensions/omni_httpd/http_worker.c:402-615 | in every run and at every moment of the reload work, after a wait or without one, the event-loop thread stays out of its poll loop until the suspension is cleared if and only if it is parked |
| Handshake.SlowStartRace | extensions/omni_httpd/http_worker.c:595-615 | a run in which a reload works while the event-loop thread, slow to start, polls |
| Handshake.SkippedWaitRace | extensions/omni_httpd/http_worker.c:603-615 | a run without any wait in which a reload, requested right after a turn of the serving loop, works while the resumed event-loop thread polls |
| Handshake.WaitedReload | extensions/omni_httpd/http_worker.c:603-615 | a run of a reload as intended, whose work begins after a wait with the event loop parked |
| Backpressure.Handle | extensions/omni_httpd/http_worker.c:1118-1573 | a request gets exactly one reply, or none exactly when its connection is gone, an error escapes between the routes and the reply, or the outcome is of no known kind; which of the four replies it is, is stated for each both ways |
| Backpressure.HandleRequest | extensions/omni_httpd/http_worker.c:1118-1573 | handling a request is the step of the run that queues its reply, and loses the request exactly when there is none |
| Backpressure.EventLoop.ResumePaused | extensions/omni_httpd/event_loop.c:432-440 | every paused listener reads again and none is paused |
| Backpressure.EventLoop.OnRequest | extensions/omni_httpd/event_loop.c:556-577 | a request is counted unless the worker is busy and the protocol is HTTP/2 or later |
| Backpressure.EventLoop.OnMessages | extensions/omni_httpd/event_loop.c:290-300 | each reply counts down by one, and the one that reaches zero resumes the listeners |
| Backpressure.StaysAccountedIff | extensions/omni_httpd/event_loop.c:290-300 | a step keeps the counter equal to the requests being handled, answered or lost if and only if the counter has room for it |
| Backpressure.RunAccounts | extensions/omni_httpd/event_loop.c:290-300 | in every run with fewer than 2^64 requests unanswered at a time, the counter is the number of requests being handled, answered or lost |
| Backpressure.CounterNeverUnderflows | extensions/omni_httpd/event_loop.c:290-300 | no reply takes the counter below zero, whatever the reloads |
| Backpressure.ReloadKeepsGateIff | extensions/omni_httpd/http_worker.c:482-546 | replacing the listeners leaves every listener either reading or paused if and only if no paused one is disposed of |
| Backpressure.GateStaysOk | extensions/omni_httpd/event_loop.c:426-459 | every other step keeps each listener either reading or paused, and paused only while the counter is positive and the loop polls |
| Backpressure.GateOkIff | extensions/omni_httpd/event_loop.c:426-459 | of every run: the listeners are consistent at every state if and only if no reload disposed of a paused one |
| Backpressure.ExclusionSuffices | extensions/omni_httpd/event_loop.c:432-440 | reloads outside the poll loop dispose of no paused listener |
| Backpressure.ReloadWhilePollingStrands | extensions/omni_httpd/http_worker.c:482-518 | a run in which a reload during polling leaves a listener paused that the worker no longer has |
| Backpressure.BackpressureIsSafe | extensions/omni_httpd/event_loop.c:426-459 | in every run in which no reload disposes of a paused listener, none is left paused outside the poll loop or at zero, and none is both reading and paused or neither |
| Backpressure.LostRequestKeepsPressure | extensions/omni_httpd/http_worker.c:1118-1126 | a request that ends without a reply is never counted down: for the rest of every run the counter stays positive and a paused listener stays paused while the loop polls |
| Backpressure.PressureEndsIff | extensions/omni_httpd/event_loop.c:290-300 | in every run, once nothing is handled and no reply queued, the counter is zero if and only if no request was lost |
| Backpressure.OneLostRequest | extensions/omni_httpd/http_worker.c:1118-1126 | a run of three steps that loses a request and leaves the counter at one for good |
| WorkerReload.StepProjects | extensions/omni_httpd/http_worker.c:402-615 | both machines are kept whole: every move is a step of one of them on its own, and only entering and leaving the poll loop is a step of both |
| WorkerReload.StaysSafeIff | extensions/omni_httpd/http_worker.c:402-615 | of the two threads together: a step keeps them in step and the listeners consistent if and only if the counter has room and no paused listener is disposed of |
| WorkerReload.ObservedIsUnpaused | extensions/omni_httpd/event_loop.c:426-448 | reload work after a wait that saw the event loop running finds no listener paused |
| WorkerReload.SafeIffHarmless | extensions/omni_httpd/http_worker.c:402-615 | of every run of the two threads: they are in step and the listeners consistent at every state if and only if every step was harmless |
| WorkerReload.WaitedReloadsAreSafe | extensions/omni_httpd/http_worker.c:402-615 | in every run in which the counter has room and listeners are replaced only after a wait that saw the event loop running, the handshake keeps the listeners consistent |
| WorkerReload.SkippedWaitStrands | extensions/omni_httpd/http_worker.c:603-615 | a run of both threads in which a reload that skipped the wait disposes of a paused listener |
| WorkerReload.ParkedIsNotEnough | extensions/omni_httpd/event_loop.c:430-440 | a run in which the event-loop thread will not poll again but still has paused listeners to resume when the reload disposes of one |
| Relay.PayloadInsideIff | extensions/omni_httpd/event_loop.c:486-502 | of a frame the reader takes for complete, the payload it hands on lies inside the buffer if and only if header plus length does not overflow 64 bits |
| Relay.WrappedToZeroIff | extensions/omni_httpd/event_loop.c:490-502 | the wrapped size is zero for exactly one value of the length |
| Relay.OverflowingHeader | extensions/omni_httpd/event_loop.c:486-502 | nine bytes that are taken for a complete frame although its payload is not there |
| Relay.ZeroSizeHeader | extensions/omni_httpd/event_loop.c:490-502 | nine bytes whose wrapped size is zero |
| Relay.FirstFrameSerialized | extensions/omni_httpd/event_loop.c:481-502 | the first frame written out again, followed by the rest, is the buffer |
| Relay.ParseConserves | extensions/omni_httpd/event_loop.c:473-508 | for every stream: the frames written out and the bytes kept are the stream, and those bytes do not start with a frame that can be read |
| Relay.ParseOfSerialized | extensions/omni_httpd/event_loop.c:473-508 | frames written out and followed by an incomplete one are read back as they were |
| Relay.ParseInTwo | extensions/omni_httpd/event_loop.c:473-508 | more bytes do not change what was read and are read after what was kept |
| Relay.CuttingDoesNotMatter | extensions/omni_httpd/event_loop.c:473-508 | however a stream is cut into reads, reading piece after piece ends with exactly the frames of the whole stream and its unread last bytes |
| Relay.Socket.OnRelayMessage | extensions/omni_httpd/event_loop.c:473-508 | for every input: the callback queues exactly the complete frames of the buffered input, byte for byte and as text exactly for kind zero, and keeps the rest; it faults if and only if it comes to a frame whose length overflows; an error closes without queueing |
| Listeners.Worker.FindMaster | extensions/omni_httpd/http_worker.c:489-505 | finds the first received descriptor with the master's number, or there is none |
| Listeners.Worker.KeepOrDispose | extensions/omni_httpd/http_worker.c:482-518 | every old listener is kept, using up and closing one received descriptor of its master, or disposed of because none is left |
| Listeners.Worker.Reconcile | extensions/omni_httpd/http_worker.c:482-546 | the listeners' masters are as a multiset those received, and every received descriptor is closed or owned by exactly one new listener |
| Listeners.KeptIffReceived | extensions/omni_httpd/http_worker.c:482-518 | over distinct masters, an old listener survives if and only if its master descriptor was received again |
| Listeners.SurvivesIffReceived | extensions/omni_httpd/http_worker.c:482-518 | over distinct master descriptors, an old listener keeps its socket exactly when its master descriptor was received again, and then the descriptor received for it is closed |
| Listeners.GroupsRise | extensions/omni_httpd/http_worker.c:555-568 | two ids that share a descriptor are equal |
| Listeners.AscendingGroups | extensions/omni_httpd/http_worker.c:555-568 | in ascending ids the n-th id belongs to the n-th descriptor |
| Listeners.Worker.AssignIds | extensions/omni_httpd/http_worker.c:553-583 | over distinct masters every id ends up on the listener of the descriptor it stands for; nothing but ids changes |
| Listeners.Worker.Reload | extensions/omni_httpd/http_worker.c:477-587 | an empty batch changes nothing; otherwise, relative to the old listeners, every received descriptor is closed or owned by one new listener, an old listener is still there with its own descriptor exactly when its master descriptor was received, the descriptor received for it is closed, and ids land on their listeners |
| DescriptorPassing.ChunksCutTheList | extensions/omni_httpd/fd.c:58-87 | n descriptors take ceil(n/253) messages, all but the last full and announcing more, with nothing lost, repeated or moved |
| DescriptorPassing.RoundTrip | extensions/omni_httpd/fd.c:34-156 | receiving what was sent yields the same list in order, each descriptor paired with its number in the sender |
| DescriptorPassing.BreakOff | extensions/omni_httpd/fd.c:129-142 | a transfer that breaks off after j messages has obtained exactly their descriptors |
| DescriptorPassing.TakenWholeIffNeverGrow | extensions/omni_httpd/fd.c:125-153 | messages of any sender are taken in whole if and only if none is larger than the one before, up to the padding of control parts, since the control length is set once |
| DescriptorPassing.GrowingMessageIsCut | extensions/omni_httpd/fd.c:125-153 | a message of one descriptor followed by one of three loses the last |
| DescriptorPassing.SendFds | extensions/omni_httpd/fd.c:34-90 | sends exactly the chunks of the list, or fails at the first message the socket refuses, having sent those before it |
| DescriptorPassing.CloseAndClear | extensions/omni_httpd/fd.c:98-101 | closes every descriptor once, in order |
| DescriptorPassing.ReceiveOne | extensions/omni_httpd/fd.c:144-150 | each right that finds room is paired with the number the payload gives for it, or with what an earlier message left in the buffer |
| DescriptorPassing.ReceiveFds | extensions/omni_httpd/fd.c:103-156 | for messages of any sender, all or nothing: the whole list, or an empty result with every descriptor obtained so far closed exactly once |
| DescriptorPassing.Transfer | extensions/omni_httpd/fd.c:34-156 | sending and receiving together give the list with its numbers and close nothing |
| DescriptorAccepting.AcceptFds | extensions/omni_httpd/http_worker.c:773-783 | the retry loop returns what trying again from the beginning after every wait returns, or nothing once a reload or the end of the worker is requested |
| DescriptorAccepting.AcceptedIffWaitsOutside | extensions/omni_httpd/http_worker.c:773-783 | whenever the messages of a list arrive, the worker accepts the list that was sent if and only if it does not give up before the first and no wait for data comes between two of them |
| DescriptorAccepting.WaitDropsTheHead | extensions/omni_httpd/http_worker.c:773-783 | after a wait behind the first message of a longer list, the worker takes the rest for the whole list |

## Left out

- Hash table: taking the hash of a key, comparing keys and allocating items are parameters; the find, insert and resize-trigger code around these functions is in Postgres and not part of this repository.
- Hash table: fairness and queueing of the partition locks; the protocol proves that someone can step, not that everyone eventually does.
- Hash table: more than 2^32 buckets, where the shift by hash width is undefined.
- DshashTable.Table.DeleteKeyFromBucket: does not adjust the partition's count, which its caller in Postgres does.
- Hook array: one hook type is modelled; the loop over all types repeats it. Hooks that change the array while it is being iterated are not modelled.
- Hook array: freeing and reallocating the entry array in shared or local memory contexts.
- Shared memory: initialisation callbacks and the tentative allocation that loses a race.
- Queries: correlated subqueries, recursive WITH, members that are not SELECT or UNION ALL, and column types; any other select list and condition is an uninterpreted operator over its inputs and their visible names.
- Queries: parse trees are values, so the walk's editing in place, and trees shared between nodes, are not captured.
- CascadingQuery.BuiltQueryCascades: the condition on the members is sufficient; a clash of names that happens to be harmless is outside it.
- Queries: a missing relation is an empty one; a missing or misplaced reference is not an error.
- Handshake: the plain flags shared by the threads are taken to be sequentially consistent, and a spurious wakeup is a step like any other.
- Backpressure.BackpressureIsSafe: assumes that no reload disposes of a paused listener, which `Backpressure.GateOkIff` shows to be needed; `WorkerReload` shows when the handshake ensures it.
- Event loop: everything inside h2o, OpenSSL and the Postgres executor; the life of request messages in memory.
- Relay: the length field is read as a 64-bit little-endian number; buffer growth and the WebSocket library are not modelled.
- Relay: what happens after the callback has faulted, which the language leaves undefined.
- Listeners.Worker.AssignIds: the two assertions of the loop, a descriptor for every id and a listener for every descriptor, are preconditions.
- Listeners: what creating a listener does beyond failing on descriptor -1, and the retry after an interrupted call.
- Descriptor passing: connecting to the master, and payloads longer than the buffer.
- Descriptor passing: message boundaries are kept by the socket; control parts are padded as on 64-bit Linux.
- Release checker: error texts, exit codes, and reading and splitting the file into lines.
- doctest: filters, exceptions, aborting after failures, reporters; the hash of a subcase path is taken to be injective, and sibling subcases to have distinct signatures.
- Everything else in the repository: catalog access, background workers, packaging, the HTTP client, URL patterns, and the smaller extensions.
