# A model of the component runtime and two WASI calls

The project models the parts of a WebAssembly runtime written in Go that carry the most state and
arithmetic, and proves what they keep and compute. The model is in Dafny and stands on its own.

What is modelled, by file:

- `ResourceTable.dfy`, `HandleRuns.dfy`, `BorrowRuns.dfy`: the resource table with its free list, generations
  and lend counters, the borrow scopes that lend from it, and runs of both.
- `CallSpec.dfy`, `Instance.dfy`, `ContextRuns.dfy`: a component instance, its call contexts and subtasks, and the
  call of an exported function as a bracket around arbitrary guest code with nested calls, with an interpretation
  of such calls on values.
- `Drops.dfy`: dropping handles, destructors and reentrance, and runs of drops.
- `Types.dfy`, `Flatten.dfy`, `TypeDefs.dfy`, `Layout.dfy`, `LayoutSizes.dfy`, `LiftStack.dfy`: value types, flattening,
  the two memory layouts, and lifting from the stack and from memory.
- `Memory.dfy`, `Lowering.dfy`, `LowerTyped.dfy`, `RoundTrip.dfy`: lowering values into guest memory through the
  guest's allocator, reading them back, type-driven lowering to core words, and lifting those words again.
- `TypeResolver.dfy`: the caching type resolver.
- `Semver.dfy`, `Linking.dfy`: versions and import matching.
- `Dirents.dfy`, `Readdir.dfy`: `fd_readdir`, its directory cache, and a guest that lists page by page.
- `Poll.dfy`, `PollGuest.dfy`: `poll_oneoff`, and a guest that writes subscriptions and reads events.
- `Words.dfy`, `Values.dfy`, `LittleEndian.dfy`, `Buffers.dfy`: machine words, values and byte buffers.

Objects that the source updates in place are classes here, with the source's own fields; memory is a field or an
array that is written in place. Every method is proved against a specification, and the lemmas prove what the
source promises about that specification over whole runs. Machine integers are unbounded integers with explicit
wrap-around. What the surroundings decide (the guest's code, its allocator, the file system, map iteration order)
is a parameter or an arbitrary choice, so the results hold for all of it. `rank` parameters are ghost: they say
that type definitions are acyclic, read in the scope each carries and, for counting slots, in the scope at hand.

Where the code does not do what its documentation or its neighbours suggest, the code is followed:

- A handle index is looked up only in generations 0 to 999 when it is lifted (`Instance.FindHandle`, and
  `OutOfReach` for a live handle that is not found), and only in generation 0 when it is dropped
  (`LowerBorrowThenDrop`).
- A borrow dropped inside a nested call is charged to the inner context (`NestedDropMiscounts`); `Instance.Call`
  says when the outer count is still right: if and only if the final counts of the nested calls add up to zero.
- A call that is not refused as recursive leaves may_leave true even if it was false before (`Instance.Call`).
- The balance of lends is lost exactly when a 32-bit counter wraps (`BorrowScope.AddLender`), and a handle is
  issued again exactly after 2^32 allocations of its slot (`IssuedTwiceIffRecycled`).
- Tuples, results, flags and aliases are counted and lifted from the stack as one slot (`OneSlotExactly` and
  `LiftUnsupported` say when that is right). An alias of string is two slots (`StringAliasMiscounted`).
- A parameter whose type cannot be converted is dropped from the core signature, yet the walk over the stack takes a
  slot for it and ends past the return pointer (`WalkIsSignature`, `UnconvertibleTakesRetptr`); an index that was
  not resolved is always one slot (`UnresolvedIndex`).
- Slots are counted in the scope at hand but lifted in the scope a definition carries, so that an option may take
  more slots when present than when absent (`OptionBothWays`, `TwoScopesDisagree`).
- Sizes computed from definitions are those of the value types on records, options, lists and small enums only
  (`RefLayoutsAgree`, `OtherSizes`, `TuplesDiffer`).
- A drop of a handle lent 2^32 times over is not refused (`LentIsRefused`).
- A full buffer does not always mean that more directory entries exist (`FullMeansMore`).
- Two keys that spell one version differently make import matching depend on map order (`SpellingsDisagree`);
  `SameForEveryOrder` says exactly when the order does not matter.
- A poll without clocks and without delayed subscriptions sleeps for the longest duration, although a comment
  says it sleeps only if there are clocks (`SleepsForClocks`, `WriteSleepsLongest`).
- Lowering a list whose byte count is a multiple of 2^32 loses its length (`LengthKept`, `HugeListLost`).

The main results, of which the rest are parts:

- Handles and lends: `HandleRuns.IssuedTwiceIffRecycled`, `HandleRuns.RemovedForever`, `BorrowRuns.PerformAll`.
- Calls: `Instances.Instance.Call` with `CallSpecs.CallAnswers`, `ContextRuns.Run`; drops: `DropRuns.DestroyedExactlyOnce`.
- Types: `Flattening.FlattenCountIsLength`, `Flattening.VariantSlotIsWidest`, `LiftStack.LiftCall`,
  `LiftStack.OneSlotExactly`, `Layout.LiftListFromMemory` with `Layout.DefLocal`,
  `LayoutSizes.RefLayoutsAgree`,
  `TypeResolution.TypeResolver.ResolveValType`.
- Values in guest memory and on the stack: `Lowering.ExportedFunc.WriteThenRead`, `TypedLowering.LowerTyped`,
  `StackRoundTrip.LowerThenLift`.
- Linking: `Linking.FindBest` with `Linking.CandidateIff`, `Linking.SameForEveryOrder`.
- WASI: `ReaddirRuns.ListDirectory`, `ReaddirRuns.FullMeansMore`, `Poll.PollOneoff` with
  `PollGuests.GuestPolls`, `Poll.SleepsForClocks`.

## Model

| member | source | states |
|---|---|---|
| ResourceTables.HandleBitsBijective | internal/component/resource_table.go:41-49 | Packing index and generation into 64 bits and taking them apart again are inverse both ways, and a bare 32-bit index is the handle of generation 0. |
| ResourceTables.ResourceTable.constructor | internal/component/resource_table.go:82-88 | A new table is a valid empty map with an empty free list. |
| ResourceTables.ResourceTable.NewWithType | internal/component/resource_table.go:96-123 | The table as a map gains exactly one key, which was not live and is the one its history predicts: the slot freed last with its next generation, or a new slot; the free list stays exact; the handle was issued before if and only if its slot has been allocated 2^32 times already; lend balance is kept. |
| ResourceTables.ResourceTable.New | internal/component/resource_table.go:91-93 | The same for an untyped entry. |
| ResourceTables.ResourceTable.NewWithLimit | internal/component/resource_table.go:141-146 | On a table grown only this way the full error is returned exactly when 2^28-1 handles are live, and nothing changes then; otherwise exactly one key is added. |
| ResourceTables.ResourceTable.Get | internal/component/resource_table.go:149-164 | Succeeds exactly on the keys of the map, with the entry stored there. |
| ResourceTables.ResourceTable.Remove | internal/component/resource_table.go:178-205 | Fails exactly on a dead or lent handle and then changes nothing; otherwise removes that key only. A handle some open scope lends cannot leave the table. |
| ResourceTables.ResourceTable.IncrementLends | internal/component/resource_table.go:237-253 | Counts one lend on a live handle and changes nothing else; refuses dead handles. |
| ResourceTables.ResourceTable.DecrementLends | internal/component/resource_table.go:257-276 | Takes one lend off a live, lent handle and changes nothing else; refuses dead handles and handles with no lends. |
| ResourceTables.PopFreeSlot | internal/component/resource_table.go:100-113 | Taking the head off the free list leaves a free list that still visits every other free slot once and ends at -1. |
| ResourceTables.PushFreeSlot | internal/component/resource_table.go:193-204 | Freeing a slot puts it at the head of a list that visits every free slot exactly once. |
| ResourceTables.GenerationAfterReuse | internal/component/resource_table.go:100-113 | Reusing a slot issues the next generation of its slot: the issued handles of a slot are exactly the generations counted so far. |
| ResourceTables.NextHandleIs | internal/component/resource_table.go:96-123 | Which handle comes next is a function of the history alone: slots, the free list as a stack, and uses of each slot. |
| ResourceTables.LiveCount | internal/component/resource_table.go:67-79 | The number of live handles is the number of slots less the length of the free list. |
| ResourceTables.MatchAfterLend | internal/component/borrow_scope.go:23-29 | Recording one more lend keeps every counter equal to its occurrences in the lender lists if and only if the 32-bit counter does not wrap. |
| ResourceTables.MatchAfterRelease | internal/component/borrow_scope.go:33-41 | Giving back all lends of one scope keeps the counters equal to the occurrences in the remaining lists. |
| ResourceTables.MatchAfterRemove | internal/component/resource_table.go:178-205 | Removing a handle nobody lends keeps the counters equal to the occurrences. |
| ResourceTables.LendersAreLive | internal/component/borrow_scope.go:33-41 | Every occurrence in a lender list is covered by the counter of a live handle. |
| ResourceTables.BorrowScope.constructor | internal/component/borrow_scope.go:14-19 | A new scope lends nothing and joins the scopes of its table, which stays balanced. |
| ResourceTables.BorrowScope.AddLender | internal/component/borrow_scope.go:23-29 | Lends a live handle and records it, or refuses a dead one and changes nothing; the balance survives if and only if the counter does not wrap. |
| ResourceTables.BorrowScope.DecrementAll | internal/component/borrow_scope.go:33-41 | The release loop never meets its error branch and gives back each recorded lend once. |
| ResourceTables.BorrowScope.Release | internal/component/borrow_scope.go:33-41 | Never fails, empties the scope, gives back exactly its lends, and keeps the table balanced. |
| HandleRuns.Perform | internal/component/resource_table.go:91-276 | Each table operation is a step of the transition system over live handles, slot uses and issued handles. |
| HandleRuns.PerformAll | internal/component/resource_table.go:91-276 | Every sequence of operations on a real table, however long, is a run of that system; only a New on a full table of 2^31 slots ends it early. |
| HandleRuns.StaysRetired | internal/component/resource_table.go:96-276 | In a run that recycles no slot 2^32 times, a handle that was issued and is no longer live stays so and is never issued again. |
| HandleRuns.NoSecondIssue | internal/component/resource_table.go:96-123 | In such a run no handle is issued twice. |
| HandleRuns.IssuedTwiceIffRecycled | internal/component/resource_table.go:96-123 | From an empty table a handle is issued twice in a run if and only if some slot was allocated more than 2^32 times. |
| HandleRuns.RemovedForever | internal/component/resource_table.go:149-276 | Once removed, a handle is refused by Get, Remove, IncrementLends and DecrementLends for the rest of the run and they change nothing. |
| BorrowRuns.Perform | internal/component/borrow_scope.go:14-41 | New, Remove, opening a scope, lending and releasing keep the lends of every live handle equal to its occurrences in all lender lists, for every operation but a New on a full table and the 2^32nd lend of one handle. |
| BorrowRuns.PerformAll | internal/component/borrow_scope.go:14-41 | Every interleaving of those operations by any number of scopes and of any length: the counters match in every state, no release fails, and no lent handle is removed; only those two operations end the run early. |
| Instances.Subtask.DeliverResolve | internal/component/subtask.go:48-55 | Only a pending subtask resolves, once; otherwise nothing changes. |
| Instances.Subtask.StartFinish | internal/component/subtask.go:59-65 | Only a resolved subtask starts finishing. |
| Instances.Subtask.Finish | internal/component/subtask.go:69-86 | Succeeds exactly on a resolved or finishing subtask and then gives back every lend and is done; the table stays balanced. |
| Instances.Instance.ResourceNew | internal/component/instance.go:2389-2395 | Adds one owning entry under the next handle and nothing else. |
| Instances.Instance.LowerOwn | internal/component/instance.go:1831-1837 | The same for an own parameter. |
| Instances.Instance.LowerBorrow | internal/component/instance.go:1838-1847 | Adds one borrowed entry under the next handle and counts it on the context. |
| Instances.Instance.ResourceDrop | internal/component/instance.go:2414-2439 | Drops the generation-0 handle of the index if it is live and not lent, records its destructor if it owns and has one, counts a borrow off the context if it does not; otherwise changes nothing. |
| Instances.Instance.FindHandle | internal/component/instance.go:2317-2334 | Finds the live handle of an index if and only if its generation is below 1000. |
| Instances.Instance.LiftOwn | internal/component/instance.go:2312-2348 | A live handle of the index below generation 1000 is taken out and its representation returned if it owns and is not lent; otherwise the error says which, and nothing changes. Without such a handle the index is refused. |
| Instances.Instance.LiftBorrow | internal/component/instance.go:2353-2385 | Lends the live handle of the index below generation 1000 to the scope and returns its representation; without one the index is refused and nothing changes. |
| Instances.Instance.RunGuest | internal/component/instance.go:329-356 | Any guest code run inside a call, nested calls included, leaves the store, the destroyed representations, the count and the ended calls as the interpretation of its steps says; depth, context and lends are restored. |
| Instances.Instance.LowerParams | internal/component/instance.go:205-281 | Lowers the parameters in order up to the first that fails, as the interpretation says. |
| Instances.Instance.Conclude | internal/component/instance.go:358-675 | Lifts the result the plan names, checks the outstanding borrows and resolves: the answer is the first error in that order or the value. |
| Instances.Instance.Invoke | internal/component/instance.go:205-356 | From lowering to post-return: the stage that fails first decides, may_leave is true again on every path, and lends are as before. |
| Instances.Instance.Enter | internal/component/instance.go:159-176 | Refuses exactly a recursive call and then changes nothing; otherwise depth and context are restored on return. |
| Instances.Instance.Cleanup | internal/component/instance.go:148-157 | The deferred cleanup finishes the subtask on every path and gives back all lends. |
| Instances.Instance.Bracket | internal/component/instance.go:133-675 | The whole call is a bracket: depth, context and lends as on entry. |
| Instances.Instance.Call | internal/component/instance.go:133-675 | The answer and the whole state after a call are those of the plan, for any guest code with nested calls, at every exit: depth and context as on entry, the subtask done with no lenders, every lend given back. The borrowed entries change by the final count of this call plus those of all calls nested in it, so they change by its own count if and only if the nested counts add up to zero. may_leave is unchanged if and only if it was true or the call was refused as recursive. |
| CallSpecs.TotalOfCall | internal/component/call_context.go:45-53 | Calls that returned a result have no positive count, so a sum over them is not positive. |
| CallSpecs.CallAnswers | internal/component/instance.go:133-675 | When a call answers what, in the order of the checks: refused as recursive, a parameter that cannot be lowered, a core trap, a failing post-return, a result that cannot be lifted, outstanding borrows, and otherwise the value of the plan. |
| CallSpecs.CallFair | internal/component/instance.go:133-675 | Whatever the guest does, a call gives back every lend, accounts for every borrowed entry, and returns a result only with no positive count. |
| CallSpecs.NoNestedEndsNothing | internal/component/instance.go:329-356 | A guest that makes no nested call ends no call. |
| Instances.LowerBorrowThenDrop | internal/component/instance.go:2414-2439 | A borrow just lowered can be dropped by its index if and only if its slot is new or its generation has wrapped to 0. |
| Instances.NestedDropMiscounts | internal/component/instance.go:2414-2439 | A call whose nested call drops its borrow: no borrowed entry is left, and yet the outer count is one and the call returns no result. |
| Instances.OutOfReach | internal/component/instance.go:2317-2348 | After any number of uses of a slot its next handle is live and owned, and a lift fails to find it if and only if its generation is 1000 or more. |
| Instances.OtherGenerationIsDead | internal/component/resource_table.go:149-164 | At most one generation of a slot is live. |
| ContextRuns.Step | internal/component/instance.go:2312-2439 | No single operation changes the difference between the borrowed entries and the context count. |
| ContextRuns.Run | internal/component/call_context.go:25-53 | After any run of any length under one context that starts with no borrowed entries, the count is the number of live borrowed entries, so it is not negative, and the return check passes exactly when none is left. |
| Drops.EnterThenLeave | internal/component/reentrance.go:25-37 | Leaving an instance undoes entering it, whatever else is on the stack. |
| Drops.RecursiveIfActive | internal/component/reentrance.go:40-46 | A call is recursive exactly if its instance is on the stack of active calls; entering puts it there. |
| Drops.ReentranceTracker.LeaveInstance | internal/component/reentrance.go:30-37 | Counts one less and forgets the instance at zero; leaving an instance that is not active changes nothing. |
| Drops.ValidateType | internal/component/resource_table.go:391-400 | Accepts exactly live handles of the expected type. |
| Drops.DropOwned | internal/component/resource_table.go:570-622 | Refuses a wrong type, a dead or a lent handle without changing table or log; otherwise removes the handle and logs one destructor call exactly for an owned integer representation, as its low 32 bits, on a route that has one; without a registry a local drop panics with the handle gone. |
| Drops.DropOwnedWithReentranceCheck | internal/component/resource_table.go:633-659 | The same, and also refuses a destructor whose instance is active, changing nothing; registry and tracker may each be absent. |
| Drops.DropWithContext | internal/component/resource_table.go:510-550 | The drop built-in: a borrowed handle is counted off the context, if there is one, and destroys nothing; an owned one is destroyed once. |
| DropRuns.Perform | internal/component/resource_table.go:510-659 | Every table operation, lends included, and every drop, through a context too, is a step of the transition system over live handles, registry, active calls, borrow count and log. |
| DropRuns.PerformAll | internal/component/resource_table.go:510-659 | Every sequence of operations on real objects, however long, is a run and the real log is its log; registry, tracker and context may be absent, and only a full table ends the run early. |
| DropRuns.StepLog | internal/component/resource_table.go:510-659 | A step adds to the log the one call of the handle it destroys and nothing otherwise; a refused drop changes nothing at all. |
| DropRuns.LentIsRefused | internal/component/resource_table.go:178-253 | A drop right after a lend is refused for the lend if and only if the 32-bit count of lends did not wrap to zero. |
| DropRuns.DestroyedExactlyOnce | internal/component/resource_table.go:510-659 | Over any run the log holds exactly one entry per destroying drop, in the order of the drops, and entry k is the local or the cross-instance call of the drop that made it, with the number the handle was created with, modulo 2^32. |
| DropRuns.RunOnTable | internal/component/resource_table.go:510-659 | Seen from the table, a run of drops is a run of the table, so what holds of those holds here. |
| DropRuns.NeverDroppedTwice | internal/component/resource_table.go:510-659 | Two drops that succeed in a run drop different handles, as long as no slot is allocated more than 2^32 times. |
| LittleEndian.LeBytesOfValue | internal/wasm/memory.go:339-380 | Reading little-endian bytes and writing the value again gives the bytes. |
| LittleEndian.LeBytesAt | internal/wasm/memory.go:339-380 | Byte i is digit i of the value in base 256: the least significant byte comes first. |
| LittleEndian.PutLe | internal/wasm/memory.go:177-204 | A little-endian write changes exactly its own bytes. |
| LittleEndian.PutThenGet | internal/wasm/memory.go:359-380 | A little-endian write is read back. |
| Flattening.FlattenValType | internal/component/component_linker.go:3608-3646 | The recursive flattening computes the specification for every type. |
| Flattening.FlattenRecordType | internal/component/component_linker.go:3649-3655 | A record is the concatenation of its fields. |
| Flattening.FlattenTupleType | internal/component/component_linker.go:3658-3664 | A tuple is the concatenation of its elements. |
| Flattening.FlattenVariantType | internal/component/component_linker.go:3739-3767 | The widening loop computes the pointwise widest type over the cases. |
| Flattening.FlattenResultType | internal/component/component_linker.go:3682-3719 | The two-sided loop computes the pointwise widest type over ok and error. |
| Flattening.VariantSlotIsWidest | internal/component/component_linker.go:3739-3791 | Each payload slot is at least as wide as in every case and as wide as in some case. |
| Flattening.VariantOrderIrrelevant | internal/component/component_linker.go:3739-3767 | Reordering the cases of a variant does not change its flattening. |
| Flattening.OptionIsVariant | internal/component/component_linker.go:3668-3678 | An option flattens like the variant it is sugar for. |
| Flattening.ResultIsVariant | internal/component/component_linker.go:3682-3719 | A result flattens like the variant it is sugar for. |
| Flattening.FlattenTyped | internal/component/component_linker.go:3608-3767 | No slot of a flattening is left without a type. |
| Flattening.FlattenCountIsLength | internal/component/types/composite.go:52-371 | The declared flat count of every type is the length of its flattening. |
| Flattening.CoreTypesAre | internal/component/component_linker.go:3608-3646 | The core types of every primitive, list, enum, flags type and handle, and the order of their widths. |
| Flattening.FieldSlots | internal/component/component_linker.go:3649-3655 | Field k of a record has its own core types behind the slots of the fields before it. |
| Flattening.TypeSlots | internal/component/component_linker.go:3658-3664 | The same of the elements of a tuple. |
| Flattening.CoreSignature | internal/component/component_linker.go:3571-3604 | The parameters are the flattened parameters plus a return pointer exactly when the results need more than one slot. |
| Layout.AlignUp32IsAndNot | internal/component/types/composite.go:73-75 | Aligning with a sum and an and-not, bit by bit, is what the model computes with remainders. |
| Layout.AlignUpWraps | internal/component/types/composite.go:73-75 | Aligning in 32-bit arithmetic is aligning the true offset and wrapping. |
| Layout.SizeOfDefAligned | internal/component/component_linker.go:2820-2955 | Every size is a multiple of its alignment. |
| Layout.AlignOfDef | internal/component/component_linker.go:2892-2939 | Every alignment is 1, 2, 4 or 8. |
| Layout.FieldPlaced | internal/component/component_linker.go:2909-2926 | Each field lies aligned, after the fields before it and within the record. |
| Layout.ElemAlignFromTypeRef | internal/component/component_linker.go:2870-2889 | Computes the alignment of a reference. |
| Layout.ElemAlignFromTypeDef | internal/component/component_linker.go:2892-2906 | Computes the alignment of a definition. |
| Layout.RecordAlign | internal/component/component_linker.go:2929-2939 | Computes the largest alignment of the fields. |
| Layout.ElemSizeFromTypeRef | internal/component/component_linker.go:2844-2867 | Computes the size of a reference, modulo 2^32. |
| Layout.ElemSizeFromTypeDef | internal/component/component_linker.go:2820-2841 | Computes the size of a definition, modulo 2^32. |
| Layout.RecordSize | internal/component/component_linker.go:2909-2926 | Computes the end of the last field padded to the alignment of the record, modulo 2^32. |
| Layout.OptionSize | internal/component/component_linker.go:2942-2955 | Computes discriminant, padding and payload padded to the alignment, modulo 2^32. |
| Layout.LiftValFromMemory | internal/component/component_linker.go:2718-2786 | For an aligned offset whose size does not pass the end of the address space, the value is the one that lies at the exact offsets. |
| Layout.LiftRecordFromMemory | internal/component/component_linker.go:2789-2804 | The absolute-offset walk in 32 bits reads every field at the offset recordSize gives it. |
| Layout.LiftOptionFromMemory | internal/component/component_linker.go:2807-2817 | The payload is read behind the discriminant where optionSize puts it. |
| Layout.LiftListFromMemory | internal/component/component_linker.go:2701-2715 | For an aligned list element i is the value at i times the size behind the start. |
| Layout.DefLocal | internal/component/component_linker.go:2701-2817 | A value is the same in two memories, and at two addresses, that agree on the block of its size, contents of nested lists aside: elements never read each other. |
| LayoutSizes.OpcodesCountDown | internal/component/component_linker.go:833-862 | The opcodes 0x7f down to 0x73 are the primitives in the order of the binary format, and no others are known. |
| LayoutSizes.PrimLayout | internal/component/component_linker.go:2844-2889 | A scalar is as wide as it is aligned and as its value type is; a string is two words. |
| LayoutSizes.PrimRead | internal/component/component_linker.go:2718-2748 | The kinds up to 32 bits read the number in their own bytes, zero past the end of the memory; other primitives lift to zero. |
| LayoutSizes.NestedBytes | internal/component/component_linker.go:2770-2782 | A nested list of bytes is the bytes at its pointer if all are in memory; other nested lists lift to nothing. |
| LayoutSizes.RefLayoutsAgree | internal/component/component_linker.go:2820-2955 | For types of primitives, records, options, lists and small enums, nested to any depth, size and alignment by definition are those of the value type, modulo 2^32. |
| LayoutSizes.OtherSizes | internal/component/component_linker.go:2820-2906 | Outside those types: flags in whole words, a large enum and everything else in one word. |
| LayoutSizes.TuplesDiffer | internal/component/component_linker.go:2820-2841 | A pair of 64-bit numbers is four bytes by its definition and sixteen by its type. |
| LayoutSizes.DiscriminantFits | internal/component/types/composite.go:91-101 | A discriminant is wide enough for every case, and the next narrower one is not. |
| LayoutSizes.FlagsFit | internal/component/types/composite.go:302-329 | Flags take a bit each in one byte, two bytes or whole words, and no fewer would do. |
| LayoutSizes.SugarSizes | internal/component/types/composite.go:216-266 | Options and results are laid out as the variants they are sugar for. |
| LayoutSizes.TupleIsRecord | internal/component/types/composite.go:347-371 | A tuple is laid out as the record with its types. |
| LiftStack.FlatSlotCount | internal/component/component_linker.go:3012-3062 | Counts the slots of a reference within the scope at hand: records add up, options add one, variants take the widest case, and every kind it does not know is one. |
| LiftStack.SupportedRefAgrees | internal/component/component_linker.go:2539-3062 | On the supported types, whose payloads are counted as they are lifted, the slots of a lift are the length of the flattening of the converted type. |
| LiftStack.OneScopeAgrees | internal/component/component_linker.go:2539-3062 | Within one scope count and lift agree on every type. |
| LiftStack.MaxPayloadSlots | internal/component/component_linker.go:2983-2994 | The loop computes the largest count over the payloads. |
| LiftStack.CaseCountFits | internal/component/component_linker.go:2983-2994 | No case counts more slots than the widest. |
| LiftStack.LiftFromStack | internal/component/component_linker.go:2539-2670 | For every type whose payloads are counted as they are lifted, the lift takes the same slots whatever the values on the stack, a stack of that many suffices, and the value is the one read at static offsets. |
| LiftStack.LiftRecordFromStack | internal/component/component_linker.go:2673-2683 | A record takes the slots of its fields, and field k is read behind those before it. |
| LiftStack.LiftOptionFromStack | internal/component/component_linker.go:2686-2698 | An absent option takes one slot more than its payload is counted, a present one one more than its payload is lifted. |
| LiftStack.OptionBothWays | internal/component/component_linker.go:2686-3062 | The slots of an option do not depend on its value if and only if its payload is counted as it is lifted. |
| LiftStack.TwoScopesDisagree | internal/component/component_linker.go:2686-3062 | An option of a record that carries another scope: two slots when absent, three when present. |
| LiftStack.LiftVariantFromStack | internal/component/component_linker.go:2983-3009 | A variant takes one slot more than its widest case whichever case it is, and the payload is lifted as the case says. |
| LiftStack.FlagIsBit | internal/component/component_linker.go:2592-2605 | Flag i is set if and only if bit i of the word is; of flags with the same name the last one counts. |
| LiftStack.LiftListFromStack | internal/component/component_linker.go:2636-2664 | A list of bytes is the bytes the pointer and the length lead to, if all are in memory; element i of any other list is the value at its place in the block. |
| LiftStack.ResolveToValType | internal/component/component_linker.go:722-741 | The type a parameter has in the signature: its definition converted, a primitive or handle as it stands, else what the resolver gives; none where neither can. |
| LiftStack.SignatureTypes | internal/component/component_linker.go:2116-2123 | The signature lists those types in order and leaves out every parameter without one. |
| LiftStack.LiftParams | internal/component/component_linker.go:2493-2506 | The walk over the parameters takes the sum of their slots, whatever the values. |
| LiftStack.WalkIsSignature | internal/component/component_linker.go:2116-2506 | For parameters of supported types the walk takes the slots of the signature and one more for each parameter dropped from it. |
| LiftStack.LiftCall | internal/component/component_linker.go:2482-2506 | On the stack of the signature the walk ends where the return pointer follows if and only if it takes as many slots as the signature has; for parameters of supported types, if and only if none was dropped. |
| LiftStack.UnresolvedIndex | internal/component/component_linker.go:735-740 | An index without a definition is lifted as one slot, which is right if and only if the resolver gives it a type of one slot. |
| LiftStack.UnconvertibleTakesRetptr | internal/component/component_linker.go:2116-2506 | A parameter with none of the shapes is dropped from the signature, and the walk takes the slot of the return pointer for it. |
| LiftStack.OneSlotExactly | internal/component/component_linker.go:3012-3062 | A tuple, result, flags type or alias flattens to one slot if and only if: its elements take one slot together, its payloads take none, it has 1 to 32 names, it is no alias of a string. |
| LiftStack.LiftUnsupported | internal/component/component_linker.go:2539-2670 | Such a value is lifted as one slot, which is right under exactly those conditions. |
| LiftStack.StringAliasMiscounted | internal/component/component_linker.go:2539-3062 | A reference to an alias of string flattens to two slots and is counted and lifted as one. |
| GuestMemory.ScalarRoundTrip | internal/component/instance.go:1242-1325 | Every scalar is read back from the word it is stored as. |
| GuestMemory.ScalarBitsAre | internal/component/instance.go:2009-2238 | A scalar is stored exactly if it is of the kind, in 1, 2, 4 or 8 bytes, as its number in two's complement. |
| GuestMemory.StoredIsBytewise | internal/component/instance.go:2009-2277 | Where a value lies its bytes are those of the Canonical ABI: scalars least significant byte first, a string or list as pointer and length words with its bytes or elements side by side. |
| GuestMemory.OutOfBoundsReads | internal/component/instance.go:1242-1402 | What lies out of bounds reads as zero, the empty string or the empty list. |
| GuestMemory.LiftFieldFromMemory | internal/component/instance.go:1242-1402 | The reader computes the specified value, with zero, empty string or empty list for what lies out of bounds, and consumes the size of the type. |
| GuestMemory.StoredSame | internal/component/instance.go:2009-2277 | A stored value depends only on the bytes of its region. |
| GuestMemory.StoredIsLifted | internal/component/instance.go:1242-1402 | Whatever value lies at an offset, nested to any depth, is what the reader returns there. |
| Lowering.FilledStep | internal/component/instance.go:2257-2262 | Writing the next element of a list, blocks of its own included, disturbs no earlier element and no older block. |
| Lowering.ListPlaced | internal/component/instance.go:2239-2271 | A filled fresh block with its pointer and length at the target is the list. |
| Lowering.ExportedFunc.Allocate | internal/component/instance.go:1988-1997 | A block is new: it overlaps no block returned before and their bytes are kept; a failure changes nothing. |
| Lowering.ExportedFunc.WriteLe | internal/wasm/memory.go:169-204 | A write in bounds changes its own bytes, one out of bounds fails and changes nothing. |
| Lowering.ExportedFunc.LowerString | internal/component/instance.go:1964-1985 | The bytes of the string lie in a block of their own, older blocks are kept, and the empty string allocates nothing. |
| Lowering.ExportedFunc.LowerElements | internal/component/instance.go:2257-2262 | The element loop fills its block and new blocks only, and fails only for a stated reason. |
| Lowering.ExportedFunc.LowerListToMemory | internal/component/instance.go:2239-2271 | The list lies at the target; nested blocks never clobber outer ones. |
| Lowering.ExportedFunc.LowerToMemory | internal/component/instance.go:2009-2277 | For scalars, strings and nested lists: on success the value lies at the target byte for byte, apart from the target the old blocks are unchanged, and it fails only without memory, on a refused allocation or on a value of another type. |
| Lowering.ExportedFunc.WriteThenRead | internal/component/instance.go:2009-2277 | Lowering a value writes its bytes at the target, least significant first and with pointers to the parts, and reading them back at the same offset gives the same value, for every type built from scalars, strings and lists. |
| TypedLowering.RepresentsCount | internal/component/instance.go:1601-1852 | Every flat form of a value of a type has as many words as the type has core types, whichever case was taken. |
| TypedLowering.LowerPrim | internal/component/instance.go:1603-1631 | A scalar becomes its one word, a string its pointer and length. |
| TypedLowering.LowerList | internal/component/instance.go:1800-1830 | A list becomes pointer and length with its elements in a fresh block; a list of no bytes becomes two zeros. |
| TypedLowering.LengthKept | internal/component/instance.go:1800-1830 | A lowered list carries its length if and only if it is empty, or has fewer than 2^32 elements and a byte count that is not zero in 32 bits. |
| TypedLowering.HugeListLost | internal/component/instance.go:1800-1830 | A list of 2^29 values of eight bytes is passed as an empty list, and nothing is written. |
| TypedLowering.LowerRecord | internal/component/instance.go:1632-1646 | The words of the fields in declaration order, or an error on a missing field. |
| TypedLowering.LowerTuple | internal/component/instance.go:1647-1660 | The words of the elements in order, or an error when there are too few. |
| TypedLowering.LowerEnum | internal/component/instance.go:1661-1674 | The position of the first case of that name, a string being taken as a name; an error exactly when there is none. |
| TypedLowering.LowerFlags | internal/component/instance.go:1675-1687 | Bit i of the words is set exactly when flag i is. |
| TypedLowering.LowerOption | internal/component/instance.go:1688-1723 | None is all zeros of the full width, also for an absent value; any other value is some of itself. |
| TypedLowering.LowerResult | internal/component/instance.go:1724-1756 | Discriminant 0 or 1, the payload if there is one, and zeros up to the wider of the two sides. |
| TypedLowering.LowerVariant | internal/component/instance.go:1757-1799 | The case index, the payload and zeros up to the widest case; a record with a string case field is taken as a variant. |
| TypedLowering.WidestPayload | internal/component/instance.go:2280-2290 | The loop computes the largest payload count, and every case fits in it. |
| TypedLowering.LowerHandle | internal/component/instance.go:1831-1847 | A handle becomes one 32-bit word, and fails without a resource table. |
| TypedLowering.LowerTyped | internal/component/instance.go:1601-1852 | On success the words represent the value and are as many as the flattening lists, and without lists the texts of its strings lie in new blocks with the old ones unchanged; it fails only for a value the type does not accept, without memory, or on a refused allocation. |
| TypedLowering.FlatBitsAre | internal/component/instance.go:1603-1631 | The word of a scalar is its number, sign-extended for a char and in two's complement of its own width otherwise. |
| TypedLowering.ResultAsVariant | internal/component/instance.go:1724-1756 | A result has the words of the variant it is sugar for. |
| TypedLowering.OptionAsVariant | internal/component/instance.go:1688-1723 | An option has the words of the variant it is sugar for. |
| TypedLowering.CaseCoercions | internal/component/instance.go:1661-1799 | A string stands for the enum of that name, a record with a case and a payload for the variant. |
| TypedLowering.OptionCoercions | internal/component/instance.go:1688-1723 | An absent value stands for none, a value that is not an option for some of itself. |
| StackRoundTrip.ScalarComesBack | internal/component/component_linker.go:2539-2600 | A lowered integer, bool or char lifted from the stack is the same value, whatever follows it. |
| StackRoundTrip.AnyWordLifts | internal/component/component_linker.go:2539-2566 | Any word lifts to the scalar of its kind that is congruent to it in the width of the kind; a bool is true for any word but zero. |
| StackRoundTrip.StringOutside | internal/component/component_linker.go:2566-2576 | A string outside the memory, or without one, lifts to the empty string and takes two slots. |
| StackRoundTrip.StringComesBack | internal/component/component_linker.go:2539-2600 | A lowered string lifted from the stack is the same string. |
| StackRoundTrip.RefComesBack | internal/component/component_linker.go:2539-3009 | The words of a record, option, variant, enum or flags over integers, bools, chars and strings, at any depth, decode to the value they represent. |
| StackRoundTrip.LowerThenLift | internal/component/component_linker.go:2539-3009 | Lowering such a value by its type and lifting it from the stack gives the same value and takes all its words. |
| Dirents.DirentCache.constructor | internal/sys/fs.go:71-91 | A new cache is at the start and holds nothing. |
| Dirents.DirentCache.Read | internal/sys/fs.go:166-238 | Returns exactly the entries from the position on, at most n; fails exactly past what was read or before the window; afterwards the window starts at the position and covers what was returned. Asking for two entries at position 0 returns none. |
| DirentPages.WholeCountUnique | imports/wasi_snapshot_preview1/fs.go:952-996 | The number of whole entries is the only one whose entries fit while the next does not. |
| DirentPages.WindowEnough | imports/wasi_snapshot_preview1/fs.go:890-910 | Reading bufLen/24+2 entries is as good as reading the whole rest of the directory. |
| DirentPages.HeaderFields | imports/wasi_snapshot_preview1/fs.go:1030-1036 | The four fields of a header are read back from its bytes. |
| DirentPages.SeenFields | imports/wasi_snapshot_preview1/fs.go:432-450 | An entry is seen with its inode and name, the number of the entry after it, and its type: 4 for a regular file, 3 for a directory, 7 for a symbolic link, 1 and 2 for devices, 0 otherwise. |
| DirentPages.DecodeEncoded | imports/wasi_snapshot_preview1/fs.go:1001-1036 | Encoded entries followed by anything incomplete decode to exactly those entries. |
| DirentPages.TruncatedIncomplete | imports/wasi_snapshot_preview1/fs.go:975-990 | A bare header whose name did not fit is incomplete whatever stale bytes follow. |
| Readdir.MaxDirents | imports/wasi_snapshot_preview1/fs.go:952-996 | The loop computes the plan: every entry that fits whole, then up to a header of the next; it panics only on a name too long to encode. |
| Readdir.TooLargeIs | imports/wasi_snapshot_preview1/fs.go:946-968 | Names from 48 bytes below 2^32 on are too long. |
| Readdir.PlanFits | imports/wasi_snapshot_preview1/fs.go:952-1027 | The plan never exceeds the buffer, and the page ends where the plan does, less a tail shorter than a header. |
| Readdir.WriteDirents | imports/wasi_snapshot_preview1/fs.go:1001-1027 | The page goes to its place byte for byte, and nothing else of the memory changes. |
| Readdir.WritePage | imports/wasi_snapshot_preview1/fs.go:912-944 | Writes page and count, or fails exactly on memory bounds. |
| Readdir.FdReaddir | imports/wasi_snapshot_preview1/fs.go:867-944 | Each error exactly under its condition; on success the page of the whole rest of the directory is in the buffer, and the window can be resumed after every entry of it. |
| ReaddirRuns.PageDecodes | imports/wasi_snapshot_preview1/fs.go:867-1036 | The guest decodes exactly the whole entries of the page and no stale byte of its buffer. |
| ReaddirRuns.EndSignal | imports/wasi_snapshot_preview1/fs.go:897-944 | Less than the buffer is used if and only if the rest of the directory is smaller than the buffer; then every entry was written whole and fewer were left than asked for. |
| ReaddirRuns.FullMeansMore | imports/wasi_snapshot_preview1/fs.go:856-944 | The documented signal, a full buffer exactly when more entries exist, holds if and only if the rest does not fit the buffer exactly. |
| ReaddirRuns.FullWithoutMore | imports/wasi_snapshot_preview1/fs.go:856-944 | The dot entries and a buffer of 51 bytes: reported full although nothing is left. |
| ReaddirRuns.ReadPage | imports/wasi_snapshot_preview1/fs.go:867-1036 | One page extends what was seen by its entries, moves the cookie behind them, and makes progress unless the directory has ended. |
| ReaddirRuns.ListDirectory | imports/wasi_snapshot_preview1/fs.go:867-1036 | With any sequence of buffer sizes that hold the longest entry, every entry is seen exactly once and in order, in at most one call more than there are entries. |
| PollEvents.AckedPositions | imports/wasi_snapshot_preview1/poll.go:95-158 | The subscriptions acknowledged in the pass are those judged so, each once and in order. |
| PollEvents.DelayedPositions | imports/wasi_snapshot_preview1/poll.go:95-158 | The same for those delayed. |
| PollEvents.AckedOrDelayed | imports/wasi_snapshot_preview1/poll.go:81-158 | Acknowledged and delayed subscriptions add up to the subscriptions processed. |
| PollEvents.LeastTimeoutIs | imports/wasi_snapshot_preview1/poll.go:108-117 | The timeout is the least of the clock timeouts, or the longest duration without clocks. |
| PollEvents.EventsPacked | imports/wasi_snapshot_preview1/poll.go:241-247 | Event k lies at 32 times k: no gaps. |
| Poll.WriteEvent | imports/wasi_snapshot_preview1/poll.go:241-247 | Writes 14 bytes of an event if they lie in the output area. |
| Poll.Process | imports/wasi_snapshot_preview1/poll.go:95-158 | One subscription is judged from its own bytes and at most its own event is written. |
| Poll.Scan | imports/wasi_snapshot_preview1/poll.go:95-158 | After the pass the output area holds exactly the events of the acknowledged subscriptions; the first bad subscription stops it; it panics only if the sizes wrapped. |
| Poll.Deliver | imports/wasi_snapshot_preview1/poll.go:181-189 | The delayed events follow the others, in order and without error. |
| Poll.Conclude | imports/wasi_snapshot_preview1/poll.go:160-199 | Sleeps or polls as the subscriptions demand, and stores the number of events written. |
| Poll.PollOneoff | imports/wasi_snapshot_preview1/poll.go:51-199 | With disjoint areas the call fails with the error of the first bad subscription or ends with the packed events of the acknowledged ones and their count; it fails on bounds exactly when an area is out of memory, succeeds only if sizes do not wrap, and panics only if they do. |
| Poll.AnsweredEvents | imports/wasi_snapshot_preview1/poll.go:51-199 | After success the count word is the number of events, and event k reads as the userdata of its own subscription, the error it was acknowledged with, and its type. |
| Poll.OrderDistinct | imports/wasi_snapshot_preview1/poll.go:95-189 | No subscription is acknowledged twice. |
| Poll.SleepsForClocks | imports/wasi_snapshot_preview1/poll.go:160-168 | The call sleeps only if there is a clock, if and only if there is a clock or a delayed subscription; otherwise it sleeps for the longest duration. |
| Poll.WriteSleepsLongest | imports/wasi_snapshot_preview1/poll.go:160-168 | One subscription to writing to descriptor 1 makes the call sleep for the longest duration. |
| PollGuests.JudgedByFields | imports/wasi_snapshot_preview1/poll.go:95-158 | A subscription written field by field as in WASI snapshot-01, whatever its padding, is judged by its fields: only relative clocks are supported, a negative descriptor is refused, one that is not open is reported, and a clock's timeout is the signed 64-bit number asked for. |
| PollGuests.OtherRefused | imports/wasi_snapshot_preview1/poll.go:154-157 | A subscription of any other type is refused. |
| PollGuests.WaitsForLeast | imports/wasi_snapshot_preview1/poll.go:108-168 | The time a call waits is the least of the timeouts the guest wrote. |
| PollGuests.EventDecodes | imports/wasi_snapshot_preview1/poll.go:241-247 | An event reads as the userdata and type of its subscription and the error its fields call for. |
| PollGuests.MillisIs | imports/wasi_snapshot_preview1/poll.go:176-181 | The wait for stdin is the whole milliseconds of the duration, if they fit 32 bits. |
| PollGuests.GuestPolls | imports/wasi_snapshot_preview1/poll.go:51-199 | A guest that writes subscriptions, calls and reads the events: the call sleeps for the least timeout if nothing waits for stdin, event k is that of the k-th subscription answered, those answered are the ones answerable at once and those on stdin if it became ready, and a refused one fails the call with the error of the first. |
| TypeResolution.TypeResolver.constructor | internal/component/type_resolver.go:90-97 | A new resolver, also for another scope, starts with an empty cache. |
| TypeResolution.TypeResolver.ResolveValType | internal/component/type_resolver.go:37-51 | In every reachable cache state the result is the one of the definition without a cache, errors included, and the cache stays right. |
| TypeResolution.TypeResolver.ResolveTypeIdx | internal/component/type_resolver.go:99-170 | The same for an index: cached, local, mapped, from the type space, or direct. |
| TypeResolution.TypeResolver.ResolveDefinedType | internal/component/type_resolver.go:172-219 | The same for a definition, in its own scope if it carries one. |
| TypeResolution.TypeResolver.ResolveEach | internal/component/type_resolver.go:221-296 | The loops over fields, cases and elements stop at the first error. |
| TypeResolution.FoundIsVisible | internal/component/type_resolver.go:99-170 | The definition of an index is the visible one: the scope at hand hides mapped value definitions, which hide the type space, which hides the list. |
| TypeResolution.RefusedByKind | internal/component/type_resolver.go:99-170 | An index that is not visible is not found, and outside the scope at hand a function, resource or component is refused as such. |
| TypeResolution.RefAgrees | internal/component/component_linker.go:833-883 | On closed local scopes the resolver gives the type that the plain conversion of a reference gives. |
| TypeResolution.DefAgrees | internal/component/component_linker.go:748-830 | On closed local scopes the resolver gives the type that the plain conversion of a definition gives. |
| Strings.LeadingZero | internal/component/semver.go:25-38 | Leading zeros do not change a number. |
| Strings.DecimalParses | internal/component/semver.go:25-38 | A number written in decimal is read back. |
| Semvers.FormatParses | internal/component/semver.go:19-45 | A version written out and parsed again is the same version. |
| Semvers.CompareIsOrder | internal/component/semver.go:187-207 | The comparison is a total order and semverGreater is its strict part. |
| Semvers.CompareIsAtMost | internal/component/semver.go:187-207 | The comparison is the lexicographic order of major, minor and patch. |
| Semvers.ParsesTo | internal/component/semver.go:19-45 | Three parts joined by dots are a version exactly if each is a number below 2^32; they are major, minor and patch in that order. |
| Semvers.MatchesIsBetween | internal/component/semver.go:151-183 | A version is in a range exactly if it lies between the bounds in that order, each bound with or without itself. |
| Semvers.CompatibleIsInterval | internal/component/semver.go:215-241 | Compatible means: from the required version, or relaxed before 1.0 from its minor release, up to the next breaking release. |
| Semvers.MatchesBetween | internal/component/semver.go:151-183 | A range is convex. |
| Linking.SplitVersion | internal/component/semver.go:48-54 | The name is its base, an at sign and a version without one. |
| Linking.FindBest | internal/component/linker.go:221-267 | For every order of the visit, the definition of the first key in that order of the highest compatible version; nothing exactly when no definition is compatible. |
| Linking.CandidateIff | internal/component/linker.go:292-431 | A definition satisfies an import exactly if its key is the import's own name with a version in the accepted interval. |
| Linking.HighestWins | internal/component/linker.go:292-431 | With the keys a:b/c@1.0.0 and a:b/c@1.2.0 defined, the import a:b/c@1.0.0 is answered with 1.2.0 in every order of the visit. |
| Linking.BestIsUnique | internal/component/linker.go:292-431 | All best definitions have one version; when no two candidates share a version there is only one. |
| Linking.SameVersionIsBestToo | internal/component/linker.go:292-431 | A candidate is best if and only if it has the best version. |
| Linking.SameForEveryOrder | internal/component/linker.go:292-431 | All orders of the visit find the same definition if and only if all best keys hold the same definition. |
| Linking.LeadingZeroSameVersion | internal/component/semver.go:19-45 | A leading zero gives another key of the same version. |
| Linking.SpellingsDisagree | internal/component/linker.go:181-371 | A linker with the keys a:b/c@1.0.0 and a:b/c@01.0.0: the two orders of the visit give one import two definitions. |
| Linking.MatchImport | internal/component/linker.go:181-441 | An import name is answered by its search: an exact key, the best compatible version in the order of the visit, or an error. |
| Linking.InterfaceByValue | internal/component/linker.go:278-371 | "namespace/name@version", in any spelling of the version, asks for the best compatible instance. |
| Linking.FuncByValue | internal/component/linker.go:278-431 | "namespace@version/name" asks for the best compatible function of that name. |
| Linking.UnlockedByRange | internal/component/linker.go:221-259 | "unlocked-dep=name:range" asks for the highest version in the range, or is an error if the range cannot be read. |
| Linking.LockedByValue | internal/component/linker.go:207-218 | "locked-dep=name:version", in any spelling of the version, names one key. |
| Linking.LocationsRefused | internal/component/linker.go:181-205 | "url=" and "integrity=" names match nothing. |
| Linking.UnversionedExactly | internal/component/linker.go:181-205 | A name without a version names its own key. |
| Linking.UnreadableRefused | internal/component/linker.go:278-431 | A version that cannot be read, in the namespace or in the name, matches nothing. |
| Linking.OwnNameIsCandidate | internal/component/linker.go:303-371 | A definition under the import's own name is always compatible with it. |

## Left out

- Core module compilation, instantiation, import wiring and host modules: engine and store code.
- BorrowRuns.PerformAll: a run ends before the 2^32nd simultaneous lend of one handle, which is treated exactly in BorrowScope.AddLender, and before a New on a full table.
- DropRuns.PerformAll: a run ends before a New on a full table.
- HandleRuns.PerformAll: a run ends before a New that would need slot 2^31, the end of the range of the table's signed links.
- Instances.Instance.Call: a handle that would need slot 2^31 is not created, and lowering one fails; a lend that would wrap a 32-bit counter ends the call with an error of its own; the instance's table exists from the start, destructors are recorded and not run, and results other than handles are given by the plan of the call; the legacy fallbacks for untyped parameters and results are not modelled.
- Drops.DropOwned: destructor callbacks are recorded in a log instead of being run.
- Lowering.ExportedFunc.LowerToMemory: elements of record, variant, option, result, enum, flags and tuple types are not written, because writer and reader use different layouts for them; the round trip needs byte counts below 2^32, beyond which sizes wrap.
- Lowering.ExportedFunc.Allocate: an answer of the guest's realloc that overlaps an earlier block or changes its bytes counts as a failed allocation; the alignment it is asked for plays no part.
- GuestMemory.LiftFieldFromMemory: only scalars, strings and lists of them are read.
- TypedLowering.LowerList: for elements of other types the effect on memory is a parameter, and only pointer and length are stated.
- TypedLowering.LowerHandle: the index is any 32-bit number; which one the resource table gives is stated by Instances.Instance.LowerOwn and Instances.Instance.LowerBorrow.
- StackRoundTrip.ScalarComesBack: floats are left out, because lifting converts the word as a number and not as bits.
- StackRoundTrip.LowerThenLift: floats, handles, lists, more than 32 flags, tuples and results; a variant's payload is present exactly if its case has a type.
- LiftStack.LiftFromStack: definitions that lead back to themselves when read in the scope at hand, on which counting slots would not end; lists of composites are described in LiftListFromStack; the conversion of words to floats is a parameter.
- LiftStack.LiftCall: for parameters outside the supported types only the general condition, that walk and signature have as many slots; OneSlotExactly, UnresolvedIndex and OptionBothWays say where they differ.
- Layout.LiftListFromMemory: composites that carry their own scope, because sizes are computed in that scope only; strings are not read by the code and lift to zero.
- Flattening.FlattenCountIsLength: fixed-length lists, whose declared count and flattening differ, are not among the types.
- Dirents.DirentCache.Read: a directory that does not change and reads without I/O errors.
- Readdir.FdReaddir: looking up the file descriptor is a parameter.
- Poll.PollOneoff: file lookup and polling of stdin are parameters; overlapping areas are modelled, but only bounds, success and panics are stated for them.
- Linking.MatchImport: the order in which a map is visited is a parameter, every order being allowed; parsing the text of a version range is a parameter; what a range matches is modelled.
- TypeResolution.TypeResolver.ResolveValType: error texts, and the names of fields and cases wrapped around them.
- A second lender list in the call context that does not count lends, and the uint32 closures over handles.
- File system, socket, clock and random host calls, command line, configuration, logging and errno tables.
- Concurrency of goroutines, UTF-8 validation and NaN canonicalisation.
