# Verified models of the Cloth compiler and runtime

Cloth compiles packages to native objects that run on a precise, stop-the-world mark/sweep collector. This project
models the parts of the compiler and of the runtime on which a Cloth program's memory safety, its binary layouts and
its builds rest, and proves for all inputs, all runs or all reachable states what each part is for. `dafny verify
dfyconfig.toml` checks all of it.

The models, by what they are about:

- **The managed heap.** `HeapModel` is the collector as a state machine over allocations, reference and root writes,
  frame pushes and pops and collections. `AllocationIndex` is the open-addressing address index. `ManagedHeap` is the
  runtime's own algorithm over that index (worklist marking, list sweeping, rebuilding, registration), each operation
  proved to be one step of the state machine. `Hashing` and `Bits` prove the identity hash a bijection.
  `RootFrames` is the linked list of root frames.
- **Roots in generated code.** `Mir` is the part of the intermediate representation that matters, `Liveness` the
  backward fixpoint that decides which roots are live, proved exact against paths, and `RootClearing` the clears that
  the code generator inserts, proved invisible in every run under any instruction semantics. `RootedObjects` joins them
  to the collector: a collection at any point keeps every object the code can still use.
- **Layouts.** `Alignment` is checked 64-bit alignment, `AbiTypes` the type table, `AbiLayout` the placement of one
  file's fields by the producer and by the importer, `AbiVerifier` the verifier's checks, and `AbiLowering` the
  lowering of a whole module along `Topological`'s traversal.
- **Artifacts and linking.** `Json` is the canonical metadata text, `Sha256` the incremental hasher and
  `Sha256Words` the standard's word functions and constants behind it, `Artifact` the file
  around them, `PackageFile` the package records in it, `CanonicalIdentity` the length-prefixed identities behind link
  names, and `Linking` the closure check and the proof that what it accepts links.
- **Flow.** `ControlFlow` is the fall-through analysis, sound against a big-step semantics.
- **Values.** `Utf8`, `Strings` and `ShuttleText` treat text, `IntegerParsing` numerals, and `Values` the structural
  equality and hash of boxed values.

What Cloth's compiler and runtime demand of their callers appears as a precondition: phis open a block and successors of
reachable blocks are reachable, a frame is not pushed again below the top, operands of string operations are rooted,
semantic analysis has matched struct types with their files, given bases to classes only and never nested nullables,
no two of the artifacts that are linked or were compiled against share a digest.

Five places where the code does less than its surroundings suggest, with the exact condition under which it is right:

- The fall-through analysis forgets a break in a `for` initializer that may also fall through
  (`ControlFlow.UnsettledBreakIsLost`). It is right about a loop's breaks exactly when its initializer is not of that
  kind (`ControlFlow.LoopInitializerDecides`), which the HIR verifier's rule for initializers implies
  (`ControlFlow.VerifiedIsSettled`).
- The analysis looks for literals in loop tests only, so it may let a branch on one fall through that never does
  (`ControlFlow.LiteralBranchIsLoose`). It is right about a typed, verified body exactly when it says the same of the body
  with its literal branches taken (`ControlFlow.LiteralBranchesDecide`).
- Producer and importer compute the same layout for a type exactly when it is no nullable, or one over a reference, or
  one over a value that has storage, is not the type of `null` and still fits 64 bits with its tag
  (`AbiTypes.EntriesAgree`). They differ for a nullable over `null`, which the producer tags and the importer takes for a
  pointer (`AbiTypes.NullableNullDiffers`), and for one over a type without storage, an empty aggregate to the producer
  and invalid to the importer (`AbiTypes.NullableVoidDiffers`).
- The importer holds tagged nullables to the 1 MiB of a struct, the producer only the struct inside
  (`AbiTypes.LargeNullableIsRefused`). It accepts an entry of a lowered table exactly when the entry is not the error
  type, and, for a nullable, when the element is named and is a reference or a value other than `null` with storage whose
  size and alignment together are at most 1 MiB (`AbiTypes.AcceptedIsImportable`).
- A root frame pushed while it is active below the top ties the runtime's list of frames into a loop. The list still
  ends after a push exactly when the frame was not active (`RootFrames.PushedEnds`, `RootFrames.PushedAgainLoops`).

## Model

| member | source | states |
|---|---|---|
| `HeapModel.RunKeepsInvariant` | runtime/runtime.cc:569-748 | after every run of allocations, writes, frame pushes and pops and collections: addresses and identities of the registry are distinct and ordered, every live object is registered, live bytes stay within threshold and peak, counters fit 64 bits |
| `HeapModel.StepKeepsInvariant` | runtime/runtime.cc:569-748 | each kind of step keeps that invariant |
| `HeapModel.CollectIsPrecise` | runtime/runtime.cc:579-639 | an allocation survives a collection exactly when a chain of references from an active root slot leads to it, and its object is unchanged |
| `HeapModel.ReferencesAreSlots` | runtime/runtime.cc:599-635 | an object refers to exactly what stands in the words its reference map selects, in an array those of every element; a string refers to nothing |
| `HeapModel.WrittenSurvives` | runtime/runtime.cc:579-639 | what a reference written into a mapped slot of a reachable object refers to, instance or array element, survives the next collection |
| `HeapModel.RootedSurvives` | runtime/runtime.cc:579-589 | so does what a reference written into a slot of an active frame refers to |
| `HeapModel.DoubleIsCapped` | runtime/runtime.cc:286-291 | the threshold doubles, up to the largest 64-bit number |
| `HeapModel.CollectIsIdempotent` | runtime/runtime.cc:670-702 | collecting twice frees nothing more than collecting once |
| `HeapModel.ReachableIsNeverFreed` | runtime/runtime.cc:670-748 | over any run, an object that stays reachable stays registered |
| `HeapModel.StepKeepsReachable` | runtime/runtime.cc:670-748 | no single step frees a reachable object |
| `HeapModel.PeakIsLargestLive` | runtime/runtime.cc:746-748 | the peak counter is the largest number of live bytes any state of the run held |
| `HeapModel.LiveBytesAreBounded` | runtime/runtime.cc:286-291 | live bytes never pass the larger of 64 KiB and twice what the last collection left plus the request that set it off |
| `HeapModel.StepMovesThreshold` | runtime/runtime.cc:689-722 | each step keeps the threshold within the bound set by the last collection |
| `HeapModel.IdentitiesCountUp` | runtime/runtime.cc:730-743 | the k-th allocation of a run has identity k, and no identity is used again |
| `HeapModel.KeepMembers` | runtime/runtime.cc:670-685 | sweeping keeps exactly the marked allocations |
| `HeapModel.KeepIdentities` | runtime/runtime.cc:670-685 | sweeping keeps the order of the registry |
| `AllocationIndex.Find` | runtime/runtime.cc:555-567 | a lookup returns the allocation of an address exactly when the index represents one; probing ends at an empty slot |
| `AllocationIndex.ProbeFor` | runtime/runtime.cc:555-567 | the probe loop stops at the address or at the first empty slot, everything passed being other entries |
| `AllocationIndex.ProbeEmpty` | runtime/runtime.cc:301-309 | the insertion probe finds the first empty slot and terminates |
| `AllocationIndex.Insert` | runtime/runtime.cc:301-309 | inserting adds exactly the one allocation to what the index represents |
| `AllocationIndex.InsertedRepresents` | runtime/runtime.cc:301-309 | filling the first empty probe slot keeps every earlier entry findable |
| `AllocationIndex.FillIndex` | runtime/runtime.cc:341-352 | refilling a cleared index makes it represent the registry |
| `AllocationIndex.SlotsAreMasked` | runtime/runtime.cc:294-309 | home slot and next slot are the hash and the successor under the bit mask of a power-of-two capacity |
| `AllocationIndex.GrownCapacity` | runtime/runtime.cc:311-325 | growth gives a power of two with load at most one half, never more than needed, or fails only past the size limit |
| `ManagedHeap.Heap.FindAllocation` | runtime/runtime.cc:555-567 | in every reachable state a pointer is found exactly when it is registered |
| `ManagedHeap.Heap.EnqueueReference` | runtime/runtime.cc:569-577 | marks and queues a registered unmarked object and nothing else |
| `ManagedHeap.Heap.EnqueueRoots` | runtime/runtime.cc:579-589 | marks exactly the registered contents of the active frames' slots |
| `ManagedHeap.Heap.EnqueueWords` | runtime/runtime.cc:603-614 | the loop over a reference map enqueues the word at every offset from the base |
| `ManagedHeap.Heap.EnqueueElements` | runtime/runtime.cc:617-634 | the two loops over an array enqueue every mapped word of every element |
| `ManagedHeap.Heap.EnqueueReferences` | runtime/runtime.cc:599-638 | visiting by kind enqueues exactly what the object refers to |
| `ManagedHeap.Heap.VisitNext` | runtime/runtime.cc:590-639 | visiting an object keeps the marking invariant and only adds marks |
| `ManagedHeap.Heap.MarkReachable` | runtime/runtime.cc:579-639 | marking terminates with exactly the reachable objects marked, cycles included |
| `ManagedHeap.Heap.SweepNode` | runtime/runtime.cc:672-685 | one link of the sweep: keep and unmark, or unlink, count down and destroy |
| `ManagedHeap.Heap.SweepList` | runtime/runtime.cc:670-687 | the sweep keeps the marked allocations in registry order, leaves no mark and exact counters |
| `ManagedHeap.Heap.RebuildIndex` | runtime/runtime.cc:341-352 | after a sweep the index represents the registry again at load at most one half |
| `ManagedHeap.Heap.Reclaim` | runtime/runtime.cc:670-698 | mark, sweep and rebuild together leave the registry and objects of the abstract collection, indexed and counted |
| `ManagedHeap.Heap.CollectHeap` | runtime/runtime.cc:689-702 | a collection is the state machine's collect step and keeps everything valid |
| `ManagedHeap.Heap.MakeRoom` | runtime/runtime.cc:704-722 | collecting before an allocation happens exactly when the threshold would be passed; failure exactly on overflow |
| `ManagedHeap.Heap.ReserveIndex` | runtime/runtime.cc:311-339 | growing the index keeps it equal to the registry and leaves the heap unchanged |
| `ManagedHeap.Heap.RegisterAllocation` | runtime/runtime.cc:724-750 | registration is the state machine's register step; failure only on counter or index overflow |
| `ManagedHeap.Heap.Allocate` | runtime/runtime.cc:2335-2343 | an allocation is the state machine's allocate step; it stops only on overflow of a count or at the size limit of the index |
| `ManagedHeap.Heap.PushFrame` | runtime/runtime.cc:2345-2368 | a frame is pushed exactly when it is not null, its table and count agree, no slot is null and it is not the active one; that is the push step |
| `ManagedHeap.Heap.PopFrame` | runtime/runtime.cc:2370-2378 | exactly the top frame can be popped; that is the pop step |
| `RootFrames.PushedEnds` | runtime/runtime.cc:2345-2368 | after a push the list of frames ends exactly when the frame was not active in it, and then is the old list below the new frame |
| `RootFrames.PushedAgainLoops` | runtime/runtime.cc:2345-2368 | a frame pushed again below the top leaves a list without end |
| `RootFrames.FrameList.Push` | runtime/runtime.cc:2345-2368 | a push is refused exactly as the runtime refuses it, and is the push step exactly when the frame was not active |
| `RootFrames.FrameList.Pop` | runtime/runtime.cc:2370-2378 | exactly the top frame is popped, its record is cleared and the frames below stay |
| `ManagedHeap.Heap.ObjectHashCode` | runtime/runtime.cc:2696-2703 | the default hash code is the mixed identity of the registered object |
| `ManagedHeap.HashCodesAreDistinct` | runtime/runtime.cc:1830-1836 | two allocations of one run never have the same default hash code |
| `ManagedHeap.MarkedAtEnd` | runtime/runtime.cc:590-639 | marks closed under references that start from the roots are exactly the reachable objects |
| `Hashing.MixHashIsBijective` | runtime/runtime.cc:1830-1836 | mixing is a bijection on 64-bit words, with its inverse given |
| `Hashing.MixHashIsInjective` | runtime/runtime.cc:1830-1836 | different words mix to different words |
| `Liveness.SummariseBlock` | src/backend/llvm_ir.cc:1925-1970 | a block's use and definition sets act on any live-out set as the instruction-by-instruction scan does |
| `Liveness.Pass` | src/backend/llvm_ir.cc:1976-2023 | one pass over the blocks only adds live roots, and shrinks what is missing when it reports a change |
| `Liveness.Iterate` | src/backend/llvm_ir.cc:1973-2024 | the iteration terminates for every graph and ends balanced in every block |
| `Liveness.ScanBlock` | src/backend/llvm_ir.cc:2034-2068 | the backward scan records the live set after each instruction |
| `Liveness.FillTables` | src/backend/llvm_ir.cc:2026-2079 | the tables hold those scans for every block and the sets after the phis |
| `Liveness.ScanIsExact` | src/backend/llvm_ir.cc:2028-2068 | at the fixpoint a root is in the scanned set of a point exactly when it is live there, and the scan ends at the block's live-in set |
| `Liveness.PathIsFound` | src/backend/llvm_ir.cc:1973-2068 | every path from a point to a use without a definition on the way is found |
| `Liveness.ScanFindsLive` | src/backend/llvm_ir.cc:2028-2068 | everything the scan finds lies on such a path |
| `Liveness.RoundKeepsGround` | src/backend/llvm_ir.cc:1976-2022 | replacing a block's tables by the next round stays within what is live |
| `Liveness.AnalyzeGcLiveness` | src/backend/llvm_ir.cc:1916-2080 | for every body: a root is in the table of a point exactly when some path reaches a use of it with no definition before, phi operands counted on their edges |
| `Mir.SuccessorsAreChosen` | src/mir/mir.cc:2031-2047 | the successors of a terminator are exactly the blocks it can go to, whatever its condition and selector |
| `RootClearing.OperandsAreUses` | src/backend/llvm_ir.cc:158-294 | the words that an instruction reads, kind by kind, are those of its listed uses in their order, and its symbol is the listed one |
| `RootClearing.WordsAreUses` | src/backend/llvm_ir.cc:296-313 | so for terminators |
| `RootClearing.WritesAreDefinitions` | src/backend/llvm_ir.cc:1942-1965 | an instruction overwrites no root slot but those of its listed definitions, the storage it stores into and a call's success |
| `RootClearing.PhisReadOperands` | src/backend/llvm_ir.cc:4596-4640 | after an edge each phi reads what its operand for that edge read before, whichever phis read each other |
| `RootClearing.EntryClears` | src/backend/llvm_ir.cc:2356-2396 | block-entry clears touch no root that is live after the phis |
| `RootClearing.DeadRoots` | src/backend/llvm_ir.cc:2398-2450 | clears after an instruction touch no root that is live there |
| `RootClearing.TwoPhaseIsSimultaneous` | src/backend/llvm_ir.cc:4596-4629 | copying aggregate phis through scratch storage in two phases is simultaneous assignment, swaps included, and leaves the scratch zeroed |
| `RootClearing.InstructionAgrees` | src/backend/llvm_ir.cc:2338-2354 | an instruction run on slots that differ only in dead roots reads the same words and symbol and again leaves only dead roots different |
| `RootClearing.ArriveAgrees` | src/backend/llvm_ir.cc:4596-4629 | so does crossing an edge with its phis and entry clears |
| `RootClearing.EdgeIsCovered` | src/backend/llvm_ir.cc:1984-2002 | what leaves a block covers what the successor's phis read and what passes them by |
| `RootClearing.StepKeepsLockstep` | src/backend/llvm_ir.cc:1731-1763 | the body with clears and the body without stay in lockstep at every step |
| `RootClearing.ClearsAreInvisible` | src/backend/llvm_ir.cc:1731-1763 | over any number of steps, of any body under any instruction semantics, clears are invisible |
| `RootClearing.NextActionIsUnharmed` | src/backend/llvm_ir.cc:2338-2450 | the next action, instruction or terminator, reads the same words, and the same symbol unless it is unset, with clears as without |
| `RootClearing.LiveRootsAreSeen` | src/backend/llvm_ir.cc:2338-2450 | at every point of every run, the slot of each root that some path still uses holds what the body last wrote, so a collection there finds it |
| `RootClearing.InsertClears` | src/backend/llvm_ir.cc:1722-1763 | the tables computed for a body make its clears invisible in every run |
| `RootedObjects.UsableObjectsSurvive` | src/backend/llvm_ir.cc:1722-1763 | whatever the program without clears could still reach from a root it uses later, a collection at that point of the program with clears keeps, contents included |
| `Utf8.DecodeInverts` | runtime/runtime.cc:175-226 | what the decoder accepts at an index is the RFC 3629 encoding of the scalar it returns |
| `Utf8.DecodeFinds` | runtime/runtime.cc:175-226 | every encoded scalar is decoded back |
| `Utf8.ValidIsEncoded` | runtime/runtime.cc:228-240 | the byte strings the scanner accepts are exactly the encodings, each of one scalar sequence |
| `Utf8.ConcatAddsScalars` | runtime/runtime.cc:976-1002 | concatenation appends the scalars |
| `Utf8.SplitAndConcat` | runtime/runtime.cc:976-1002 | concatenation undoes a split at any scalar |
| `Strings.TryCountScalars` | runtime/runtime.cc:228-240 | counts the scalars of exactly the valid strings |
| `Strings.FindBounds` | runtime/runtime.cc:2572-2600 | the one pass of a slice finds the byte offsets of both scalar bounds |
| `Strings.Slice` | runtime/runtime.cc:2572-2615 | a slice is valid UTF-8 holding exactly scalars start to end; each failure has its exact condition |
| `Strings.Concat` | runtime/runtime.cc:976-1002 | a concatenation holds the scalars of both and fails exactly on size |
| `Strings.ScalarAt` | runtime/runtime.cc:2617-2635 | indexing returns the scalar at the position, or out of bounds |
| `Strings.NextScalar` | runtime/runtime.cc:2637-2669 | at the cursor of scalar k it returns that scalar and the next cursor, at the end nothing, and a bad cursor is reported exactly when the cursor is at no scalar boundary |
| `Strings.BoundaryShows` | runtime/runtime.cc:2637-2669 | a cursor is at a scalar boundary exactly when it is an end of the text or stands at no continuation byte |
| `Strings.Enumerate` | runtime/runtime.cc:2637-2669 | iteration from cursor zero returns all scalars in order and then stops |
| `ShuttleText.ValidUtf8` | src/compiler/shuttle_protocol.cc:42-82 | the separately written validator accepts exactly the byte strings the runtime decoder does |
| `ShuttleText.StepAgrees` | src/compiler/shuttle_protocol.cc:42-82 | each of its steps agrees with one decoding step |
| `IntegerParsing.ParseInteger` | runtime/runtime.cc:1584-1661 | invalid exactly outside the sign, radix and underscore grammar, out of range exactly when only the range fails, otherwise the two's complement bits of the value |
| `IntegerParsing.ModulusIsPower` | runtime/runtime.cc:1609-1618 | the modulus of a width is two to its bits |
| `IntegerParsing.DigitsInOrder` | runtime/runtime.cc:1534-1545 | the sixteen digits have their values in either case |
| `IntegerParsing.NoOtherDigits` | runtime/runtime.cc:1534-1545 | and nothing else is a digit |
| `IntegerParsing.ReadDigits` | runtime/runtime.cc:1626-1658 | the digit loop is exact against the mathematical magnitude and never leaves 64 bits |
| `IntegerParsing.ReadPrefix` | runtime/runtime.cc:1586-1615 | sign and radix prefix are split off as the grammar says |
| `IntegerParsing.DigitStep` | runtime/runtime.cc:1633-1640 | the overflow test of one digit is exact |
| `Values.EqualIsSameMeaning` | runtime/runtime.cc:1859-1924 | two values are equal exactly when their bytes stand for the same thing, integers in two's complement and floats by value, and no NaN, bad tag or excess nesting is met |
| `Values.LoadIsInjective` | runtime/runtime.cc:1852-1857 | byte strings of one length load as the same word only when they are the same |
| `Values.EqualBytes` | runtime/runtime.cc:1864-1900 | integers and references are equal exactly when their bytes are |
| `Values.FloatsEqual` | runtime/runtime.cc:1889-1892 | floats are equal exactly when neither is a NaN and both denote the same infinity or the same number, by sign, exponent and fraction |
| `Values.SignedHash` | runtime/runtime.cc:1938-1949 | a signed number hashes as its 64-bit two's complement |
| `Values.NumbersHashApart` | runtime/runtime.cc:1933-1960 | integers of one kind hash alike exactly when they are equal |
| `Values.FloatsHashApart` | runtime/runtime.cc:1961-1968 | floats hash alike exactly when their bytes are the same or both are zero |
| `Values.ReferencesHashApart` | runtime/runtime.cc:1973-1984 | references hash alike exactly when they are the same, identities being distinct |
| `Values.OneByteTells` | runtime/runtime.cc:1838-1845 | texts that differ in one byte hash differently |
| `Values.CombineTells` | runtime/runtime.cc:1847-1850 | combining with one hash tells everything apart |
| `Values.EqualToItself` | runtime/runtime.cc:1859-1924 | a value equals itself exactly when it is ordinary in that sense |
| `Values.EqualityIsSymmetric` | runtime/runtime.cc:1859-1924 | swapping the operands changes nothing, failures included |
| `Values.EqualityIsTransitive` | runtime/runtime.cc:1859-1924 | equality is transitive |
| `Values.EqualHashesAlike` | runtime/runtime.cc:1926-2010 | equal values have equal hashes through structs, nullables, signed zeros, null strings and identity references |
| `Values.StringsEqual` | runtime/runtime.cc:2541-2557 | strings are equal exactly when both are null, the same, or of the same bytes |
| `Alignment.CheckedAlignIsClose` | src/abi/abi.cc:68-83 | aligning gives a multiple within one alignment of the value and fails exactly on a bad alignment or overflow |
| `Alignment.NearestIsLeast` | src/abi/abi.cc:76-83 | that multiple is the least from the value on |
| `Alignment.AlignedIsMultiple` | src/abi/abi.cc:76-83 | having no bit below a power of two is being a multiple of it |
| `AbiTypes.LowerNullable` | src/abi/abi.cc:122-145 | the producer's nullable layout: payload one alignment in, padded size, references shifted, nothing exactly on overflow |
| `AbiTypes.ExpectNullable` | src/artifact/imported_package.cc:569-615 | the importer's, by unchecked arithmetic behind guards |
| `AbiTypes.NullableIsValid` | src/abi/abi.cc:122-145 | references of a nullable value stay in order and inside it |
| `AbiTypes.LowerType` | src/abi/abi.cc:147-216 | the producer's entry for each type, a valid one: scalars by kind and width, pointers, nullables over references, tagged and untagged values, and those without a known element |
| `AbiTypes.StorageHoldsBits` | src/abi/abi.cc:188-211 | in a lowered table the storage of a number holds its bits, has the size the runtime reads and natural alignment up to four bytes; numbers hold no reference, a pointer holds one |
| `AbiTypes.NullableHoldsValue` | src/abi/abi.cc:122-145 | a nullable value has room for its value one alignment in and refers to exactly what the value refers to there |
| `AbiTypes.ExpectType` | src/artifact/imported_package.cc:543-640 | the importer's entry for each type, from the stored entries of the others |
| `AbiTypes.EntriesAgree` | src/artifact/imported_package.cc:543-640 | producer and importer agree on a type exactly when it is no nullable, or its element is a reference, or a value that can be tagged |
| `AbiTypes.NullableNullDiffers` | src/artifact/imported_package.cc:569-582 | the nullable over `null`, where they differ and the import is refused |
| `AbiTypes.NullableVoidDiffers` | src/artifact/imported_package.cc:582-591 | the nullable over a type without storage, where they differ and the import is refused |
| `AbiTypes.VerifyType` | src/artifact/imported_package.cc:642-750 | accepts exactly the records of the right shape that equal the importer's layout and whose maps are ordered, aligned, inside and within the limits |
| `AbiTypes.TaggedSize` | src/artifact/imported_package.cc:591-606 | a tagged value is within a limit exactly when the size and alignment of the value together are |
| `AbiTypes.AcceptedIsImportable` | src/artifact/imported_package.cc:1348-1354 | of a lowered table the importer accepts, by its check of records (642-750) and its limit on all aggregates, exactly the entries with a record of the right shape and, if nullable, an element that is a reference or a value other than `null` with storage and at most 1 MiB of size and alignment |
| `AbiTypes.LargeNullableIsRefused` | src/artifact/imported_package.cc:1348-1354 | a struct of 1 MiB is accepted and the nullable over it, on which both agree, is refused |
| `AbiLayout.FieldsAreDisjoint` | src/abi/abi.cc:281-322 | fields in order are aligned, in bounds and pairwise disjoint |
| `AbiLayout.HeaderIsTwoPointers` | runtime/runtime.cc:39-42 | the header that layouts leave room for is the runtime's two pointers |
| `AbiLayout.DepthIsNesting` | src/abi/abi.cc:308-321 | the depth of a struct is above that of every inline struct in it and no more than that asks for |
| `AbiLayout.FindPlace` | src/abi/abi.cc:287-297 | checked arithmetic finds the place that the importer finds, or fails with it |
| `AbiLayout.SpacedIncreases` | src/abi/abi.cc:298-309 | reference maps strictly increase and lie in bounds |
| `AbiLayout.FlattenIsComplete` | src/artifact/imported_package.cc:952-967 | a flattened map holds an offset exactly when some field's type has a reference there: none is missed, none invented |
| `AbiLayout.AddReferences` | src/abi/abi.cc:298-309 | a field's references are added shifted to its place, exactly when all fall on pointer boundaries |
| `AbiLayout.LowerField` | src/abi/abi.cc:281-320 | placing one field succeeds exactly when the importer's placement does and the references fit, and keeps everything in order |
| `AbiLayout.LowerStart` | src/abi/abi.cc:256-280 | the base's storage, or the message of a root error class, comes first; the checks on it never fail |
| `AbiLayout.LowerFields` | src/abi/abi.cc:281-321 | the loop over the declared fields |
| `AbiLayout.PadLayout` | src/abi/abi.cc:322-332 | tail padding gives a size that is a multiple of the alignment |
| `AbiLayout.LowerFileLayout` | src/abi/abi.cc:240-336 | a file is laid out exactly when its fields can be placed and the padded result is within the limits; its layout is then good, its map is the flattening of its fields, it starts with its base's, and the importer reconstructs it |
| `AbiVerifier.VerifyClassLayout` | src/abi/abi_verifier.cc:321-350 | accepts exactly the layouts whose fields are aligned, ordered and inside, with a size that is a multiple of the alignment |
| `AbiVerifier.VerifyReferences` | src/abi/abi_verifier.cc:217-229 | accepts exactly the maps that increase, are pointer-aligned and in bounds |
| `AbiVerifier.FlattenFields` | src/artifact/imported_package.cc:951-967 | the importer's loop flattens the fields, or fails exactly past the limit or outside the layout |
| `AbiVerifier.VerifyMap` | src/artifact/imported_package.cc:951-986 | the importer accepts exactly the map that the fields flatten to |
| `AbiVerifier.GoodIsSound` | src/abi/abi_verifier.cc:217-350 | every good layout passes these three checks |
| `AbiVerifier.VerifyReconstruction` | src/artifact/imported_package.cc:1417-1506 | the importer accepts a stored layout exactly when it equals its reconstruction |
| `AbiVerifier.LowerValueBox` | src/abi/abi.cc:384-408 | a value box exists exactly when it fits 64 bits; it holds its payload aligned behind its header and inside, with the value's references moved along in order |
| `AbiLowering.LowerTypes` | src/abi/abi.cc:509-528 | before any file is laid out every entry is the producer's for its type, seen in the whole table |
| `AbiLowering.SetStructType` | src/abi/abi.cc:580-600 | recording a struct's layout sets its type and the nullable types over it and no other, and fails exactly when one of those cannot be laid out |
| `AbiLowering.StructIsRecorded` | src/abi/abi.cc:580-600 | after that every entry of the table still is what the producer computes for its type, and what was settled is unchanged |
| `AbiLowering.GoodFileStable` | src/abi/abi.cc:566-608 | laying out another file never disturbs one already laid out, its reference map included |
| `AbiLowering.LowerOne` | src/abi/abi.cc:566-608 | a file whose needs are laid out is laid out exactly when it fits and the map limit is kept, and types, layouts and maps stay good |
| `AbiLowering.LowerToAbi` | src/abi/abi.cc:509-613 | success means that every file is laid out, each type has its producer's entry, every layout is good with the map its fields flatten to, extends its base and is reconstructed by the importer from the final types; each failure has its condition, a cycle exactly when there is one and nothing released misfits or passes the map limit |
| `AbiLowering.FailuresAlong` | src/abi/abi.cc:566-608 | lowering stops only at a file that does not fit the tables built so far, or with which all maps together pass the limit |
| `AbiLowering.CheckFile` | src/artifact/imported_package.cc:951-1506 | the checks on one file accept exactly sound storage that extends its base, is reconstructed and has the flattened map |
| `AbiLowering.LowerAndCheck` | src/abi/abi_verifier.cc:177-230 | of what lowering succeeds with, every file passes the verifier and the importer, and the types that pass are exactly those that meet the importer's condition |
| `Topological.Traversal.Next` | src/abi/abi.cc:562-607 | each released node comes after all it needs, and the counts stay exact |
| `Topological.Sort` | src/abi/abi.cc:530-613 | the order puts needs first, is complete exactly when there is no cycle, and leaves only nodes that wait on one another |
| `Topological.EndIsExact` | src/artifact/imported_package.cc:1376-1535 | when nothing is ready, all has been released exactly when there is no cycle |
| `Topological.StuckIsCyclic` | src/artifact/imported_package.cc:1376-1535 | nodes that all wait on one another contain a cycle |
| `Topological.OrderExcludesCycles` | src/compiler/package_pipeline.cc:380-405 | an order of all nodes rules cycles out |
| `Json.ParseInvertsPrint` | src/artifact/package_artifact.cc:71-292 | a text parses to a value exactly when the value is canonical, nests at most 128 deep and prints to that text |
| `Json.ValueSound` | src/artifact/package_artifact.cc:87-213 | whatever the parser reads is the printed form of the canonical value it returns |
| `Json.ValueComplete` | src/artifact/package_artifact.cc:87-213 | every printed canonical value within the limit is read back, whatever follows it |
| `Json.PrintIsInjective` | src/artifact/package_artifact.cc:260-286 | different canonical values print differently, however deep they nest |
| `Json.PrintIsUtf8` | src/artifact/package_artifact.cc:241-286 | the printed form is UTF-8 exactly when every string in the value is |
| `Json.Parser.ReadString` | src/artifact/package_artifact.cc:123-176 | the string reader refines the grammar, escapes and UTF-8 check included |
| `Json.Parser.ReadValue` | src/artifact/package_artifact.cc:87-121 | the recursive-descent reader refines the grammar at every depth |
| `Json.Parser.ReadList` | src/artifact/package_artifact.cc:178-189 | so does the array loop |
| `Json.Parser.ReadObject` | src/artifact/package_artifact.cc:191-213 | so does the object loop with its key order |
| `Json.TokensAreJson` | src/artifact/package_artifact.cc:87-121 | names, structural characters and quotation mark are those of RFC 8259 |
| `Json.EscapeIsJson` | src/artifact/package_artifact.cc:241-258 | what is written between quotation marks stands for the text by section 7 of RFC 8259, every escape included |
| `Json.LessIsLexicographic` | src/artifact/package_artifact.cc:191-213 | keys are ordered by the first byte in which they differ, or by the end of the shorter |
| `Json.ReadText` | src/artifact/package_artifact.cc:75-83 | reading succeeds exactly on printed canonical values and returns them |
| `Json.WriteString` | src/artifact/package_artifact.cc:241-258 | appends the one escaped spelling of a string |
| `Json.WriteValue` | src/artifact/package_artifact.cc:260-292 | appends the printed form |
| `Sha256.ProcessBlock` | src/artifact/sha256.cc:129-180 | the compression loop computes the block function of section 6.2.2 of FIPS 180-4 |
| `Sha256.ExpandWords` | src/artifact/sha256.cc:130-145 | the message schedule |
| `Sha256.ReadIsWritten` | src/artifact/sha256.cc:48-60 | reading bytes as a number and writing it gives them back, most significant first |
| `Sha256.WriteState` | src/artifact/sha256.cc:229-235 | the digest is the eight words, each shifted out from its highest byte |
| `Sha256Words.RotateBits` | src/artifact/sha256.cc:136-141 | rotation moves every bit of a word to its place round the end |
| `Sha256Words.RotateIsQuotient` | src/artifact/sha256.cc:136-141 | and puts the low part above the quotient |
| `Sha256Words.ChoiceBits` | src/artifact/sha256.cc:156-156 | the choice function picks bit by bit (section 4.1.2 of FIPS 180-4) |
| `Sha256Words.MajorityBits` | src/artifact/sha256.cc:162-162 | the majority function is the majority of the three bits |
| `Sha256Words.SumBits` | src/artifact/sha256.cc:154-161 | the two sum functions are the parity of the three rotated bits that the standard names |
| `Sha256Words.ScheduleBits` | src/artifact/sha256.cc:136-141 | the two schedule functions are the parity of two rotated bits and a shifted one |
| `Sha256Words.ConstantsAreFractions` | src/artifact/sha256.cc:33-46 | each round constant is the first 32 bits of the fraction of its prime's cube root (section 4.2.2) |
| `Sha256Words.PrimesInOrder` | src/artifact/sha256.cc:33-46 | those primes are the first 64, none left out |
| `Sha256Words.InitialIsFractions` | src/artifact/sha256.h:30-33 | each initial word is the first 32 bits of the fraction of its prime's square root (section 5.3.3) |
| `Sha256.RunRound` | src/artifact/sha256.cc:156-173 | one round, additions wrapping one by one |
| `Sha256.Hasher.Process` | src/artifact/sha256.cc:129-180 | the hasher's state moves by the block function as the compression loop computes it |
| `Sha256.Hasher.Update` | src/artifact/sha256.cc:182-210 | an update appends to the message whatever its size and the buffer's fill |
| `Sha256.Hasher.Finish` | src/artifact/sha256.cc:211-236 | finishing returns the digest of the whole padded message, the bit count taken modulo 2^64, and again on every repeat |
| `Sha256.HashChunks` | src/artifact/sha256.cc:182-236 | however a message is cut into updates, finishing once or twice gives its one-shot digest |
| `Sha256.HashMessage` | src/artifact/sha256.cc:182-236 | so for SHA-256 itself, with the standard's word functions |
| `Sha256.ClosingPads` | src/artifact/sha256.cc:211-231 | one or two closing blocks are the padding of section 5.1.1 of FIPS 180-4 |
| `Artifact.ReadWritten` | src/artifact/package_artifact.cc:2246-2280 | a little-endian number that fits is read back |
| `Artifact.WrittenRead` | src/artifact/package_artifact.cc:2246-2280 | and little-endian bytes are written back |
| `Artifact.DigestFile` | src/artifact/package_artifact.cc:2282-2291 | the digest in three updates is that of the file with its digest field zeroed |
| `Artifact.ReadHeader` | src/artifact/package_artifact.cc:2588-2607 | a header is accepted exactly when it is the one written for some sizes within the limits |
| `Artifact.WriteEnvelope` | src/artifact/package_artifact.cc:2547-2571 | writing fills header, metadata, payload and then the digest that the hasher computes over the file in three updates |
| `Artifact.ReadEnvelope` | src/artifact/package_artifact.cc:2584-2625 | a file is accepted exactly when it holds sections under the digest computed for it, and those are returned |
| `Artifact.WriteArtifact` | src/artifact/package_artifact.cc:2536-2573 | metadata and payload are refused exactly for their size or a string that is not UTF-8 |
| `Artifact.ReadArtifact` | src/artifact/package_artifact.cc:2584-2635 | up to its metadata tree and payload a file is read exactly when it stores them, and those are returned |
| `Artifact.WriteThenRead` | src/artifact/package_artifact.cc:2536-2635 | a metadata tree and payload that were written are read back, exactly where the tree nests no deeper than the reader goes |
| `Artifact.ReadThenWrite` | src/artifact/package_artifact.cc:2536-2635 | writing what was read returns the file byte for byte, exactly for the files that can be read |
| `Artifact.SaveAndLoad` | src/artifact/package_artifact.cc:2536-2635 | so with SHA-256 as the standard defines it |
| `Artifact.LoadAndSave` | src/artifact/package_artifact.cc:2536-2635 | and the other way round |
| `PackageFile.WritePackage` | src/artifact/package_artifact.cc:2524-2573 | a package is written exactly when it passes its check, can be encoded and fits, with every string in UTF-8 |
| `PackageFile.ReadPackage` | src/artifact/package_artifact.cc:2576-2670 | whatever the decoder does, a file is read exactly when it is what some checked, compatible package that decodes is written to, and that package is returned |
| `PackageFile.EncodedAgain` | src/artifact/package_artifact.cc:2657-2662 | the test of the canonical encoding is enough: records whose encoding prints to the metadata they came from come back from that encoding |
| `PackageFile.PackedOnce` | src/artifact/package_artifact.cc:2636-2669 | no file is written from two packages that decode |
| `PackageFile.SavePackage` | src/artifact/package_artifact.cc:2524-2670 | a written package is read back exactly when its records decode and are compatible |
| `PackageFile.LoadPackage` | src/artifact/package_artifact.cc:2524-2670 | a file that is read is written again byte for byte |
| `CanonicalIdentity.BuildNominalIdentity` | src/identity/canonical_identity.cc:54-87 | the nominal identity built dot by dot is the length-prefixed one |
| `CanonicalIdentity.NominalIdentityInjective` | src/identity/canonical_identity.cc:54-87 | equal nominal identities come from equal package, dotted source package, name and kind |
| `CanonicalIdentity.MemberIdentityInjective` | src/identity/canonical_identity.cc:101-113 | equal member identities come from equal owner, kind, name and parameters |
| `CanonicalIdentity.SpellInjective` | src/identity/canonical_identity.cc:45-113 | identities of all forms are injective, and different forms never coincide |
| `CanonicalIdentity.HexInjective` | src/identity/canonical_identity.cc:115-124 | hex mangling loses nothing |
| `CanonicalIdentity.BuildMangled` | src/identity/canonical_identity.cc:115-124 | the mangling loop |
| `CanonicalIdentity.LinkNamesAreUnique` | src/identity/canonical_identity.cc:45-124 | two members share a link name exactly when they are the same member |
| `Linking.ValidateClosure` | src/compiler/package_pipeline.cc:346-415 | accepts exactly the sets with one artifact a name, every edge satisfied by name, version and digest, everything reached from the roots, no cycle, and views that pass their own check |
| `Linking.Search` | src/compiler/package_pipeline.cc:350-376 | the worklist finds what the roots reach and fails exactly at a missing package or an unsatisfied edge |
| `Linking.FollowEdges` | src/compiler/package_pipeline.cc:364-376 | an artifact's edges are all satisfied exactly when none is refused |
| `Linking.ArtifactSymbols` | src/compiler/package_pipeline.cc:477-563 | own definitions stay, every definition of the closure is required, every other requirement is the runtime's, and exactly object artifacts have those |
| `Linking.AddRequirements` | src/compiler/package_pipeline.cc:483-490 | requirements for an artifact's definitions of new names, and nothing else |
| `Linking.MatchesIsSame` | src/compiler/package_pipeline.cc:769-783 | a definition matches a requirement of its name exactly when they differ in nothing but their roles |
| `Linking.ValidateLinkSymbols` | src/compiler/package_pipeline.cc:753-785 | accepts exactly the sets without a duplicate definition and with a matching definition for each requirement |
| `Linking.OneOwner` | src/artifact/package_artifact.cc:2478-2515 | two verified artifacts that define one name are artifacts of one package |
| `Linking.ClosureIsLinked` | src/compiler/package_pipeline.cc:346-415 | everything an artifact was compiled against is in every accepted set that holds it, if no two of these artifacts share a digest |
| `Linking.ChainIsLinked` | src/compiler/package_pipeline.cc:364-376 | along any chain of digest-pinned edges two accepted sets hold the same artifacts, if no two of theirs share a digest |
| `Linking.ClosedLinking` | src/compiler/package_pipeline.cc:346-785 | any set of compiled artifacts that the closure check accepts links without a duplicate, unresolved or mismatched symbol, if no two artifacts in play share a digest |
| `Linking.Link` | src/compiler/package_pipeline.cc:346-785 | the symbol check passes exactly for sets that link cleanly, which every accepted closure does in which no two artifacts in play share a digest |
| `ControlFlow.StatementSound` | src/flow/control_flow.cc:55-141 | in every run, finished or not: a normal end only where the analysis says fall-through, a break only where it says break, and only statements counted reachable executed |
| `ControlFlow.TrueHolds` | src/flow/control_flow.cc:146-159 | under any evaluation that follows the language, what the analysis takes for a literal `true` is true, through any nesting of groups |
| `ControlFlow.TrueIsExact` | src/flow/control_flow.cc:146-159 | the test singles out exactly the expressions that complete and are never zero under such an evaluation |
| `ControlFlow.PrunedRuns` | src/flow/control_flow.cc:74-86 | taking branches on boolean literals beforehand changes no run |
| `ControlFlow.LiteralBranchesDecide` | src/flow/control_flow.cc:74-86 | for every typed body that passes verification the analysis is right exactly when it says the same of the body with its literal branches taken |
| `ControlFlow.LiteralBranchIsLoose` | src/flow/control_flow.cc:74-86 | a branch on a literal that the analysis lets fall through and that never does |
| `ControlFlow.StatementsSound` | src/flow/control_flow.cc:37-53 | the same for the statements of a block after any before them |
| `ControlFlow.LoopSound` | src/flow/control_flow.cc:87-95 | a loop ends normally only through its test or a break, and keeps its breaks to itself |
| `ControlFlow.ArmIsIncluded` | src/flow/control_flow.cc:96-109 | a switch falls through when an arm falls through or breaks, and captures the breaks |
| `ControlFlow.UnreachableIsNeverExecuted` | src/flow/control_flow.cc:42-46 | a statement reported as unreachable is never executed |
| `ControlFlow.StatementCounts` | src/flow/control_flow.cc:37-53 | the analysis counts no statement twice |
| `ControlFlow.CallableSound` | src/flow/control_flow.cc:29-35 | a callable that can end without returning or throwing is one the analysis lets fall through, initializers of the bottom type included |
| `ControlFlow.VerifiedIsSettled` | src/flow/control_flow.cc:118-135 | the verifier's rule for loop initializers makes the analysis sound |
| `ControlFlow.AnalysisIsExact` | src/flow/control_flow.cc:55-141 | for typed statements that branch on no boolean literal, fall-through and break are claimed exactly when some evaluation of the expressions ends the statement that way |
| `ControlFlow.LoopInitializerDecides` | src/flow/control_flow.cc:118-135 | for a for statement over settled parts, its breaks are analysed right exactly when its initializer does not both break and fall through |
| `ControlFlow.ScriptStatement` | src/flow/control_flow.cc:55-141 | every end the analysis claims is reached by some evaluation |
| `ControlFlow.UnsettledBreakIsLost` | src/flow/control_flow.cc:118-135 | without it a break in an initializer that may fall through is lost |
| `ControlFlow.Analyzer.AnalyzeBlock` | src/flow/control_flow.cc:37-53 | the block loop computes that flow, the two counters and the warnings in order |
| `ControlFlow.Analyzer.AnalyzeStatement` | src/flow/control_flow.cc:55-141 | so does the statement analysis |

## Left out

- Console, file and program-argument input and output, and the Windows branches of the runtime: operating-system calls.
- Floating-point parsing and formatting, which rest on the C++ library; for equality and hashing floats are bit patterns.
- Emission of LLVM text other than roots, clears and phi edges, which is string building.
- The decoder of artifact metadata records, and the field-by-field checks of imported members and descriptors.
- Toolchain processes, paths, option parsing, source enumeration and printers.
- Uniqueness of interface identifiers, which are 64-bit hashes and not unique in general.
- Precision of the clears: an unused phi result keeps its slot, so only safety holds.
- Corrupt object headers, at which the runtime stops, and allocation failure of the operating system.
- Value layouts that validation refuses: equality and hashing are stated for validated layout trees.
- The scalar counter of the lexer, by which the artifact code tests UTF-8: `Utf8.Valid` stands for it.
- The order of an artifact's symbol list.
- The cursor and scalar locals of string iteration, which hold no references: what the step reads and writes there is part of the world.
- Importing a file whose base is outside the closure, which the importer lays out without comparing.
- The absence of a core message field, which stops the layout of a root error class; it is taken to be declared.
- The order in which ready files are taken: results are stated for every choice, of which the smallest number is one.
- Sources, aliases, kinds and compatibility records of artifacts, which the closure check does not look at.
- Sha256.Hasher.Finish: from 2^61 bytes on FIPS 180-4 defines no digest; it is stated there with the bit count modulo 2^64, as the code counts.
- CanonicalIdentity.SpellInjective: assumes that sizes and counts fit 64 bits, as they do in Cloth's compiler.
- ManagedHeap.Heap.PushFrame: keeps the frames as a sequence, so it excludes a frame that is active below the top; what the runtime's list comes to in that case is `RootFrames.FrameList.Push`.
- PackageFile.WritePackage: takes the encoding of the records and the check of the package as parameters.
- PackageFile.ReadPackage: takes the decoder of the records as a parameter as well.
- AbiTypes.VerifyType: knows types by number; the canonical identity texts of records, which the same check spells out, are left out.
- Linking.ValidateClosure: takes the verification of the imported views, which comes last, as a parameter.
- AllocationIndex.GrownCapacity: does not model failure of the allocation itself.
